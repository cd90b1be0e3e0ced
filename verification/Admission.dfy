/** Ties: which peers every eviction takes, which it never takes, and when the peer that
    canConnectToPeer (libp2p/discovery/hostWithConnectionManagement.go) admits is sure to survive the
    Connected event (libp2p/connectionMonitor/libp2pConnectionMonitorSimple.go) that follows. Each
    of the two asks for an eviction list of its own, and the sort breaks ties in any way. */
module Admission {
  import opened Wrappers
  import opened Eviction

  // ---------- an eviction exists ----------

  /** e is what an eviction of s may take from category c. */
  ghost predicate IsCut(v: View, s: set<PeerId>, c: Category, e: set<PeerId>) {
    && e <= InClass(v, s, c)
    && |e| == Count(v, s, c) - Kept(v, s, c)
    && forall p, q :: p in e && q in InClass(v, s, c) - e ==> v.distance(q) <= v.distance(p)
  }

  lemma {:induction false} FarthestOf(v: View, s: set<PeerId>) returns (p: PeerId)
    requires s != {}
    ensures p in s && forall q :: q in s ==> v.distance(q) <= v.distance(p)
    decreases |s|
  {
    p :| p in s;
    if s - {p} != {} {
      var q := FarthestOf(v, s - {p});
      p := if v.distance(p) < v.distance(q) then q else p;
    }
  }

  /** The n farthest peers of s. */
  lemma {:induction false} TakeFarthest(v: View, s: set<PeerId>, n: nat) returns (e: set<PeerId>)
    requires n <= |s|
    ensures e <= s && |e| == n && forall p, q :: p in e && q in s - e ==> v.distance(q) <= v.distance(p)
    decreases n
  {
    e := {};
    if n > 0 {
      var m := FarthestOf(v, s);
      var rest := TakeFarthest(v, s - {m}, n - 1);
      e := rest + {m};
    }
  }

  ghost function Cut(v: View, s: set<PeerId>, c: Category): (e: set<PeerId>)
    ensures IsCut(v, s, c, e)
  {
    CutExists(v, s, c);
    var e :| IsCut(v, s, c, e);
    e
  }

  lemma CutExists(v: View, s: set<PeerId>, c: Category)
    ensures exists e :: IsCut(v, s, c, e)
  {
    hide Kept;
    KeptAtMost(v, s, c);
    var e := TakeFarthest(v, InClass(v, s, c), Count(v, s, c) - Kept(v, s, c));
    assert IsCut(v, s, c, e);
  }

  ghost function AllCuts(v: View, s: set<PeerId>): set<PeerId> {
    set p | p in Counted(v, s) && p in Cut(v, s, v.classOf(p).value)
  }

  /** Every set of peers has an eviction. */
  lemma EvictionExists(v: View, s: set<PeerId>)
    ensures Evicts(v, s, AllCuts(v, s))
  {
    hide Kept, Cut;
    forall c
      ensures InClass(v, AllCuts(v, s), c) == Cut(v, s, c)
    {
      assert IsCut(v, s, c, Cut(v, s, c));
    }
  }

  // ---------- sure to stay, sure to go ----------

  /** The peers of p's category that are no farther than p, with p itself. */
  function NotFarther(v: View, s: set<PeerId>, p: PeerId): set<PeerId> {
    set q | q in s && v.classOf(q) == v.classOf(p) && v.distance(q) <= v.distance(p)
  }

  /** Those that are nearer. */
  function Nearer(v: View, s: set<PeerId>, p: PeerId): set<PeerId> {
    set q | q in s && v.classOf(q) == v.classOf(p) && v.distance(q) < v.distance(p)
  }

  /** The peers of category c that an eviction leaves are as many as the category keeps. */
  lemma StayingCount(v: View, s: set<PeerId>, e: set<PeerId>, c: Category)
    requires Evicts(v, s, e)
    ensures |InClass(v, s, c) - e| == Kept(v, s, c)
  {
    hide Kept;
    CountDifference(v, s, e, c);
    assert Count(v, e, c) == Count(v, s, c) - Kept(v, s, c);
    assert InClass(v, s, c) - e == InClass(v, s - e, c);
  }

  lemma Larger<T>(a: set<T>, b: set<T>) returns (x: T)
    requires |a| > |b|
    ensures x in a && x !in b
  {
    if a <= b {
      SubsetSize(a, b);
    }
    x :| x in a && x !in b;
  }

  /** An eviction takes p only if more peers than the category keeps are no farther. */
  lemma TakenBeyond(v: View, s: set<PeerId>, p: PeerId, c: Category, e: set<PeerId>)
    requires v.classOf(p) == Some(c) && Evicts(v, s, e) && p in e
    ensures |NotFarther(v, s, p)| > Kept(v, s, c)
  {
    hide Kept;
    var stay := InClass(v, s, c) - e;
    StayingCount(v, s, e, c);
    SubsetSize(stay + {p}, NotFarther(v, s, p));
  }

  /** An eviction spares p only if fewer peers than the category keeps are nearer. */
  lemma SparedWithin(v: View, s: set<PeerId>, p: PeerId, c: Category, e: set<PeerId>)
    requires p in s && v.classOf(p) == Some(c) && Evicts(v, s, e) && p !in e
    ensures |Nearer(v, s, p)| < Kept(v, s, c)
  {
    hide Kept;
    var stay := InClass(v, s, c) - e;
    StayingCount(v, s, e, c);
    SubsetSize(Nearer(v, s, p) + {p}, stay);
  }

  /** Where there is room for doubt, some eviction takes p, */
  lemma SomeTakes(v: View, s: set<PeerId>, p: PeerId, c: Category) returns (e: set<PeerId>)
    requires p in s && v.classOf(p) == Some(c) && |NotFarther(v, s, p)| > Kept(v, s, c)
    ensures Evicts(v, s, e) && p in e
  {
    hide Kept, AllCuts;
    e := AllCuts(v, s);
    EvictionExists(v, s);
    if p !in e {
      StayingCount(v, s, e, c);
      var q := Larger(NotFarther(v, s, p), InClass(v, s, c) - e);
      SwapTied(v, s, e, q, p);
      e := e - {q} + {p};
    }
  }

  /** and some eviction spares it. */
  lemma SomeSpares(v: View, s: set<PeerId>, p: PeerId, c: Category) returns (e: set<PeerId>)
    requires p in s && v.classOf(p) == Some(c) && |Nearer(v, s, p)| < Kept(v, s, c)
    ensures Evicts(v, s, e) && p !in e
  {
    hide Kept, AllCuts;
    e := AllCuts(v, s);
    EvictionExists(v, s);
    if p in e {
      StayingCount(v, s, e, c);
      var q := Larger(InClass(v, s, c) - e, Nearer(v, s, p));
      SwapTied(v, s, e, p, q);
      e := e - {p} + {q};
    }
  }

  /** No eviction takes p exactly when the peers that are no farther are at most those kept. */
  lemma NeverEvictedIff(v: View, s: set<PeerId>, p: PeerId, c: Category)
    requires p in s && v.classOf(p) == Some(c)
    ensures (forall e :: Evicts(v, s, e) ==> p !in e) <==> |NotFarther(v, s, p)| <= Kept(v, s, c)
  {
    hide Evicts, Kept;
    forall e | Evicts(v, s, e) && p in e
      ensures |NotFarther(v, s, p)| > Kept(v, s, c)
    {
      TakenBeyond(v, s, p, c, e);
    }
    if |NotFarther(v, s, p)| > Kept(v, s, c) {
      var e := SomeTakes(v, s, p, c);
    }
  }

  /** Every eviction takes p exactly when the nearer peers are at least those kept. */
  lemma AlwaysEvictedIff(v: View, s: set<PeerId>, p: PeerId, c: Category)
    requires p in s && v.classOf(p) == Some(c)
    ensures (forall e :: Evicts(v, s, e) ==> p in e) <==> |Nearer(v, s, p)| >= Kept(v, s, c)
  {
    hide Evicts, Kept;
    forall e | Evicts(v, s, e) && p !in e
      ensures |Nearer(v, s, p)| < Kept(v, s, c)
    {
      SparedWithin(v, s, p, c, e);
    }
    if |Nearer(v, s, p)| < Kept(v, s, c) {
      var e := SomeSpares(v, s, p, c);
    }
  }

  // ---------- the two callers ----------

  /** p is exempt, or its category keeps p and all that are no farther. */
  predicate HasRoom(v: View, s: set<PeerId>, p: PeerId) {
    match v.classOf(p)
    case None => true
    case Some(c) => |NotFarther(v, s, p)| <= Kept(v, s, c)
  }

  /** The category is full with nearer peers. */
  predicate IsFull(v: View, s: set<PeerId>, p: PeerId) {
    match v.classOf(p)
    case None => false
    case Some(c) => |Nearer(v, s, p)| >= Kept(v, s, c)
  }

  /** The peers at the distance of p do not straddle the cut of its category. */
  predicate Decided(v: View, s: set<PeerId>, p: PeerId) {
    HasRoom(v, s, p) || IsFull(v, s, p)
  }

  /** No eviction takes a peer with room, and every eviction takes one whose category is full; any
      other peer of s is taken by one and spared by another. */
  lemma Verdict(v: View, s: set<PeerId>, p: PeerId)
    requires p in s
    ensures (forall e :: Evicts(v, s, e) ==> p !in e) <==> HasRoom(v, s, p)
    ensures (forall e :: Evicts(v, s, e) ==> p in e) <==> IsFull(v, s, p)
  {
    hide Kept, NotFarther, Nearer;
    match v.classOf(p)
    case None =>
      assert p !in Counted(v, s);
      EvictionExists(v, s);
    case Some(c) =>
      hide Evicts;
      NeverEvictedIff(v, s, p, c);
      AlwaysEvictedIff(v, s, p, c);
  }

  /** All evictions agree on p exactly when it is decided. */
  lemma AgreedIff(v: View, s: set<PeerId>, p: PeerId)
    requires p in s
    ensures (forall e, f :: Evicts(v, s, e) && Evicts(v, s, f) ==> (p in e <==> p in f)) <==> Decided(v, s, p)
  {
    hide HasRoom, IsFull, Evicts;
    Verdict(v, s, p);
    if !Decided(v, s, p) {
      var e :| Evicts(v, s, e) && p in e;
      var f :| Evicts(v, s, f) && p !in f;
    }
  }

  /** canConnectToPeer admits p exactly when p survives the Connected event that follows on the same
      connections, whatever the two sorts do: this holds if and only if p is decided. */
  lemma AdmissionAgrees(v: View, s: set<PeerId>, p: PeerId)
    ensures (forall asked, connected :: Evicts(v, s + {p}, asked) && Evicts(v, s + {p}, connected) ==>
               (p !in asked <==> p in Next(s, Connected(p, connected)))) <==> Decided(v, s + {p}, p)
  {
    hide Evicts, Decided;
    AgreedIff(v, s + {p}, p);
  }

  /** Without ties inside a category every peer is decided. */
  lemma TieFreeDecides(v: View, s: set<PeerId>, p: PeerId)
    requires TieFree(v, s) && p in s
    ensures Decided(v, s, p)
  {
    hide Evicts, Decided, TieFree;
    forall e, f | Evicts(v, s, e) && Evicts(v, s, f)
      ensures e == f
    {
      EvictionUnique(v, s, e, f);
    }
    AgreedIff(v, s, p);
  }

  function DistancesOf(v: View, s: set<PeerId>): set<nat> {
    set p | p in s :: v.distance(p)
  }

  lemma {:induction false} DifferentDistances(v: View, s: set<PeerId>)
    requires forall p, q :: p in s && q in s && p != q ==> v.distance(p) != v.distance(q)
    ensures |DistancesOf(v, s)| == |s|
    decreases |s|
  {
    if s != {} {
      var p :| p in s;
      DifferentDistances(v, s - {p});
      assert DistancesOf(v, s) == DistancesOf(v, s - {p}) + {v.distance(p)};
    }
  }

  lemma {:induction false} BoundedNumbers(s: set<nat>, most: nat)
    requires forall n :: n in s ==> n <= most
    ensures |s| <= most + 1
    decreases most
  {
    if most == 0 {
      SubsetSize(s, {0});
    } else {
      BoundedNumbers(s - {most}, most - 1);
      SubsetSize(s, (s - {most}) + {most});
    }
  }

  /** Without ties a category has no more peers than there are distances. */
  lemma TieFreeCount(v: View, s: set<PeerId>, c: Category, most: nat)
    requires TieFree(v, s) && forall p :: p in s ==> v.distance(p) <= most
    ensures Count(v, s, c) <= most + 1
  {
    DifferentDistances(v, InClass(v, s, c));
    BoundedNumbers(DistancesOf(v, InClass(v, s, c)), most);
  }

  /** Two seeders, equally far, where one is allowed. */
  const TIED := View(p => Some(Seeder), p => 1, Limits(1, 1, 1, 1, 1, 1, 0))

  lemma SeedersOnly(s: set<PeerId>, c: Category)
    ensures InClass(TIED, s, c) == if c == Seeder then s else {}
    ensures c != Seeder ==> Kept(TIED, s, c) == 0
    ensures Kept(TIED, s, Seeder) == Least(|s|, 1)
  {
    hide Kept;
    assert InClass(TIED, s, c) == if c == Seeder then s else {};
    KeptAtMost(TIED, s, c);
    KeptSeeders(s);
  }

  lemma KeptSeeders(s: set<PeerId>)
    ensures Kept(TIED, s, Seeder) == Least(|s|, 1)
  {
    assert InClass(TIED, s, Seeder) == s;
  }

  lemma OneIsEvicted(x: PeerId, y: PeerId)
    requires x != y
    ensures Evicts(TIED, {x} + {y}, {x})
  {
    hide Kept;
    var s := {x} + {y};
    assert s == {x, y} && |s| == 2;
    forall c
      ensures Count(TIED, {x}, c) == Count(TIED, s, c) - Kept(TIED, s, c)
    {
      SeedersOnly(s, c);
      SeedersOnly({x}, c);
    }
  }

  /** With "A" connected, "B" may be admitted and then closed, or refused although it would have
      stayed. */
  lemma AdmissionCanDisagree()
    ensures Evicts(TIED, {"A"} + {"B"}, {"A"}) && Evicts(TIED, {"A"} + {"B"}, {"B"})
    ensures "B" in Next({"A"}, Connected("B", {"A"})) && "B" !in Next({"A"}, Connected("B", {"B"}))
    ensures !Decided(TIED, {"A"} + {"B"}, "B")
  {
    OneIsEvicted("A", "B");
    OneIsEvicted("B", "A");
    assert {"B"} + {"A"} == {"A"} + {"B"};
    hide Evicts, Decided;
    AgreedIff(TIED, {"A"} + {"B"}, "B");
    assert "B" !in {"A"};
  }
}
