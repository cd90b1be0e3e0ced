/** Which connected peers are evicted, as a relation on sets of peers, and what every run of
    connections and disconnections keeps (libp2p/networksharding/listsSharder.go,
    libp2p/connectionMonitor/libp2pConnectionMonitorSimple.go,
    libp2p/discovery/hostWithConnectionManagement.go). */
module Eviction {
  import opened Wrappers
  import Quotas

  datatype Category = IntraVal | CrossVal | IntraObs | CrossObs | Unknown | Seeder | FullHistory

  /** The limits a sharder was built with. */
  datatype Limits = Limits(
    intraVal: nat, crossVal: nat, intraObs: nat, crossObs: nat, unknown: nat, seeders: nat, fullHistory: nat)
  {
    function Total(): nat {
      intraVal + crossVal + intraObs + crossObs + unknown + seeders + fullHistory
    }
  }

  /** What a sharder knows: the category of each peer (none for the exempt ones), its distance to
      this node, and the limits. */
  datatype View = View(classOf: PeerId -> Option<Category>, distance: PeerId -> nat, limits: Limits)

  // ---------- counts ----------

  function InClass(v: View, s: set<PeerId>, c: Category): set<PeerId> {
    set p | p in s && v.classOf(p) == Some(c)
  }

  function Count(v: View, s: set<PeerId>, c: Category): nat {
    |InClass(v, s, c)|
  }

  /** The place of c in the chain of categories that pass spare places on. */
  function Position(c: Category): nat
    requires !c.Seeder? && !c.FullHistory?
  {
    match c
    case IntraVal => 0
    case CrossVal => 1
    case IntraObs => 2
    case CrossObs => 3
    case Unknown => 4
  }

  function Existing(v: View, s: set<PeerId>): (e: seq<nat>)
    ensures |e| == 5
  {
    [Count(v, s, IntraVal), Count(v, s, CrossVal), Count(v, s, IntraObs), Count(v, s, CrossObs), Count(v, s, Unknown)]
  }

  function ChainQuotas(l: Limits): (q: seq<nat>)
    ensures |q| == 5
  {
    [l.intraVal, l.crossVal, l.intraObs, l.crossObs, l.unknown]
  }

  function Least(a: nat, b: nat): nat {
    if a < b then a else b
  }

  /** How many peers of category c stay. */
  function Kept(v: View, s: set<PeerId>, c: Category): nat {
    if c == Seeder then Least(Count(v, s, c), v.limits.seeders)
    else if c == FullHistory then Least(Count(v, s, c), v.limits.fullHistory)
    else Quotas.Keep(Existing(v, s), ChainQuotas(v.limits), 0)[Position(c)]
  }

  /** The peers an eviction counts. */
  function Counted(v: View, s: set<PeerId>): set<PeerId> {
    set p | p in s && v.classOf(p) != None
  }

  lemma KeptAtMost(v: View, s: set<PeerId>, c: Category)
    ensures Kept(v, s, c) <= Count(v, s, c)
  {
    if c != Seeder && c != FullHistory {
      Quotas.KeepEach(Existing(v, s), ChainQuotas(v.limits), 0, Position(c));
    }
  }

  /** How many peers each category keeps, in numbers: validators of this shard, validators of others,
      observers of this shard, observers of others and unknown peers share their limits in this order,
      each taking what those before leave; seeders and full history observers keep to their own. */
  lemma KeptMeans(v: View, s: set<PeerId>)
    ensures var l := v.limits;
            var iv, cv, io := Kept(v, s, IntraVal), Kept(v, s, CrossVal), Kept(v, s, IntraObs);
            var co, u := Kept(v, s, CrossObs), Kept(v, s, Unknown);
            && iv == Least(Count(v, s, IntraVal), l.intraVal)
            && iv + cv == Least(iv + Count(v, s, CrossVal), l.intraVal + l.crossVal)
            && iv + cv + io == Least(iv + cv + Count(v, s, IntraObs), l.intraVal + l.crossVal + l.intraObs)
            && iv + cv + io + co ==
               Least(iv + cv + io + Count(v, s, CrossObs), l.intraVal + l.crossVal + l.intraObs + l.crossObs)
            && iv + cv + io + co + u ==
               Least(iv + cv + io + co + Count(v, s, Unknown), l.intraVal + l.crossVal + l.intraObs + l.crossObs + l.unknown)
            && Kept(v, s, Seeder) == Least(Count(v, s, Seeder), l.seeders)
            && Kept(v, s, FullHistory) == Least(Count(v, s, FullHistory), l.fullHistory)
  {
    hide Count, Quotas.Keep;
    var l := v.limits;
    Quotas.FiveSteps(Count(v, s, IntraVal), Count(v, s, CrossVal), Count(v, s, IntraObs), Count(v, s, CrossObs),
                     Count(v, s, Unknown), l.intraVal, l.crossVal, l.intraObs, l.crossObs, l.unknown);
  }

  // ---------- eviction ----------

  /** e is what an eviction of s may propose: in each category all but the kept number of peers,
      none of them nearer than one that stays. Ties are broken by the sort, so e need not be
      unique. */
  ghost predicate Evicts(v: View, s: set<PeerId>, e: set<PeerId>) {
    && e <= Counted(v, s)
    && (forall c :: Count(v, e, c) == Count(v, s, c) - Kept(v, s, c))
    && (forall p, q :: p in e && q in s - e && v.classOf(p) == v.classOf(q) ==> v.distance(q) <= v.distance(p))
  }

  /** No two counted peers of one category are equally far. */
  ghost predicate TieFree(v: View, s: set<PeerId>) {
    forall p, q :: p in Counted(v, s) && q in s && p != q && v.classOf(p) == v.classOf(q) ==>
      v.distance(p) != v.distance(q)
  }

  lemma SubsetSize<T>(a: set<T>, b: set<T>)
    requires a <= b
    ensures |a| <= |b|
    ensures |a| == |b| ==> a == b
  {
    assert b == a + (b - a);
  }

  /** The evicted set does not depend on the order of the peers, nor on the sort. */
  lemma EvictionUnique(v: View, s: set<PeerId>, e: set<PeerId>, f: set<PeerId>)
    requires TieFree(v, s) && Evicts(v, s, e) && Evicts(v, s, f)
    ensures e == f
  {
    forall p | p in e
      ensures p in f
    {
      EvictedByBoth(v, s, e, f, p);
    }
    forall p | p in f
      ensures p in e
    {
      EvictedByBoth(v, s, f, e, p);
    }
  }

  lemma EvictedByBoth(v: View, s: set<PeerId>, e: set<PeerId>, f: set<PeerId>, p: PeerId)
    requires TieFree(v, s) && Evicts(v, s, e) && Evicts(v, s, f) && p in e
    ensures p in f
  {
    if p !in f {
      var q := Exchanged(v, s, e, f, p);
    }
  }

  /** If f spares p, it takes another peer of that category. */
  lemma Exchanged(v: View, s: set<PeerId>, e: set<PeerId>, f: set<PeerId>, p: PeerId) returns (q: PeerId)
    requires Evicts(v, s, e) && Evicts(v, s, f) && p in e && p !in f
    ensures q in f && q !in e && q in s && q != p && v.classOf(q) == v.classOf(p) && p in Counted(v, s)
    ensures v.distance(q) == v.distance(p)
  {
    var c := v.classOf(p).value;
    var ec, fc := InClass(v, e, c), InClass(v, f, c);
    assert Count(v, e, c) == Count(v, f, c);
    assert p in ec && p !in fc;
    assert !(fc <= ec) by {
      if fc <= ec {
        SubsetSize(fc, ec);
      }
    }
    q :| q in fc && q !in ec;
  }

  /** No evicted peer is just as far as one of its category that stays. */
  ghost predicate ClearCut(v: View, s: set<PeerId>, e: set<PeerId>) {
    forall p, q :: p in e && q in s - e && v.classOf(p) == v.classOf(q) ==> v.distance(q) < v.distance(p)
  }

  /** Exactly when is an eviction the only one? When no tie lies across its cut. */
  lemma OnlyEvictionIff(v: View, s: set<PeerId>, e: set<PeerId>)
    requires Evicts(v, s, e)
    ensures (forall f :: Evicts(v, s, f) ==> f == e) <==> ClearCut(v, s, e)
  {
    if ClearCut(v, s, e) {
      forall f | Evicts(v, s, f)
        ensures f == e
      {
        ClearCutWins(v, s, e, f);
      }
    } else {
      var p, q :| p in e && q in s - e && v.classOf(p) == v.classOf(q) && v.distance(q) >= v.distance(p);
      SwapTied(v, s, e, p, q);
      assert q in e - {p} + {q};
    }
  }

  lemma ClearCutWins(v: View, s: set<PeerId>, e: set<PeerId>, f: set<PeerId>)
    requires Evicts(v, s, e) && Evicts(v, s, f) && ClearCut(v, s, e)
    ensures f == e
  {
    forall p | p in e
      ensures p in f
    {
      if p !in f {
        var q := Exchanged(v, s, e, f, p);
      }
    }
    forall p | p in f
      ensures p in e
    {
      if p !in e {
        var q := Exchanged(v, s, f, e, p);
      }
    }
  }

  /** A tie across the cut can be broken the other way. */
  lemma SwapTied(v: View, s: set<PeerId>, e: set<PeerId>, p: PeerId, q: PeerId)
    requires Evicts(v, s, e) && p in e && q in s - e && v.classOf(p) == v.classOf(q)
    requires v.distance(q) >= v.distance(p)
    ensures Evicts(v, s, e - {p} + {q})
  {
    var f := e - {p} + {q};
    forall c
      ensures Count(v, f, c) == Count(v, e, c)
    {
      if v.classOf(p) == Some(c) {
        assert InClass(v, f, c) == InClass(v, e, c) - {p} + {q};
      } else {
        assert InClass(v, f, c) == InClass(v, e, c);
      }
    }
  }

  // ---------- stability ----------

  /** Nothing is evicted from s. */
  ghost predicate Stable(v: View, s: set<PeerId>) {
    forall c :: Kept(v, s, c) == Count(v, s, c)
  }

  /** The inequalities behind an empty eviction: every prefix of the chain within its quotas, and
      the two strict limits. */
  ghost predicate WithinLimits(v: View, s: set<PeerId>) {
    && Quotas.Feasible(Existing(v, s), Existing(v, s), ChainQuotas(v.limits), 0)
    && Count(v, s, Seeder) <= v.limits.seeders
    && Count(v, s, FullHistory) <= v.limits.fullHistory
  }

  lemma StableIffWithinLimits(v: View, s: set<PeerId>)
    ensures Stable(v, s) <==> WithinLimits(v, s)
  {
    var keep, e := Quotas.Keep(Existing(v, s), ChainQuotas(v.limits), 0), Existing(v, s);
    Quotas.KeepsAllIff(e, ChainQuotas(v.limits));
    if Stable(v, s) {
      assert Kept(v, s, IntraVal) == Count(v, s, IntraVal) && Kept(v, s, CrossVal) == Count(v, s, CrossVal);
      assert Kept(v, s, IntraObs) == Count(v, s, IntraObs) && Kept(v, s, CrossObs) == Count(v, s, CrossObs);
      assert Kept(v, s, Unknown) == Count(v, s, Unknown);
      assert keep == e;
      assert Kept(v, s, Seeder) == Count(v, s, Seeder) && Kept(v, s, FullHistory) == Count(v, s, FullHistory);
    }
  }

  /** The same by category. */
  lemma WithinLimitsMeans(v: View, s: set<PeerId>)
    ensures var l := v.limits;
            var iv, cv, io := Count(v, s, IntraVal), Count(v, s, CrossVal), Count(v, s, IntraObs);
            var co, u := Count(v, s, CrossObs), Count(v, s, Unknown);
            WithinLimits(v, s) <==>
            && iv <= l.intraVal
            && iv + cv <= l.intraVal + l.crossVal
            && iv + cv + io <= l.intraVal + l.crossVal + l.intraObs
            && iv + cv + io + co <= l.intraVal + l.crossVal + l.intraObs + l.crossObs
            && iv + cv + io + co + u <= l.intraVal + l.crossVal + l.intraObs + l.crossObs + l.unknown
            && Count(v, s, Seeder) <= l.seeders
            && Count(v, s, FullHistory) <= l.fullHistory
  {
    hide Count, Kept;
    StableIffWithinLimits(v, s);
    KeptMeans(v, s);
    AllStable(v, s);
    KeptAtMost(v, s, CrossVal);
    KeptAtMost(v, s, IntraObs);
    KeptAtMost(v, s, CrossObs);
    KeptAtMost(v, s, Unknown);
  }

  lemma AllStable(v: View, s: set<PeerId>)
    ensures Stable(v, s) <==>
            && Kept(v, s, IntraVal) == Count(v, s, IntraVal) && Kept(v, s, CrossVal) == Count(v, s, CrossVal)
            && Kept(v, s, IntraObs) == Count(v, s, IntraObs) && Kept(v, s, CrossObs) == Count(v, s, CrossObs)
            && Kept(v, s, Unknown) == Count(v, s, Unknown) && Kept(v, s, Seeder) == Count(v, s, Seeder)
            && Kept(v, s, FullHistory) == Count(v, s, FullHistory)
  {
    hide Kept, Count;
    if Kept(v, s, IntraVal) == Count(v, s, IntraVal) && Kept(v, s, CrossVal) == Count(v, s, CrossVal)
      && Kept(v, s, IntraObs) == Count(v, s, IntraObs) && Kept(v, s, CrossObs) == Count(v, s, CrossObs)
      && Kept(v, s, Unknown) == Count(v, s, Unknown) && Kept(v, s, Seeder) == Count(v, s, Seeder)
      && Kept(v, s, FullHistory) == Count(v, s, FullHistory)
    {
      forall c
        ensures Kept(v, s, c) == Count(v, s, c)
      {
        match c
        case IntraVal =>
        case CrossVal =>
        case IntraObs =>
        case CrossObs =>
        case Unknown =>
        case Seeder =>
        case FullHistory =>
      }
    }
  }

  /** An eviction is empty exactly when the connected set is within the limits. */
  lemma EmptyEvictionIff(v: View, s: set<PeerId>, e: set<PeerId>)
    requires Evicts(v, s, e)
    ensures e == {} <==> WithinLimits(v, s)
  {
    StableIffWithinLimits(v, s);
    if e == {} {
      forall c
        ensures Kept(v, s, c) == Count(v, s, c)
      {
        assert InClass(v, e, c) == {};
        assert Count(v, e, c) == Count(v, s, c) - Kept(v, s, c);
      }
    }
    if e != {} {
      var p :| p in e;
      var c := v.classOf(p).value;
      assert p in InClass(v, e, c);
      assert Count(v, e, c) == Count(v, s, c) - Kept(v, s, c);
    }
  }

  /** Within the limits, every subset is. */
  lemma WithinLimitsSubset(v: View, t: set<PeerId>, s: set<PeerId>)
    requires WithinLimits(v, s) && t <= s
    ensures WithinLimits(v, t)
  {
    forall c
      ensures Count(v, t, c) <= Count(v, s, c)
    {
      SubsetSize(InClass(v, t, c), InClass(v, s, c));
    }
    Quotas.FeasibleSmaller(Existing(v, t), Existing(v, s), ChainQuotas(v.limits));
  }

  lemma CountDifference(v: View, s: set<PeerId>, e: set<PeerId>, c: Category)
    requires e <= s
    ensures Count(v, s - e, c) == Count(v, s, c) - Count(v, e, c)
  {
    assert InClass(v, s, c) == InClass(v, s - e, c) + InClass(v, e, c);
  }

  /** What an eviction leaves is within the limits. */
  lemma EvictionSettles(v: View, s: set<PeerId>, e: set<PeerId>)
    requires Evicts(v, s, e)
    ensures WithinLimits(v, s - e)
  {
    forall c
      ensures Count(v, s - e, c) == Kept(v, s, c)
    {
      CountDifference(v, s, e, c);
      assert Count(v, e, c) == Count(v, s, c) - Kept(v, s, c);
    }
    var keep := Quotas.Keep(Existing(v, s), ChainQuotas(v.limits), 0);
    Quotas.KeepIsFeasible(Existing(v, s), ChainQuotas(v.limits));
    assert Existing(v, s - e) == keep;
  }

  // ---------- the bound on connections ----------

  function Members(v: View, s: set<PeerId>, cs: set<Category>): set<PeerId> {
    set p | p in s && v.classOf(p) != None && v.classOf(p).value in cs
  }

  lemma AddClass(v: View, s: set<PeerId>, cs: set<Category>, c: Category)
    requires c !in cs
    ensures |Members(v, s, cs + {c})| == |Members(v, s, cs)| + Count(v, s, c)
  {
    assert Members(v, s, cs + {c}) == Members(v, s, cs) + InClass(v, s, c);
    assert Members(v, s, cs) !! InClass(v, s, c);
  }

  lemma CountedIsSum(v: View, s: set<PeerId>)
    ensures |Counted(v, s)| == Quotas.Prefix(Existing(v, s), 5) + Count(v, s, Seeder) + Count(v, s, FullHistory)
  {
    hide Count, Members, Quotas.Prefix;
    NoMembers(v, s);
    AddClass(v, s, {}, IntraVal);
    AddClass(v, s, {} + {IntraVal}, CrossVal);
    AddClass(v, s, {} + {IntraVal} + {CrossVal}, IntraObs);
    AddClass(v, s, {} + {IntraVal} + {CrossVal} + {IntraObs}, CrossObs);
    AddClass(v, s, {} + {IntraVal} + {CrossVal} + {IntraObs} + {CrossObs}, Unknown);
    var chain: set<Category> := {} + {IntraVal} + {CrossVal} + {IntraObs} + {CrossObs} + {Unknown};
    AddClass(v, s, chain, Seeder);
    AddClass(v, s, chain + {Seeder}, FullHistory);
    AllMembers(v, s, chain + {Seeder} + {FullHistory});
    SumOfFive(Existing(v, s));
  }

  lemma NoMembers(v: View, s: set<PeerId>)
    ensures |Members(v, s, {})| == 0
  {
    assert Members(v, s, {}) == {};
  }

  lemma AllMembers(v: View, s: set<PeerId>, cs: set<Category>)
    requires IntraVal in cs && CrossVal in cs && IntraObs in cs && CrossObs in cs && Unknown in cs
    requires Seeder in cs && FullHistory in cs
    ensures Members(v, s, cs) == Counted(v, s)
  {
    forall c: Category
      ensures c in cs
    {
      match c
      case IntraVal =>
      case CrossVal =>
      case IntraObs =>
      case CrossObs =>
      case Unknown =>
      case Seeder =>
      case FullHistory =>
    }
  }

  lemma SumOfFive(s: seq<nat>)
    requires |s| == 5
    ensures Quotas.Prefix(s, 5) == s[0] + s[1] + s[2] + s[3] + s[4]
  {
    assert Quotas.Prefix(s, 5) == s[0] + Quotas.Prefix(s[1..], 4);
    assert Quotas.Prefix(s[1..], 4) == s[1] + Quotas.Prefix(s[1..][1..], 3);
    assert Quotas.Prefix(s[1..][1..], 3) == s[2] + Quotas.Prefix(s[1..][1..][1..], 2);
    assert Quotas.Prefix(s[1..][1..][1..], 2) == s[3] + Quotas.Prefix(s[1..][1..][1..][1..], 1);
    assert Quotas.Prefix(s[1..][1..][1..][1..], 1) == s[4] + Quotas.Prefix(s[1..][1..][1..][1..][1..], 0);
  }

  /** Within the limits, the counted peers are at most all limits together. */
  lemma CountedBound(v: View, s: set<PeerId>)
    requires WithinLimits(v, s)
    ensures |Counted(v, s)| <= v.limits.Total()
  {
    CountedIsSum(v, s);
    SumOfFive(ChainQuotas(v.limits));
    assert Quotas.Prefix(Existing(v, s), 5) <= 0 + Quotas.Prefix(ChainQuotas(v.limits), 5);
  }

  // ---------- one more peer ----------

  /** The counts of s with one more peer of the chain. */
  lemma OneMore(v: View, s: set<PeerId>, p: PeerId, c: Category)
    requires p !in s
    ensures Count(v, s + {p}, c) == Count(v, s, c) + (if v.classOf(p) == Some(c) then 1 else 0)
  {
    if v.classOf(p) == Some(c) {
      assert InClass(v, s + {p}, c) == InClass(v, s, c) + {p};
    } else {
      assert InClass(v, s + {p}, c) == InClass(v, s, c);
    }
  }

  lemma EvictedIsSum(v: View, s: set<PeerId>, e: set<PeerId>)
    requires Evicts(v, s, e)
    ensures var keep := Quotas.Keep(Existing(v, s), ChainQuotas(v.limits), 0);
            |e| == Quotas.Prefix(Existing(v, s), 5) - Quotas.Prefix(keep, 5)
                   + (Count(v, s, Seeder) - Kept(v, s, Seeder)) + (Count(v, s, FullHistory) - Kept(v, s, FullHistory))
  {
    assert Counted(v, e) == e;
    CountedIsSum(v, e);
    SumOfFive(Existing(v, e));
    SumOfFive(Existing(v, s));
    SumOfFive(Quotas.Keep(Existing(v, s), ChainQuotas(v.limits), 0));
    assert forall c :: Count(v, e, c) == Count(v, s, c) - Kept(v, s, c);
  }

  /** One connection more costs at most one connection. */
  lemma OneEvictionAtMost(v: View, s: set<PeerId>, p: PeerId, e: set<PeerId>)
    requires WithinLimits(v, s) && Evicts(v, s + {p}, e)
    ensures |e| <= 1
  {
    hide Existing, Count, ChainQuotas, Quotas.Keep, Quotas.Prefix;
    if p in s {
      assert s + {p} == s;
      EmptyEvictionIff(v, s, e);
    } else {
      var more, quotas := Existing(v, s + {p}), ChainQuotas(v.limits);
      OneMoreInAll(v, s, p);
      OldStillFeasible(Existing(v, s), more, quotas);
      EvictedIsSum(v, s + {p}, e);
    }
  }

  lemma OneMoreInAll(v: View, s: set<PeerId>, p: PeerId)
    requires p !in s
    ensures var few, more := Existing(v, s), Existing(v, s + {p});
            var seeder, history := Count(v, s + {p}, Seeder) - Count(v, s, Seeder),
                                   Count(v, s + {p}, FullHistory) - Count(v, s, FullHistory);
            && (forall i :: 0 <= i < 5 ==> few[i] <= more[i])
            && 0 <= seeder && 0 <= history
            && Quotas.Prefix(more, 5) - Quotas.Prefix(few, 5) + seeder + history <= 1
  {
    forall c
      ensures Count(v, s + {p}, c) == Count(v, s, c) + (if v.classOf(p) == Some(c) then 1 else 0)
    {
      OneMore(v, s, p, c);
    }
    SumOfFive(Existing(v, s));
    SumOfFive(Existing(v, s + {p}));
  }

  lemma {:induction false} OldStillFeasible(few: seq<nat>, more: seq<nat>, quotas: seq<nat>)
    requires |few| == |more| == |quotas| == 5 && Quotas.Feasible(few, few, quotas, 0)
    requires forall i :: 0 <= i < 5 ==> few[i] <= more[i]
    ensures Quotas.Prefix(few, 5) <= Quotas.Prefix(Quotas.Keep(more, quotas, 0), 5)
  {
    Quotas.KeepIsOptimal(few, more, quotas, 5);
  }

  // ---------- runs ----------

  /** Connected evicts and closes; Disconnected only lets a peer go. */
  datatype Event = Connected(p: PeerId, evicted: set<PeerId>) | Disconnected(p: PeerId)

  function Next(s: set<PeerId>, ev: Event): set<PeerId> {
    match ev
    case Connected(p, evicted) => s + {p} - evicted
    case Disconnected(p) => s - {p}
  }

  ghost predicate Possible(v: View, s: set<PeerId>, ev: Event) {
    ev.Connected? ==> Evicts(v, s + {ev.p}, ev.evicted)
  }

  ghost predicate PossibleRun(v: View, s: set<PeerId>, events: seq<Event>)
    decreases |events|
  {
    events == [] || (Possible(v, s, events[0]) && PossibleRun(v, Next(s, events[0]), events[1..]))
  }

  function After(s: set<PeerId>, events: seq<Event>): set<PeerId>
    decreases |events|
  {
    if events == [] then s else After(Next(s, events[0]), events[1..])
  }

  /** After every event of every run the connected set is within the limits, so an eviction list
      computed then is empty; the counted peers never exceed the maximum; and no step closes more
      than one connection. */
  lemma {:induction false} RunStaysWithinLimits(v: View, s: set<PeerId>, events: seq<Event>)
    requires WithinLimits(v, s) && PossibleRun(v, s, events)
    ensures WithinLimits(v, After(s, events))
    ensures |Counted(v, After(s, events))| <= v.limits.Total()
    ensures forall e :: Evicts(v, After(s, events), e) ==> e == {}
    ensures forall i :: 0 <= i < |events| && events[i].Connected? ==> |events[i].evicted| <= 1
    decreases |events|
  {
    if events == [] {
      CountedBound(v, s);
      forall e | Evicts(v, s, e)
        ensures e == {}
      {
        EmptyEvictionIff(v, s, e);
      }
    } else {
      match events[0]
      {
        case Connected(p, evicted) =>
          EvictionSettles(v, s + {p}, evicted);
          OneEvictionAtMost(v, s, p, evicted);
        case Disconnected(p) =>
          WithinLimitsSubset(v, s - {p}, s);
      }
      RunStaysWithinLimits(v, Next(s, events[0]), events[1..]);
      forall i | 0 <= i < |events| && events[i].Connected?
        ensures |events[i].evicted| <= 1
      {
        if i > 0 {
          assert events[i] == events[1..][i - 1];
        }
      }
    }
  }

  lemma NobodyWithinLimits(v: View)
    ensures WithinLimits(v, {})
  {
    assert forall c :: InClass(v, {}, c) == {};
    assert Existing(v, {}) == [0, 0, 0, 0, 0];
    forall n | 0 <= n <= 5
      ensures Quotas.Prefix([0, 0, 0, 0, 0], n) <= Quotas.Prefix(ChainQuotas(v.limits), n)
    {
      Quotas.PrefixMonotone([0, 0, 0, 0, 0], ChainQuotas(v.limits), n);
    }
  }

  /** In particular every run from no connections. */
  lemma RunFromNobody(v: View, events: seq<Event>)
    requires PossibleRun(v, {}, events)
    ensures WithinLimits(v, After({}, events))
    ensures |Counted(v, After({}, events))| <= v.limits.Total()
    ensures forall e :: Evicts(v, After({}, events), e) ==> e == {}
    ensures forall i :: 0 <= i < |events| && events[i].Connected? ==> |events[i].evicted| <= 1
  {
    NobodyWithinLimits(v);
    RunStaysWithinLimits(v, {}, events);
  }

  // ---------- runs in which peers change ----------

  /** Between two events peers may change: their category, when they move to another shard or become
      preferred, or their distance. */
  datatype Step = Happens(ev: Event) | Reclassified(v: View)

  ghost predicate PossibleSteps(v: View, s: set<PeerId>, steps: seq<Step>)
    decreases |steps|
  {
    steps == [] ||
    match steps[0]
    case Happens(ev) => Possible(v, s, ev) && PossibleSteps(v, Next(s, ev), steps[1..])
    case Reclassified(w) => w.limits == v.limits && PossibleSteps(w, s, steps[1..])
  }

  function AfterSteps(v: View, s: set<PeerId>, steps: seq<Step>): (View, set<PeerId>)
    decreases |steps|
  {
    if steps == [] then (v, s)
    else
      match steps[0]
      case Happens(ev) => AfterSteps(v, Next(s, ev), steps[1..])
      case Reclassified(w) => AfterSteps(w, s, steps[1..])
  }

  /** Some peer has connected since the last reclassification, or there was none and the run began
      within the limits. */
  predicate Settled(atStart: bool, steps: seq<Step>)
    decreases |steps|
  {
    if steps == [] then atStart
    else
      match steps[0]
      case Happens(Connected(_, _)) => Settled(true, steps[1..])
      case Happens(Disconnected(_)) => Settled(atStart, steps[1..])
      case Reclassified(_) => Settled(false, steps[1..])
  }

  /** From any connected set, the first connection after the last reclassification restores the
      limits, and they hold until the next one. */
  lemma {:induction false} NextConnectionSettles(v: View, s: set<PeerId>, steps: seq<Step>, atStart: bool)
    requires PossibleSteps(v, s, steps) && (atStart ==> WithinLimits(v, s)) && Settled(atStart, steps)
    ensures var (w, t) := AfterSteps(v, s, steps);
            && WithinLimits(w, t)
            && |Counted(w, t)| <= v.limits.Total()
            && forall e :: Evicts(w, t, e) ==> e == {}
    decreases |steps|
  {
    hide WithinLimits, Counted, Evicts;
    if steps == [] {
      CountedBound(v, s);
      forall e | Evicts(v, s, e)
        ensures e == {}
      {
        EmptyEvictionIff(v, s, e);
      }
    } else {
      match steps[0]
      case Happens(Connected(p, evicted)) =>
        EvictionSettles(v, s + {p}, evicted);
        NextConnectionSettles(v, s + {p} - evicted, steps[1..], true);
      case Happens(Disconnected(p)) =>
        if atStart {
          WithinLimitsSubset(v, s - {p}, s);
        }
        NextConnectionSettles(v, s - {p}, steps[1..], atStart);
      case Reclassified(w) =>
        NextConnectionSettles(w, s, steps[1..], false);
    }
  }
}
