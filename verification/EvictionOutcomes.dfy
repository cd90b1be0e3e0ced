/** The other direction of ListsSharder.EvictionListEvicts: whatever the relation on sets allows, a
    sort can bring about. So the sets that ComputeEvictionList can propose for a list of peers are
    exactly the evictions of these peers, and what the ties leave open is really open. */
module EvictionOutcomes {
  import opened Wrappers
  import opened Eviction
  import opened Sorting
  import opened ListsSharder
  import Admission

  // ---------- sorting a list ----------

  lemma Prepend(x: PeerDistance, t: seq<PeerDistance>)
    requires IsSorted(t) && forall y :: y in t ==> x.distance <= y.distance
    ensures IsSorted([x] + t)
  {
  }

  lemma {:induction false} InsertInto(t: seq<PeerDistance>, x: PeerDistance) returns (r: seq<PeerDistance>)
    requires IsSorted(t)
    ensures IsSorted(r) && multiset(r) == multiset(t) + multiset{x}
    decreases |t|
  {
    if t == [] || x.distance <= t[0].distance {
      r := [x] + t;
      Prepend(x, t);
    } else {
      var rest := InsertInto(t[1..], x);
      r := [t[0]] + rest;
      assert t == [t[0]] + t[1..];
      forall y | y in rest
        ensures t[0].distance <= y.distance
      {
        assert y in multiset(rest);
        assert y == x || y in t[1..];
      }
      Prepend(t[0], rest);
    }
  }

  lemma {:induction false} Sortable(s: seq<PeerDistance>) returns (t: seq<PeerDistance>)
    ensures SortedVersion(t, s)
    decreases |s|
  {
    if s == [] {
      t := [];
    } else {
      var rest := Sortable(s[1..]);
      t := InsertInto(rest, s[0]);
      assert s == [s[0]] + s[1..];
    }
  }

  lemma SortedMembers(t: seq<PeerDistance>, s: seq<PeerDistance>)
    requires SortedVersion(t, s)
    ensures |t| == |s| && forall x :: x in t <==> x in s
  {
    assert |multiset(t)| == |multiset(s)|;
    forall x
      ensures x in t <==> x in s
    {
      assert x in multiset(t) <==> x in multiset(s);
    }
  }

  lemma SortedJoin(a: seq<PeerDistance>, b: seq<PeerDistance>)
    requires IsSorted(a) && IsSorted(b)
    requires forall x, y :: x in a && y in b ==> x.distance <= y.distance
    ensures IsSorted(a + b)
  {
    forall i, j | 0 <= i < j < |a + b|
      ensures (a + b)[i].distance <= (a + b)[j].distance
    {
      if i < |a| <= j {
        assert a[i] in a && b[j - |a|] in b;
      }
    }
  }

  // ---------- one category ----------

  /** The entries of the peers in e, or of the others. */
  function Part(list: seq<PeerDistance>, e: set<PeerId>, inside: bool): seq<PeerDistance> {
    if list == [] then []
    else (if list[0].id in e <==> inside then [list[0]] else []) + Part(list[1..], e, inside)
  }

  lemma {:induction false} PartFilters(list: seq<PeerDistance>, e: set<PeerId>, inside: bool)
    ensures forall x :: x in Part(list, e, inside) <==> x in list && (x.id in e <==> inside)
    decreases |list|
  {
    if list != [] {
      PartFilters(list[1..], e, inside);
      assert list == [list[0]] + list[1..];
    }
  }

  lemma {:induction false} PartsJoin(list: seq<PeerDistance>, e: set<PeerId>)
    ensures multiset(Part(list, e, false)) + multiset(Part(list, e, true)) == multiset(list)
    decreases |list|
  {
    if list != [] {
      PartsJoin(list[1..], e);
      assert list == [list[0]] + list[1..];
    }
  }

  lemma DistinctCons(x: PeerDistance, rest: seq<PeerDistance>)
    ensures Distinct(Ids([x] + rest)) <==> Distinct(Ids(rest)) && x.id !in Ids(rest)
  {
    assert Ids([x] + rest) == [x.id] + Ids(rest);
    assert forall i :: 0 <= i < |rest| ==> ([x.id] + Ids(rest))[i + 1] == Ids(rest)[i];
    forall k | 0 <= k < |rest| && Distinct(Ids([x] + rest))
      ensures Ids(rest)[k] != x.id
    {
      assert ([x.id] + Ids(rest))[0] != ([x.id] + Ids(rest))[k + 1];
    }
  }

  lemma {:induction false} PartDistinct(list: seq<PeerDistance>, e: set<PeerId>, inside: bool)
    requires Distinct(Ids(list))
    ensures Distinct(Ids(Part(list, e, inside)))
    decreases |list|
  {
    hide Distinct, Ids;
    if list != [] {
      var rest := Part(list[1..], e, inside);
      assert list == [list[0]] + list[1..];
      DistinctCons(list[0], list[1..]);
      PartDistinct(list[1..], e, inside);
      PartFilters(list[1..], e, inside);
      SameIds(rest, list[1..], list[0].id);
      DistinctCons(list[0], rest);
      assert [] + rest == rest;
    } else {
      assert Part(list, e, inside) == list;
    }
  }

  lemma PartIds(list: seq<PeerDistance>, e: set<PeerId>)
    ensures SetOf(Ids(Part(list, e, true))) == SetOf(Ids(list)) * e
  {
    var go := Part(list, e, true);
    PartFilters(list, e, true);
    forall id
      ensures id in Ids(go) <==> id in Ids(list) && id in e
    {
      if id in Ids(go) {
        var i := IndexIn(Ids(go), id);
        assert go[i] in list;
        var k := IndexIn(list, go[i]);
        assert Ids(list)[k] == id;
      }
      if id in Ids(list) && id in e {
        var k := IndexIn(Ids(list), id);
        assert list[k] in go;
        var i := IndexIn(go, list[k]);
        assert Ids(go)[i] == id;
      }
    }
  }

  lemma PartSizes(list: seq<PeerDistance>, e: set<PeerId>)
    requires Distinct(Ids(list))
    ensures |Part(list, e, true)| == |SetOf(Ids(list)) * e|
    ensures |Part(list, e, false)| + |Part(list, e, true)| == |list|
  {
    var stay, go := Part(list, e, false), Part(list, e, true);
    PartIds(list, e);
    PartDistinct(list, e, true);
    DistinctSize(Ids(go));
    PartsJoin(list, e);
    assert |multiset(stay)| + |multiset(go)| == |multiset(list)|;
  }

  /** Sort those that stay, sort those that go, and join them: the list is sorted. */
  lemma SortParts(list: seq<PeerDistance>, e: set<PeerId>) returns (a: seq<PeerDistance>, b: seq<PeerDistance>)
    requires forall x, y :: x in list && y in list && x.id !in e && y.id in e ==> x.distance <= y.distance
    ensures SortedVersion(a, Part(list, e, false)) && SortedVersion(b, Part(list, e, true))
    ensures SortedVersion(a + b, list)
  {
    hide IsSorted;
    PartFilters(list, e, false);
    PartFilters(list, e, true);
    PartsJoin(list, e);
    a := Sortable(Part(list, e, false));
    b := Sortable(Part(list, e, true));
    SortedMembers(a, Part(list, e, false));
    SortedMembers(b, Part(list, e, true));
    SortedJoin(a, b);
  }

  /** A cut of a list can be its tail. */
  lemma CutIsTail(list: seq<PeerDistance>, e: set<PeerId>, keep: nat) returns (part: seq<PeerId>)
    requires Distinct(Ids(list)) && keep <= |list| && |SetOf(Ids(list)) * e| == |list| - keep
    requires forall x, y :: x in list && y in list && x.id !in e && y.id in e ==> x.distance <= y.distance
    ensures IsTail(list, keep, part) && SetOf(part) == SetOf(Ids(list)) * e
  {
    hide SortedVersion, Part, Distinct, Ids, SetOf;
    PartSizes(list, e);
    var a, b := SortParts(list, e);
    SortedMembers(a, Part(list, e, false));
    PartIds(list, e);
    SameSet(b, list, e);
    part := Ids(b);
    JoinTail(list, a, b, keep);
  }

  lemma SameSet(b: seq<PeerDistance>, list: seq<PeerDistance>, e: set<PeerId>)
    requires Distinct(Ids(list)) && SortedVersion(b, Part(list, e, true))
    ensures SetOf(Ids(b)) == SetOf(Ids(list)) * e && |b| == |Part(list, e, true)|
  {
    PartIds(list, e);
    PartDistinct(list, e, true);
    PermutationFacts(b, Part(list, e, true));
  }

  lemma JoinTail(list: seq<PeerDistance>, a: seq<PeerDistance>, b: seq<PeerDistance>, keep: nat)
    requires SortedVersion(a + b, list) && |a| == keep && |b| == |list| - keep
    ensures IsTail(list, keep, Ids(b))
  {
    hide SortedVersion;
    assert (a + b)[keep..] == b;
  }

  /** What an eviction takes from one category can be the tail of that category. */
  lemma CategoryPart(v: View, peers: seq<PeerId>, e: set<PeerId>, c: Category) returns (part: seq<PeerId>)
    requires Distinct(peers) && Evicts(v, SetOf(peers), e)
    ensures IsTail(Split(v, peers, c), KeepOf(v, peers, c), part) && SetOf(part) == InClass(v, e, c)
  {
    hide Kept, KeepOf, IsTail, Split;
    var s, list := SetOf(peers), Split(v, peers, c);
    SplitFacts(v, peers, c);
    KeepAgrees(v, peers, c);
    KeptAtMost(v, s, c);
    assert SetOf(Ids(list)) * e == InClass(v, e, c);
    assert Count(v, e, c) == Count(v, s, c) - Kept(v, s, c);
    forall x, y | x in list && y in list && x.id !in e && y.id in e
      ensures x.distance <= y.distance
    {
      InSplit(list, x);
      InSplit(list, y);
    }
    part := CutIsTail(list, e, KeepOf(v, peers, c));
  }

  lemma InSplit(list: seq<PeerDistance>, x: PeerDistance)
    requires x in list
    ensures x.id in SetOf(Ids(list))
  {
    var k := IndexIn(list, x);
    assert Ids(list)[k] == x.id;
  }

  // ---------- the whole list ----------

  lemma SevenParts(v: View, e: set<PeerId>, p0: seq<PeerId>, p1: seq<PeerId>, p2: seq<PeerId>, p3: seq<PeerId>,
                   p4: seq<PeerId>, p5: seq<PeerId>, p6: seq<PeerId>)
    requires SetOf(p0) == InClass(v, e, IntraVal) && SetOf(p1) == InClass(v, e, CrossVal)
    requires SetOf(p2) == InClass(v, e, IntraObs) && SetOf(p3) == InClass(v, e, CrossObs)
    requires SetOf(p4) == InClass(v, e, Seeder) && SetOf(p5) == InClass(v, e, FullHistory)
    requires SetOf(p6) == InClass(v, e, Unknown)
    requires forall p :: p in e ==> v.classOf(p) != None
    ensures SetOf(p0 + p1 + p2 + p3 + p4 + p5 + p6) == e
  {
    assert SetOf(p0 + p1 + p2 + p3 + p4 + p5 + p6) ==
           SetOf(p0) + SetOf(p1) + SetOf(p2) + SetOf(p3) + SetOf(p4) + SetOf(p5) + SetOf(p6);
    forall p | p in e
      ensures p in SetOf(p0) + SetOf(p1) + SetOf(p2) + SetOf(p3) + SetOf(p4) + SetOf(p5) + SetOf(p6)
    {
      match v.classOf(p).value
      case IntraVal =>
      case CrossVal =>
      case IntraObs =>
      case CrossObs =>
      case Seeder =>
      case FullHistory =>
      case Unknown =>
    }
  }

  lemma EveryEvictionListed(v: View, peers: seq<PeerId>, e: set<PeerId>) returns (evicted: seq<PeerId>)
    requires Distinct(peers) && Evicts(v, SetOf(peers), e)
    ensures IsEvictionList(v, peers, evicted) && SetOf(evicted) == e
  {
    hide IsTail, Split, KeepOf, IsEvictionList, Kept;
    var p0 := CategoryPart(v, peers, e, IntraVal);
    var p1 := CategoryPart(v, peers, e, CrossVal);
    var p2 := CategoryPart(v, peers, e, IntraObs);
    var p3 := CategoryPart(v, peers, e, CrossObs);
    var p4 := CategoryPart(v, peers, e, Seeder);
    var p5 := CategoryPart(v, peers, e, FullHistory);
    var p6 := CategoryPart(v, peers, e, Unknown);
    SevenTails(v, peers, p0, p1, p2, p3, p4, p5, p6);
    SevenParts(v, e, p0, p1, p2, p3, p4, p5, p6);
    evicted := p0 + p1 + p2 + p3 + p4 + p5 + p6;
  }

  /** The sets proposed for a list of distinct peers are exactly the evictions of these peers. */
  lemma ListsAreEvictions(v: View, peers: seq<PeerId>, e: set<PeerId>)
    requires Distinct(peers)
    ensures (exists evicted :: IsEvictionList(v, peers, evicted) && SetOf(evicted) == e) <==> Evicts(v, SetOf(peers), e)
  {
    hide IsEvictionList, Evicts;
    forall evicted | IsEvictionList(v, peers, evicted) && SetOf(evicted) == e
      ensures Evicts(v, SetOf(peers), e)
    {
      EvictionListEvicts(v, peers, evicted);
    }
    if Evicts(v, SetOf(peers), e) {
      var evicted := EveryEvictionListed(v, peers, e);
    }
  }

  /** All orderings of the peers and all outcomes of the sort agree on p exactly when p is decided. */
  lemma OrderMattersIff(v: View, peers: seq<PeerId>, p: PeerId)
    requires Distinct(peers) && p in peers
    ensures (forall reordered, evicted, again ::
               && Distinct(reordered) && SetOf(reordered) == SetOf(peers)
               && IsEvictionList(v, peers, evicted) && IsEvictionList(v, reordered, again)
               ==> (p in evicted <==> p in again))
            <==> Admission.Decided(v, SetOf(peers), p)
  {
    hide IsEvictionList, Evicts, Admission.Decided, Distinct;
    Admission.AgreedIff(v, SetOf(peers), p);
    if Admission.Decided(v, SetOf(peers), p) {
      forall reordered, evicted, again | Distinct(reordered) && SetOf(reordered) == SetOf(peers)
          && IsEvictionList(v, peers, evicted) && IsEvictionList(v, reordered, again)
        ensures p in evicted <==> p in again
      {
        EvictionListEvicts(v, peers, evicted);
        EvictionListEvicts(v, reordered, again);
        assert p in evicted <==> p in SetOf(evicted);
        assert p in again <==> p in SetOf(again);
      }
    } else {
      var e, f :| Evicts(v, SetOf(peers), e) && Evicts(v, SetOf(peers), f) && p in e && p !in f;
      var evicted := EveryEvictionListed(v, peers, e);
      var again := EveryEvictionListed(v, peers, f);
      assert p in SetOf(evicted) && p !in SetOf(again);
    }
  }

  // ---------- the order of the list ----------

  /** The place of a category in the list. */
  function Rank(c: Category): nat {
    match c
    case IntraVal => 0
    case CrossVal => 1
    case IntraObs => 2
    case CrossObs => 3
    case Seeder => 4
    case FullHistory => 5
    case Unknown => 6
  }

  /** p may stand before q. */
  predicate MayPrecede(v: View, p: PeerId, q: PeerId) {
    && v.classOf(p) != None && v.classOf(q) != None
    && (Rank(v.classOf(p).value) < Rank(v.classOf(q).value)
        || (v.classOf(p) == v.classOf(q) && v.distance(p) <= v.distance(q)))
  }

  ghost predicate InOrder(v: View, s: seq<PeerId>) {
    forall i, j :: 0 <= i < j < |s| ==> MayPrecede(v, s[i], s[j])
  }

  lemma {:induction false} SplitMembers(v: View, peers: seq<PeerId>, c: Category)
    ensures forall pd :: pd in Split(v, peers, c) ==> v.classOf(pd.id) == Some(c) && pd.distance == v.distance(pd.id)
    decreases |peers|
  {
    if peers != [] {
      SplitMembers(v, peers[1..], c);
    }
  }

  lemma TailInOrder(v: View, t: seq<PeerDistance>, keep: nat, c: Category)
    requires IsSorted(t) && keep <= |t|
    requires forall pd :: pd in t ==> v.classOf(pd.id) == Some(c) && pd.distance == v.distance(pd.id)
    ensures InOrder(v, Ids(t[keep..])) && forall p :: p in Ids(t[keep..]) ==> v.classOf(p) == Some(c)
  {
    hide Rank;
    var part := Ids(t[keep..]);
    forall i | 0 <= i < |part|
      ensures part[i] == t[keep + i].id && v.classOf(part[i]) == Some(c) && v.distance(part[i]) == t[keep + i].distance
    {
      assert t[keep + i] in t;
    }
  }

  lemma PartInOrder(v: View, peers: seq<PeerId>, c: Category, part: seq<PeerId>)
    requires IsTail(Split(v, peers, c), KeepOf(v, peers, c), part)
    ensures InOrder(v, part) && forall p :: p in part ==> v.classOf(p) == Some(c)
  {
    hide KeepOf, Split, Rank, IsSorted, Ids, MayPrecede;
    var list, keep := Split(v, peers, c), KeepOf(v, peers, c);
    if keep < |list| {
      var t: seq<PeerDistance> :| SortedVersion(t, list) && keep <= |t| && part == Ids(t[keep..]);
      SplitMembers(v, peers, c);
      SortedMembers(t, list);
      TailInOrder(v, t, keep, c);
    }
  }

  lemma JoinInOrder(v: View, a: seq<PeerId>, ranks: nat, b: seq<PeerId>, c: Category)
    requires InOrder(v, a) && InOrder(v, b) && Rank(c) == ranks
    requires forall p :: p in a ==> v.classOf(p) != None && Rank(v.classOf(p).value) < ranks
    requires forall p :: p in b ==> v.classOf(p) == Some(c)
    ensures InOrder(v, a + b)
    ensures forall p :: p in a + b ==> v.classOf(p) != None && Rank(v.classOf(p).value) < ranks + 1
  {
    forall i, j | 0 <= i < j < |a + b|
      ensures MayPrecede(v, (a + b)[i], (a + b)[j])
    {
      if i < |a| <= j {
        assert a[i] in a && b[j - |a|] in b;
      }
    }
  }

  /** The list goes from category to category in a fixed order, and in each from near to far. */
  lemma NearToFar(v: View, peers: seq<PeerId>, evicted: seq<PeerId>)
    requires IsEvictionList(v, peers, evicted)
    ensures forall i, j :: 0 <= i < j < |evicted| ==> MayPrecede(v, evicted[i], evicted[j])
  {
    hide IsTail, KeepOf, Split, MayPrecede;
    var parts :| AreTails(v, peers, parts)
      && evicted == parts[0] + parts[1] + parts[2] + parts[3] + parts[4] + parts[5] + parts[6];
    forall i | 0 <= i < 7
      ensures InOrder(v, parts[i]) && forall p :: p in parts[i] ==> v.classOf(p) == Some(LISTS[i])
    {
      PartInOrder(v, peers, LISTS[i], parts[i]);
    }
    hide InOrder, AreTails;
    var p0, p1, p2, p3, p4, p5, p6 := parts[0], parts[1], parts[2], parts[3], parts[4], parts[5], parts[6];
    JoinInOrder(v, p0, 1, p1, CrossVal);
    JoinInOrder(v, p0 + p1, 2, p2, IntraObs);
    JoinInOrder(v, p0 + p1 + p2, 3, p3, CrossObs);
    JoinInOrder(v, p0 + p1 + p2 + p3, 4, p4, Seeder);
    JoinInOrder(v, p0 + p1 + p2 + p3 + p4, 5, p5, FullHistory);
    JoinInOrder(v, p0 + p1 + p2 + p3 + p4 + p5, 6, p6, Unknown);
    assert InOrder(v, evicted);
    OrderOf(v, evicted);
  }

  lemma OrderOf(v: View, s: seq<PeerId>)
    requires InOrder(v, s)
    ensures forall i, j :: 0 <= i < j < |s| ==> MayPrecede(v, s[i], s[j])
  {
    hide MayPrecede;
  }
}
