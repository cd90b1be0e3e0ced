/** libp2p/networksharding/listsSharder.go: the sharder that classifies the connected peers, grants
    the quotas, sorts each category by distance and proposes its tail for eviction. */
module ListsSharder {
  import opened Wrappers
  import opened Eviction
  import opened Sorting
  import Admission
  import Distances
  import PreferredPeers
  import Quotas

  // ---------- configuration ----------

  const MIN_CONNECTED_PEERS := 5
  const MIN_VALIDATORS := 1
  const MIN_OBSERVERS := 1
  const MIN_UNKNOWN_PEERS := 1

  /** The numbers of config.ShardingConfig, which are uint32, and the mode of the node. */
  datatype Config = Config(
    targetPeerCount: nat, maxIntraShardValidators: nat, maxCrossShardValidators: nat, maxIntraShardObservers: nat,
    maxCrossShardObservers: nat, maxSeeders: nat, maxFullHistoryObservers: nat, fullArchive: bool)

  datatype PeersConnections = PeersConnections(maxPeerCount: nat, limits: Limits)

  /** processNumConnections; the only error is a sum of limits that leaves no place for unknown peers. */
  function ProcessNumConnections(c: Config): Result<PeersConnections, string> {
    var fullHistory := if c.fullArchive then c.maxFullHistoryObservers else 0;
    var maxPeerCount := c.targetPeerCount + fullHistory;
    var provided := c.maxIntraShardValidators + c.maxCrossShardValidators + c.maxIntraShardObservers
                    + c.maxCrossShardObservers + c.maxSeeders + fullHistory;
    if provided + MIN_UNKNOWN_PEERS > maxPeerCount then Err("invalid value")
    else
      Ok(PeersConnections(maxPeerCount,
        Limits(c.maxIntraShardValidators, c.maxCrossShardValidators, c.maxIntraShardObservers,
               c.maxCrossShardObservers, maxPeerCount - provided, c.maxSeeders, fullHistory)))
  }

  /** Each limit is the configured one, those of full history observers only in full archive mode, and
      unknown peers get what is left of the allowed connections. A configuration is refused exactly when
      that is nothing. */
  lemma LimitsFillTarget(c: Config)
    ensures var fullHistory := if c.fullArchive then c.maxFullHistoryObservers else 0;
            var left := c.targetPeerCount + fullHistory
                        - (c.maxIntraShardValidators + c.maxCrossShardValidators + c.maxIntraShardObservers
                           + c.maxCrossShardObservers + c.maxSeeders + fullHistory);
            match ProcessNumConnections(c)
            case Ok(pc) =>
              && left >= 1
              && pc.maxPeerCount == c.targetPeerCount + fullHistory == pc.limits.Total()
              && pc.limits.intraVal == c.maxIntraShardValidators && pc.limits.crossVal == c.maxCrossShardValidators
              && pc.limits.intraObs == c.maxIntraShardObservers && pc.limits.crossObs == c.maxCrossShardObservers
              && pc.limits.seeders == c.maxSeeders && pc.limits.fullHistory == fullHistory
              && pc.limits.unknown == left
            case Err(_) => left < 1
  {
  }

  // ---------- classification ----------

  datatype PeerType = UnknownPeer | ValidatorPeer | ObserverPeer | OtherPeer

  /** core.P2PPeerInfo, as far as it is used here */
  datatype PeerShardInfo = PeerShardInfo(peerType: PeerType, isFullHistory: bool, shardID: nat)

  /** What the classification of a peer depends on. */
  datatype Facts = Facts(
    seeders: seq<string>,
    pretty: PeerId -> string,
    infoOf: PeerId -> PeerShardInfo,
    self: PeerId,
    preferred: set<PeerId>,
    maxFullHistory: nat)

  /** IsSeeder */
  predicate Seeds(seeders: seq<string>, name: string) {
    exists i :: 0 <= i < |seeders| && PreferredPeers.Contains(seeders[i], name)
  }

  /** The list splitPeerIds puts p on. The seeder test comes before the preferred test, so a
      preferred seeder is not exempt. */
  function Classify(f: Facts, p: PeerId): Option<Category> {
    var info := f.infoOf(p);
    if Seeds(f.seeders, f.pretty(p)) then Some(Seeder)
    else if p in f.preferred then None
    else if info.peerType == UnknownPeer then Some(Unknown)
    else if info.shardID != f.infoOf(f.self).shardID then
      if info.peerType == ValidatorPeer then Some(CrossVal)
      else if info.peerType == ObserverPeer then Some(CrossObs)
      else None
    else if info.peerType == ValidatorPeer then Some(IntraVal)
    else if info.peerType == ObserverPeer then
      if info.isFullHistory && f.maxFullHistory > 0 then Some(FullHistory) else Some(IntraObs)
    else None
  }

  /** kbucket.ConvertPeerID: the SHA-256 hash of a peer id. */
  type Hash = h: seq<Distances.Byte> | |h| == 32 witness seq(32, _ => 0)

  /** The distance of p is the number of bits in which its hash differs from that of this node. */
  function ViewOf(f: Facts, convert: PeerId -> Hash, limits: Limits): View {
    View(p => Classify(f, p), p => Distances.CountingBits(convert(p), convert(f.self)), limits)
  }

  /** There are 257 distances, so a category of more peers has a tie. */
  lemma ManyPeersTie(f: Facts, convert: PeerId -> Hash, limits: Limits, s: set<PeerId>, c: Category)
    ensures var v := ViewOf(f, convert, limits);
            && (forall p :: v.distance(p) <= 256)
            && (Count(v, s, c) > 257 ==> !TieFree(v, s))
  {
    var v := ViewOf(f, convert, limits);
    forall p
      ensures v.distance(p) <= 256
    {
      Distances.CountingWithinLog2(convert(p), convert(f.self));
    }
    if TieFree(v, s) {
      Admission.TieFreeCount(v, s, c, 256);
    }
  }

  /** Only peers of a preferred address that are no seeders, and peers of no known type, are not
      counted. */
  lemma ExemptExactly(f: Facts, p: PeerId)
    ensures Classify(f, p) == None <==>
            !Seeds(f.seeders, f.pretty(p)) && (p in f.preferred || f.infoOf(p).peerType == OtherPeer)
  {
  }

  /** A seeder is a peer whose printed id occurs in one of the seeder addresses. */
  lemma SeedsIff(seeders: seq<string>, name: string)
    ensures Seeds(seeders, name) <==>
            exists k, before, after :: 0 <= k < |seeders| && seeders[k] == before + name + after
  {
    if Seeds(seeders, name) {
      var k :| 0 <= k < |seeders| && PreferredPeers.Contains(seeders[k], name);
      PreferredPeers.ContainsIff(seeders[k], name);
    }
    forall k, before, after | 0 <= k < |seeders| && seeders[k] == before + name + after
      ensures Seeds(seeders, name)
    {
      PreferredPeers.ContainsIff(seeders[k], name);
    }
  }

  /** Which peers each category holds: seeders first, then preferred peers apart, then by type and shard;
      an observer of this shard is a full history one only where places for these exist. */
  lemma ClassifiedExactly(f: Facts, p: PeerId)
    ensures var info, own := f.infoOf(p), f.infoOf(f.self).shardID;
            var others := !Seeds(f.seeders, f.pretty(p)) && p !in f.preferred;
            var observer := others && info.peerType == ObserverPeer && info.shardID == own;
            && (Classify(f, p) == Some(Seeder) <==> Seeds(f.seeders, f.pretty(p)))
            && (Classify(f, p) == Some(Unknown) <==> others && info.peerType == UnknownPeer)
            && (Classify(f, p) == Some(IntraVal) <==> others && info.peerType == ValidatorPeer && info.shardID == own)
            && (Classify(f, p) == Some(CrossVal) <==> others && info.peerType == ValidatorPeer && info.shardID != own)
            && (Classify(f, p) == Some(CrossObs) <==> others && info.peerType == ObserverPeer && info.shardID != own)
            && (Classify(f, p) == Some(FullHistory) <==> observer && info.isFullHistory && f.maxFullHistory > 0)
            && (Classify(f, p) == Some(IntraObs) <==> observer && !(info.isFullHistory && f.maxFullHistory > 0))
            && (Classify(f, p) == None <==>
                  !Seeds(f.seeders, f.pretty(p)) && (p in f.preferred || info.peerType == OtherPeer))
  {
  }

  /** The peers of one category, in the order of the list. */
  function Split(v: View, peers: seq<PeerId>, c: Category): seq<PeerDistance> {
    if peers == [] then []
    else if v.classOf(peers[0]) == Some(c) then
      [PeerDistance(peers[0], v.distance(peers[0]))] + Split(v, peers[1..], c)
    else Split(v, peers[1..], c)
  }

  lemma {:induction false} SplitAppend(v: View, peers: seq<PeerId>, p: PeerId, c: Category)
    ensures Split(v, peers + [p], c) ==
            Split(v, peers, c) + if v.classOf(p) == Some(c) then [PeerDistance(p, v.distance(p))] else []
    decreases |peers|
  {
    if peers == [] {
      assert (peers + [p])[1..] == [];
    } else {
      assert (peers + [p])[1..] == peers[1..] + [p];
      SplitAppend(v, peers[1..], p, c);
    }
  }

  /** The places of the list up to i that hold peers of category c. */
  function Places(v: View, peers: seq<PeerId>, c: Category, i: nat): set<nat>
    requires i <= |peers|
  {
    set k: nat | k < i && v.classOf(peers[k]) == Some(c)
  }

  lemma {:induction false} SplitPrefix(v: View, peers: seq<PeerId>, c: Category, i: nat)
    requires i <= |peers|
    ensures |Split(v, peers[..i], c)| == |Places(v, peers, c, i)|
    decreases i
  {
    if i > 0 {
      SplitPrefix(v, peers, c, i - 1);
      assert peers[..i] == peers[..i - 1] + [peers[i - 1]];
      SplitAppend(v, peers[..i - 1], peers[i - 1], c);
      MorePlaces(v, peers, c, i);
    }
  }

  lemma MorePlaces(v: View, peers: seq<PeerId>, c: Category, i: nat)
    requires 0 < i <= |peers|
    ensures |Places(v, peers, c, i)| == |Places(v, peers, c, i - 1)| + if v.classOf(peers[i - 1]) == Some(c) then 1 else 0
  {
    assert Places(v, peers, c, i) == Places(v, peers, c, i - 1) + if v.classOf(peers[i - 1]) == Some(c) then {i - 1} else {};
  }

  lemma {:induction false} SplitConcat(v: View, a: seq<PeerId>, b: seq<PeerId>, c: Category)
    ensures Split(v, a + b, c) == Split(v, a, c) + Split(v, b, c)
    decreases |a|
  {
    if a == [] {
      assert a + b == b;
    } else {
      assert (a + b)[1..] == a[1..] + b;
      SplitConcat(v, a[1..], b, c);
    }
  }

  /** The list of a category has an entry for each of its peers, with its distance, behind as many as
      come before it, and no others. */
  lemma SplitKeepsOrder(v: View, peers: seq<PeerId>, c: Category, i: nat)
    requires i < |peers| && v.classOf(peers[i]) == Some(c)
    ensures |Split(v, peers, c)| == |Places(v, peers, c, |peers|)|
    ensures |Places(v, peers, c, i)| < |Split(v, peers, c)|
    ensures Split(v, peers, c)[|Places(v, peers, c, i)|] == PeerDistance(peers[i], v.distance(peers[i]))
  {
    SplitPrefix(v, peers, c, i);
    SplitPrefix(v, peers, c, |peers|);
    assert peers[..|peers|] == peers && peers == peers[..i] + peers[i..];
    SplitConcat(v, peers[..i], peers[i..], c);
    assert Split(v, peers[i..], c) == [PeerDistance(peers[i], v.distance(peers[i]))] + Split(v, peers[i..][1..], c);
  }

  // ---------- the eviction list ----------

  function Ids(s: seq<PeerDistance>): seq<PeerId> {
    seq(|s|, i requires 0 <= i < |s| => s[i].id)
  }

  /** What evict may return: the tail, from numKeep on, of some sorted version of the list. */
  ghost predicate IsTail(distances: seq<PeerDistance>, numKeep: nat, evicted: seq<PeerId>) {
    if numKeep >= |distances| then evicted == []
    else exists t :: SortedVersion(t, distances) && numKeep <= |t| && evicted == Ids(t[numKeep..])
  }

  /** The order in which the tails are appended. */
  const LISTS: seq<Category> := [IntraVal, CrossVal, IntraObs, CrossObs, Seeder, FullHistory, Unknown]

  function KeepOf(v: View, peers: seq<PeerId>, c: Category): nat {
    var e := [|Split(v, peers, IntraVal)|, |Split(v, peers, CrossVal)|, |Split(v, peers, IntraObs)|,
              |Split(v, peers, CrossObs)|, |Split(v, peers, Unknown)|];
    if c == Seeder then Least(|Split(v, peers, c)|, v.limits.seeders)
    else if c == FullHistory then Least(|Split(v, peers, c)|, v.limits.fullHistory)
    else Quotas.Keep(e, ChainQuotas(v.limits), 0)[Position(c)]
  }

  ghost predicate AreTails(v: View, peers: seq<PeerId>, parts: seq<seq<PeerId>>) {
    |parts| == 7 && forall i :: 0 <= i < 7 ==> IsTail(Split(v, peers, LISTS[i]), KeepOf(v, peers, LISTS[i]), parts[i])
  }

  /** evicted may be the result of ComputeEvictionList(peers). */
  ghost predicate IsEvictionList(v: View, peers: seq<PeerId>, evicted: seq<PeerId>) {
    exists parts :: AreTails(v, peers, parts)
      && evicted == parts[0] + parts[1] + parts[2] + parts[3] + parts[4] + parts[5] + parts[6]
  }

  // ---------- from lists to sets ----------

  function SetOf<T>(s: seq<T>): set<T> {
    set x | x in s
  }

  lemma {:induction false} DistinctSize<T>(s: seq<T>)
    requires Distinct(s)
    ensures |SetOf(s)| == |s|
    decreases |s|
  {
    if s != [] {
      DistinctSize(s[1..]);
      assert SetOf(s) == {s[0]} + SetOf(s[1..]);
    }
  }

  lemma {:induction false} SplitFacts(v: View, peers: seq<PeerId>, c: Category)
    requires Distinct(peers)
    ensures Distinct(Ids(Split(v, peers, c)))
    ensures SetOf(Ids(Split(v, peers, c))) == InClass(v, SetOf(peers), c)
    ensures forall pd :: pd in Split(v, peers, c) ==> pd.distance == v.distance(pd.id) && pd.id in peers
    decreases |peers|
  {
    if peers != [] {
      var rest := Split(v, peers[1..], c);
      SplitFacts(v, peers[1..], c);
      assert SetOf(peers) == {peers[0]} + SetOf(peers[1..]);
      assert peers[0] !in SetOf(peers[1..]);
      if v.classOf(peers[0]) == Some(c) {
        assert Ids(Split(v, peers, c)) == [peers[0]] + Ids(rest);
        assert SetOf([peers[0]] + Ids(rest)) == {peers[0]} + SetOf(Ids(rest));
      }
    }
  }

  lemma OccursOnce<T>(s: seq<T>, x: T, i: nat, j: nat)
    requires i < j < |s| && s[i] == x && s[j] == x
    ensures multiset(s)[x] >= 2
  {
    assert s == s[..i] + [x] + s[i + 1..j] + [x] + s[j + 1..];
  }

  lemma {:induction false} DistinctOnce<T>(s: seq<T>, x: T)
    requires Distinct(s)
    ensures multiset(s)[x] <= 1
    decreases |s|
  {
    if s != [] {
      DistinctOnce(s[1..], x);
      assert s == [s[0]] + s[1..];
      if s[0] == x {
        assert x !in s[1..];
      }
    }
  }

  lemma IndexIn<T>(s: seq<T>, x: T) returns (k: nat)
    requires x in s
    ensures k < |s| && s[k] == x
  {
    k :| 0 <= k < |s| && s[k] == x;
  }

  /** A permutation of a list of distinct peers lists the same peers, and distinct ones. */
  lemma PermutationFacts(t: seq<PeerDistance>, s: seq<PeerDistance>)
    requires multiset(t) == multiset(s) && Distinct(Ids(s))
    ensures |t| == |s| && Distinct(Ids(t)) && SetOf(Ids(t)) == SetOf(Ids(s))
    ensures forall x :: x in t <==> x in s
  {
    assert |multiset(t)| == |multiset(s)|;
    forall x
      ensures x in t <==> x in s
    {
      assert x in multiset(t) <==> x in multiset(s);
    }
    forall i, j | 0 <= i < j < |t|
      ensures Ids(t)[i] != Ids(t)[j]
    {
      assert t[i] in s && t[j] in s;
      if t[i].id == t[j].id {
        var k := IndexIn(s, t[i]);
        var l := IndexIn(s, t[j]);
        assert Ids(s)[k] == Ids(s)[l];
        OccursOnce(t, t[i], i, j);
        assert Distinct(s) by {
          forall m, n | 0 <= m < n < |s|
            ensures s[m] != s[n]
          {
            assert Ids(s)[m] != Ids(s)[n];
          }
        }
        DistinctOnce(s, t[i]);
      }
    }
    forall id
      ensures id in Ids(t) <==> id in Ids(s)
    {
      SameIds(t, s, id);
      SameIds(s, t, id);
    }
  }

  lemma SameIds(t: seq<PeerDistance>, s: seq<PeerDistance>, id: PeerId)
    requires forall x :: x in t ==> x in s
    ensures id in Ids(t) ==> id in Ids(s)
  {
    if id in Ids(t) {
      var i := IndexIn(Ids(t), id);
      assert Ids(t)[i] == id && t[i] in t;
      var k := IndexIn(s, t[i]);
      assert Ids(s)[k] == id;
    }
  }

  lemma TailOrder(t: seq<PeerDistance>, keep: nat, p: PeerDistance, q: PeerDistance)
    requires IsSorted(t) && Distinct(Ids(t)) && keep <= |t| && p in t && q in t
    requires p.id in Ids(t)[keep..] && q.id !in Ids(t)[keep..]
    ensures q.distance <= p.distance
  {
    var i := IndexIn(t, p);
    var j := IndexIn(t, q);
    var k := IndexIn(Ids(t)[keep..], p.id);
    assert Ids(t)[keep + k] == Ids(t)[i];
    assert forall m :: keep <= m < |t| ==> Ids(t)[m] == Ids(t)[keep..][m - keep];
    assert Ids(t)[j] == q.id;
  }

  /** The tail as a set: its size, and that nobody in it is nearer than somebody who stays. */
  lemma {:induction false} TailFacts(list: seq<PeerDistance>, keep: nat, evicted: seq<PeerId>)
    requires Distinct(Ids(list)) && IsTail(list, keep, evicted) && keep <= |list|
    ensures Distinct(evicted) && SetOf(evicted) <= SetOf(Ids(list)) && |SetOf(evicted)| == |list| - keep
    ensures forall p, q :: p in list && q in list && p.id in evicted && q.id !in evicted ==> q.distance <= p.distance
  {
    if keep < |list| {
      var t: seq<PeerDistance> :| SortedVersion(t, list) && keep <= |t| && evicted == Ids(t[keep..]);
      PermutationFacts(t, list);
      assert evicted == Ids(t)[keep..];
      DistinctSize(evicted);
      SuffixMembers(Ids(t), keep);
      forall p, q | p in list && q in list && p.id in evicted && q.id !in evicted
        ensures q.distance <= p.distance
      {
        TailOrder(t, keep, p, q);
      }
    } else {
      assert evicted == [];
      assert SetOf(evicted) == {};
    }
  }

  lemma SuffixMembers<T>(s: seq<T>, k: nat)
    requires k <= |s|
    ensures SetOf(s[k..]) <= SetOf(s)
  {
  }

  lemma KeepAgrees(v: View, peers: seq<PeerId>, c: Category)
    requires Distinct(peers)
    ensures KeepOf(v, peers, c) == Kept(v, SetOf(peers), c)
    ensures |Split(v, peers, c)| == Count(v, SetOf(peers), c)
  {
    forall d
      ensures |Split(v, peers, d)| == Count(v, SetOf(peers), d)
    {
      SplitFacts(v, peers, d);
      DistinctSize(Ids(Split(v, peers, d)));
    }
  }

  /** The tail of one category, among all peers. */
  lemma {:induction false} PartFacts(v: View, peers: seq<PeerId>, c: Category, part: seq<PeerId>)
    requires Distinct(peers) && IsTail(Split(v, peers, c), KeepOf(v, peers, c), part)
    ensures Distinct(part) && SetOf(part) <= InClass(v, SetOf(peers), c)
    ensures |SetOf(part)| == Count(v, SetOf(peers), c) - Kept(v, SetOf(peers), c)
    ensures forall p, q :: p in part && q in InClass(v, SetOf(peers), c) && q !in part ==> v.distance(q) <= v.distance(p)
  {
    var list := Split(v, peers, c);
    KeepAgrees(v, peers, c);
    KeptAtMost(v, SetOf(peers), c);
    SplitFacts(v, peers, c);
    TailFacts(list, KeepOf(v, peers, c), part);
    forall p, q | p in part && q in InClass(v, SetOf(peers), c) && q !in part
      ensures v.distance(q) <= v.distance(p)
    {
      assert p in SetOf(Ids(list)) && q in SetOf(Ids(list));
      var i :| 0 <= i < |Ids(list)| && Ids(list)[i] == p;
      var j :| 0 <= j < |Ids(list)| && Ids(list)[j] == q;
      assert list[i] in list && list[j] in list;
    }
  }

  function IndexOfList(c: Category): (i: nat)
    ensures i < 7 && LISTS[i] == c
  {
    match c
    case IntraVal => 0
    case CrossVal => 1
    case IntraObs => 2
    case CrossObs => 3
    case Seeder => 4
    case FullHistory => 5
    case Unknown => 6
  }

  /** On a list of distinct peers, the eviction list is an eviction of the set of them. */
  lemma {:induction false} EvictionListEvicts(v: View, peers: seq<PeerId>, evicted: seq<PeerId>)
    requires Distinct(peers) && IsEvictionList(v, peers, evicted)
    ensures Evicts(v, SetOf(peers), SetOf(evicted))
  {
    hide Kept, Split, KeepOf, IsTail;
    var parts :| AreTails(v, peers, parts)
      && evicted == parts[0] + parts[1] + parts[2] + parts[3] + parts[4] + parts[5] + parts[6];
    var s, e := SetOf(peers), SetOf(evicted);
    forall i | 0 <= i < 7
      ensures SetOf(parts[i]) <= InClass(v, s, LISTS[i])
    {
      PartFacts(v, peers, LISTS[i], parts[i]);
    }
    EvictedByParts(evicted, parts);
    forall c
      ensures InClass(v, e, c) == SetOf(parts[IndexOfList(c)])
    {
      ClassIsPart(v, peers, evicted, parts, c);
    }
    forall c
      ensures Count(v, e, c) == Count(v, s, c) - Kept(v, s, c)
    {
      PartFacts(v, peers, c, parts[IndexOfList(c)]);
    }
    forall p, q | p in e && q in s - e && v.classOf(p) == v.classOf(q)
      ensures v.distance(q) <= v.distance(p)
    {
      var i :| 0 <= i < 7 && p in parts[i];
      assert p in SetOf(parts[i]);
      PartFacts(v, peers, LISTS[i], parts[i]);
    }
    forall p | p in e
      ensures p in Counted(v, s)
    {
      var i :| 0 <= i < 7 && p in parts[i];
      assert p in SetOf(parts[i]);
    }
  }

  /** Without ties inside a category, the same peers are evicted for every ordering of the list and
      every outcome of the sort. */
  lemma {:induction false} OrderIndependent(v: View, peers: seq<PeerId>, reordered: seq<PeerId>, evicted: seq<PeerId>, again: seq<PeerId>)
    requires Distinct(peers) && Distinct(reordered) && SetOf(peers) == SetOf(reordered) && TieFree(v, SetOf(peers))
    requires IsEvictionList(v, peers, evicted) && IsEvictionList(v, reordered, again)
    ensures SetOf(evicted) == SetOf(again)
  {
    EvictionListEvicts(v, peers, evicted);
    EvictionListEvicts(v, reordered, again);
    EvictionUnique(v, SetOf(peers), SetOf(evicted), SetOf(again));
  }

  lemma EvictedByParts(evicted: seq<PeerId>, parts: seq<seq<PeerId>>)
    requires |parts| == 7
    requires evicted == parts[0] + parts[1] + parts[2] + parts[3] + parts[4] + parts[5] + parts[6]
    ensures forall p :: p in evicted <==> exists i :: 0 <= i < 7 && p in parts[i]
  {
  }

  lemma ClassIsPart(v: View, peers: seq<PeerId>, evicted: seq<PeerId>, parts: seq<seq<PeerId>>, c: Category)
    requires |parts| == 7 && forall p :: p in evicted <==> exists i :: 0 <= i < 7 && p in parts[i]
    requires forall i :: 0 <= i < 7 ==> SetOf(parts[i]) <= InClass(v, SetOf(peers), LISTS[i])
    ensures InClass(v, SetOf(evicted), c) == SetOf(parts[IndexOfList(c)])
  {
    var k := IndexOfList(c);
    forall p | p in InClass(v, SetOf(evicted), c)
      ensures p in parts[k]
    {
      var i :| 0 <= i < 7 && p in parts[i];
      assert p in SetOf(parts[i]);
      assert LISTS[i] == c;
      OneList(i, k);
    }
    forall p | p in parts[k]
      ensures p in InClass(v, SetOf(evicted), c)
    {
      assert p in SetOf(parts[k]);
    }
  }

  lemma OneList(i: nat, k: nat)
    requires i < 7 && k < 7 && LISTS[i] == LISTS[k]
    ensures i == k
  {
  }

  // ---------- the object ----------

  class ListsSharder {
    const selfPeerId: PeerId
    const maxPeerCount: nat
    const limits: Limits
    const convertPeerID: PeerId -> Hash
    const pretty: PeerId -> string
    const preferredPeersHolder: PreferredPeers.PeersHolder
    var peerShardResolver: PeerId -> PeerShardInfo
    var seeders: seq<string>

    ghost function TheFacts(): Facts
      reads this, preferredPeersHolder
    {
      Facts(seeders, pretty, peerShardResolver, selfPeerId, preferredPeersHolder.peerIDs.Keys, limits.fullHistory)
    }

    ghost function TheView(): View
      reads this, preferredPeersHolder
    {
      ViewOf(TheFacts(), convertPeerID, limits)
    }

    /** The view of a sharder in terms of its fields. */
    lemma ViewMeans(p: PeerId)
      ensures var info, own := peerShardResolver(p), peerShardResolver(selfPeerId).shardID;
              var seeds := exists k, before, after :: 0 <= k < |seeders| && seeders[k] == before + pretty(p) + after;
              var others := !seeds && p !in preferredPeersHolder.peerIDs;
              var observer := others && info.peerType == ObserverPeer && info.shardID == own;
              var c := TheView().classOf(p);
              && (c == Some(Seeder) <==> seeds)
              && (c == Some(Unknown) <==> others && info.peerType == UnknownPeer)
              && (c == Some(IntraVal) <==> others && info.peerType == ValidatorPeer && info.shardID == own)
              && (c == Some(CrossVal) <==> others && info.peerType == ValidatorPeer && info.shardID != own)
              && (c == Some(CrossObs) <==> others && info.peerType == ObserverPeer && info.shardID != own)
              && (c == Some(FullHistory) <==> observer && info.isFullHistory && limits.fullHistory > 0)
              && (c == Some(IntraObs) <==> observer && !(info.isFullHistory && limits.fullHistory > 0))
              && (c == None <==> !seeds && (p in preferredPeersHolder.peerIDs || info.peerType == OtherPeer))
      ensures TheView().limits == limits
      ensures TheView().distance(p) ==
              Distances.DifferingBits(convertPeerID(p), convertPeerID(selfPeerId), 256)
    {
      hide Classify, Seeds, Distances.CountingBits, Distances.DifferingBits;
      SeedsIff(seeders, pretty(p));
      ClassifiedExactly(TheFacts(), p);
      Distances.CountingIsHamming(convertPeerID(p), convertPeerID(selfPeerId));
    }

    constructor (pc: PeersConnections, self: PeerId, resolver: PeerId -> PeerShardInfo, pretty: PeerId -> string,
                 convert: PeerId -> Hash, holder: PreferredPeers.PeersHolder)
      ensures limits == pc.limits && maxPeerCount == pc.maxPeerCount && seeders == []
      ensures selfPeerId == self && peerShardResolver == resolver && this.pretty == pretty
      ensures convertPeerID == convert && preferredPeersHolder == holder
    {
      this.limits, this.maxPeerCount, this.seeders := pc.limits, pc.maxPeerCount, [];
      this.selfPeerId, this.peerShardResolver, this.pretty := self, resolver, pretty;
      this.convertPeerID, this.preferredPeersHolder := convert, holder;
    }

    /** NewListsSharder: nil and an error for a configuration that is refused. */
    static method NewListsSharder(c: Config, self: PeerId, resolver: PeerId -> PeerShardInfo,
                                  pretty: PeerId -> string, convert: PeerId -> Hash,
                                  holder: PreferredPeers.PeersHolder)
      returns (ls: ListsSharder?, err: Option<string>)
      ensures ls == null <==> err != None
      ensures ls != null <==>
              && c.targetPeerCount >= 5
              && c.maxIntraShardValidators >= 1 && c.maxCrossShardValidators >= 1
              && c.maxIntraShardObservers >= 1 && c.maxCrossShardObservers >= 1
              && ProcessNumConnections(c).Ok?
      ensures ls != null ==> fresh(ls) && ls.limits.Total() == ls.maxPeerCount
      ensures ls != null ==> Ok(PeersConnections(ls.maxPeerCount, ls.limits)) == ProcessNumConnections(c)
      ensures ls != null ==> ls.seeders == [] && ls.selfPeerId == self && ls.peerShardResolver == resolver
      ensures ls != null ==> ls.pretty == pretty && ls.convertPeerID == convert && ls.preferredPeersHolder == holder
    {
      ls, err := null, Some("invalid value");
      if c.targetPeerCount < MIN_CONNECTED_PEERS {
        return;
      }
      if c.maxIntraShardValidators < MIN_VALIDATORS || c.maxCrossShardValidators < MIN_VALIDATORS {
        return;
      }
      if c.maxIntraShardObservers < MIN_OBSERVERS || c.maxCrossShardObservers < MIN_OBSERVERS {
        return;
      }
      var pc := ProcessNumConnections(c);
      if pc.Err? {
        return;
      }
      LimitsFillTarget(c);
      ls := new ListsSharder(pc.value, self, resolver, pretty, convert, holder);
      err := None;
    }

    /** IsSeeder */
    method IsSeeder(pid: PeerId) returns (found: bool)
      ensures found <==> Seeds(seeders, pretty(pid))
    {
      for i := 0 to |seeders|
        invariant forall k :: 0 <= k < i ==> !PreferredPeers.Contains(seeders[k], pretty(pid))
      {
        if PreferredPeers.Contains(seeders[i], pretty(pid)) {
          return true;
        }
      }
      return false;
    }

    method SetSeeders(addresses: seq<string>)
      modifies this`seeders
      ensures seeders == addresses
    {
      seeders := addresses;
    }

    method SetPeerShardResolver(psp: PeerId -> PeerShardInfo)
      modifies this`peerShardResolver
      ensures peerShardResolver == psp
    {
      peerShardResolver := psp;
    }

    /** The body of the splitPeerIds loop: the list p is appended to. */
    method ListFor(p: PeerId) returns (c: Option<Category>)
      ensures c == TheView().classOf(p)
    {
      var isSeeder := IsSeeder(p);
      if isSeeder {
        return Some(Seeder);
      }
      var info, selfInfo := peerShardResolver(p), peerShardResolver(selfPeerId);
      if preferredPeersHolder.Holds(p) {
        return None;
      }
      if info.peerType == UnknownPeer {
        return Some(Unknown);
      }
      if info.shardID != selfInfo.shardID {
        match info.peerType {
          case ValidatorPeer => return Some(CrossVal);
          case ObserverPeer => return Some(CrossObs);
          case _ => return None;
        }
      }
      match info.peerType {
        case ValidatorPeer => return Some(IntraVal);
        case ObserverPeer =>
          return Some(if info.isFullHistory && limits.fullHistory > 0 then FullHistory else IntraObs);
        case _ => return None;
      }
    }

    method SplitPeerIds(peers: seq<PeerId>) returns (peerDistances: map<Category, seq<PeerDistance>>)
      ensures forall c :: c in peerDistances && peerDistances[c] == Split(TheView(), peers, c)
    {
      peerDistances := map[IntraVal := [], CrossVal := [], IntraObs := [], CrossObs := [],
                           Seeder := [], FullHistory := [], Unknown := []];
      AllLists(peerDistances);
      ghost var v := TheView();
      for i := 0 to |peers|
        invariant forall c :: c in peerDistances && peerDistances[c] == Split(v, peers[..i], c)
      {
        var p := peers[i];
        assert peers[..i + 1] == peers[..i] + [p];
        forall c
          ensures Split(v, peers[..i + 1], c) ==
                  Split(v, peers[..i], c) + if v.classOf(p) == Some(c) then [PeerDistance(p, v.distance(p))] else []
        {
          SplitAppend(v, peers[..i], p, c);
        }
        var distance := Distances.ComputeDistanceByCountingBits(convertPeerID(p), convertPeerID(selfPeerId));
        var pd := PeerDistance(p, distance);
        var list := ListFor(p);
        if list.Some? {
          peerDistances := peerDistances[list.value := peerDistances[list.value] + [pd]];
        }
      }
      assert peers[..|peers|] == peers;
    }

    /** evict */
    static method Evict(distances: seq<PeerDistance>, keep: int) returns (evictedPids: seq<PeerId>)
      ensures IsTail(distances, if keep < 0 then 0 else keep, evictedPids)
    {
      var numKeep := keep;
      if numKeep < 0 {
        numKeep := 0;
      }
      if numKeep >= |distances| {
        return [];
      }
      var sorted := new PeerDistance[|distances|](i requires 0 <= i < |distances| => distances[i]);
      assert sorted[..] == distances;
      Sort(sorted);
      var evictedPD := sorted[numKeep..];
      assert evictedPD == sorted[..][numKeep..];
      evictedPids := seq(|evictedPD|, i requires 0 <= i < |evictedPD| => evictedPD[i].id);
      assert evictedPids == Ids(sorted[..][numKeep..]);
    }

    /** ComputeEvictionList */
    method ComputeEvictionList(pidList: seq<PeerId>) returns (evictionProposed: seq<PeerId>)
      ensures IsEvictionList(TheView(), pidList, evictionProposed)
    {
      hide Quotas.Keep, Quotas.UsedAndSpare, Split, IsTail, KeepOf, AreTails;
      ghost var v := TheView();
      var lists := SplitPeerIds(pidList);
      var (intraVal, r0) := Quotas.UsedAndSpare(|lists[IntraVal]|, limits.intraVal);
      var (crossVal, r1) := Quotas.UsedAndSpare(|lists[CrossVal]|, limits.crossVal + r0);
      var (intraObs, r2) := Quotas.UsedAndSpare(|lists[IntraObs]|, limits.intraObs + r1);
      var (crossObs, r3) := Quotas.UsedAndSpare(|lists[CrossObs]|, limits.crossObs + r2);
      var (seed, _) := Quotas.UsedAndSpare(|lists[Seeder]|, limits.seeders);
      var (fullHistory, _) := Quotas.UsedAndSpare(|lists[FullHistory]|, limits.fullHistory);
      var (unknown, _) := Quotas.UsedAndSpare(|lists[Unknown]|, limits.unknown + r3);
      Quotas.FiveSteps(|lists[IntraVal]|, |lists[CrossVal]|, |lists[IntraObs]|, |lists[CrossObs]|, |lists[Unknown]|,
                       limits.intraVal, limits.crossVal, limits.intraObs, limits.crossObs, limits.unknown);
      KeepParts(v, pidList, [intraVal, crossVal, intraObs, crossObs, unknown]);
      var p0 := Evict(lists[IntraVal], intraVal);
      var p1 := Evict(lists[CrossVal], crossVal);
      var p2 := Evict(lists[IntraObs], intraObs);
      var p3 := Evict(lists[CrossObs], crossObs);
      var p4 := Evict(lists[Seeder], seed);
      var p5 := Evict(lists[FullHistory], fullHistory);
      var p6 := Evict(lists[Unknown], unknown);
      evictionProposed := p0 + p1 + p2 + p3 + p4 + p5 + p6;
      SevenTails(v, pidList, p0, p1, p2, p3, p4, p5, p6);
    }
  }

  lemma KeepParts(v: View, peers: seq<PeerId>, keep: seq<nat>)
    requires keep == Quotas.Keep([|Split(v, peers, IntraVal)|, |Split(v, peers, CrossVal)|, |Split(v, peers, IntraObs)|,
                                  |Split(v, peers, CrossObs)|, |Split(v, peers, Unknown)|], ChainQuotas(v.limits), 0)
    ensures KeepOf(v, peers, IntraVal) == keep[0] && KeepOf(v, peers, CrossVal) == keep[1]
    ensures KeepOf(v, peers, IntraObs) == keep[2] && KeepOf(v, peers, CrossObs) == keep[3]
    ensures KeepOf(v, peers, Unknown) == keep[4]
    ensures KeepOf(v, peers, Seeder) == Quotas.UsedAndSpare(|Split(v, peers, Seeder)|, v.limits.seeders).0
    ensures KeepOf(v, peers, FullHistory) == Quotas.UsedAndSpare(|Split(v, peers, FullHistory)|, v.limits.fullHistory).0
  {
    hide Quotas.Keep;
  }

  lemma {:induction false} SevenTails(v: View, peers: seq<PeerId>, p0: seq<PeerId>, p1: seq<PeerId>, p2: seq<PeerId>, p3: seq<PeerId>,
                   p4: seq<PeerId>, p5: seq<PeerId>, p6: seq<PeerId>)
    requires IsTail(Split(v, peers, IntraVal), KeepOf(v, peers, IntraVal), p0)
    requires IsTail(Split(v, peers, CrossVal), KeepOf(v, peers, CrossVal), p1)
    requires IsTail(Split(v, peers, IntraObs), KeepOf(v, peers, IntraObs), p2)
    requires IsTail(Split(v, peers, CrossObs), KeepOf(v, peers, CrossObs), p3)
    requires IsTail(Split(v, peers, Seeder), KeepOf(v, peers, Seeder), p4)
    requires IsTail(Split(v, peers, FullHistory), KeepOf(v, peers, FullHistory), p5)
    requires IsTail(Split(v, peers, Unknown), KeepOf(v, peers, Unknown), p6)
    ensures IsEvictionList(v, peers, p0 + p1 + p2 + p3 + p4 + p5 + p6)
  {
    hide IsTail, Split, KeepOf;
    assert AreTails(v, peers, [p0, p1, p2, p3, p4, p5, p6]);
  }

  lemma AllLists(m: map<Category, seq<PeerDistance>>)
    requires m == map[IntraVal := [], CrossVal := [], IntraObs := [], CrossObs := [], Seeder := [], FullHistory := [], Unknown := []]
    ensures forall c :: c in m && m[c] == []
  {
    forall c: Category
      ensures c in m && m[c] == []
    {
      var i := IndexOfList(c);
    }
  }
}
