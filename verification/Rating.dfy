/** rating/peersRatingHandler.go: peers and their ratings in two caches, one for the top rated tier
    and one for the bad rated tier. A cache may drop entries whenever something is put into it:
    which ones is an argument of every operation that puts. */
module Rating {
  import opened Wrappers

  const DEFAULT_RATING := 0
  const MIN_RATING := -100
  const MAX_RATING := 100
  const INCREASE_FACTOR := 2
  const DECREASE_FACTOR := -1
  const MIN_NUM_OF_PEERS := 1

  /** The two caches. */
  datatype Tiers = Tiers(top: map<PeerId, int>, bad: map<PeerId, int>)

  /** What a cache holds after Put, when it drops the peers of drops to make room. */
  function Put(m: map<PeerId, int>, p: PeerId, rating: int, drops: set<PeerId>): map<PeerId, int> {
    m[p := rating] - drops
  }

  function OldRating(t: Tiers, p: PeerId): Option<int> {
    if p in t.top then Some(t.top[p]) else if p in t.bad then Some(t.bad[p]) else None
  }

  /** AddPeer */
  function Add(t: Tiers, p: PeerId, drops: set<PeerId>): Tiers {
    if OldRating(t, p) != None then t else t.(top := Put(t.top, p, DEFAULT_RATING, drops))
  }

  /** updateRatingIfNeeded */
  function Update(t: Tiers, p: PeerId, factor: int, drops: set<PeerId>): Tiers {
    match OldRating(t, p)
    case None => t.(top := Put(t.top, p, DEFAULT_RATING, drops))
    case Some(old') =>
      if (old' == MIN_RATING && factor == DECREASE_FACTOR) || (old' == MAX_RATING && factor == INCREASE_FACTOR) then t
      else
        var sum := old' + factor;
        var rating := if sum > MAX_RATING then MAX_RATING else if sum < MIN_RATING then MIN_RATING else sum;
        Store(t, p, old', rating, drops)
  }

  /** updateRating and movePeerToNewTier */
  function Store(t: Tiers, p: PeerId, oldRating: int, newRating: int, drops: set<PeerId>): Tiers {
    if newRating >= DEFAULT_RATING then
      Tiers(Put(t.top, p, newRating, drops), if oldRating >= DEFAULT_RATING then t.bad else t.bad - {p})
    else
      Tiers(if oldRating < DEFAULT_RATING then t.top else t.top - {p}, Put(t.bad, p, newRating, drops))
  }

  datatype Op =
    | AddPeer(p: PeerId)
    | IncreaseRating(p: PeerId)
    | DecreaseRating(p: PeerId)

  function Do(t: Tiers, op: Op, drops: set<PeerId>): Tiers {
    match op
    case AddPeer(p) => Add(t, p, drops)
    case IncreaseRating(p) => Update(t, p, INCREASE_FACTOR, drops)
    case DecreaseRating(p) => Update(t, p, DECREASE_FACTOR, drops)
  }

  /** What the caches drop around one operation: before it from either, and by its Put. */
  datatype Drops = Drops(top: set<PeerId>, bad: set<PeerId>, byPut: set<PeerId>)

  function Lose(t: Tiers, d: Drops): Tiers {
    Tiers(t.top - d.top, t.bad - d.bad)
  }

  /** The operations of a run, each with what the caches drop then. */
  function After(t: Tiers, run: seq<(Op, Drops)>): Tiers
    decreases |run|
  {
    if run == [] then t else After(Do(Lose(t, run[0].1), run[0].0, run[0].1.byPut), run[1..])
  }

  // ---------- whatever the caches drop ----------

  /** No peer is in both tiers, and each tier holds only ratings of its range. */
  predicate InTiers(t: Tiers) {
    && (forall p | p in t.top :: p !in t.bad && 0 <= t.top[p] <= 100)
    && (forall p | p in t.bad :: -100 <= t.bad[p] <= -1)
  }

  lemma StepInTiers(t: Tiers, op: Op, drops: set<PeerId>)
    requires InTiers(t)
    ensures InTiers(Do(t, op, drops))
  {
  }

  /** After every run from empty caches, whatever was dropped when. */
  lemma {:induction false} RunInTiers(t: Tiers, run: seq<(Op, Drops)>)
    requires InTiers(t)
    ensures InTiers(After(t, run))
    decreases |run|
  {
    if run != [] {
      var lost := Lose(t, run[0].1);
      StepInTiers(lost, run[0].0, run[0].1.byPut);
      RunInTiers(Do(lost, run[0].0, run[0].1.byPut), run[1..]);
    }
  }

  // ---------- with nothing dropped: one map ----------

  /** The two caches seen as one map. */
  function Ratings(t: Tiers): map<PeerId, int> {
    t.bad + t.top
  }

  function Clamp(x: int): int {
    if x > 100 then 100 else if x < -100 then -100 else x
  }

  /** The simple form: the first touch, whatever it is, gives the default rating; later ones move
      it by a clamped step. */
  function Touch(m: map<PeerId, int>, op: Op): map<PeerId, int> {
    if op.p !in m then m[op.p := 0]
    else
      match op
      case AddPeer(_) => m
      case IncreaseRating(p) => m[p := Clamp(m[p] + 2)]
      case DecreaseRating(p) => m[p := Clamp(m[p] - 1)]
  }

  function TouchAll(m: map<PeerId, int>, ops: seq<Op>): map<PeerId, int>
    decreases |ops|
  {
    if ops == [] then m else TouchAll(Touch(m, ops[0]), ops[1..])
  }

  function NoDrops(ops: seq<Op>): seq<(Op, Drops)> {
    seq(|ops|, i requires 0 <= i < |ops| => (ops[i], Drops({}, {}, {})))
  }

  lemma PutPlain(m: map<PeerId, int>, p: PeerId, rating: int)
    ensures Put(m, p, rating, {}) == m[p := rating]
  {
  }

  /** Storing a rating in either tier, as the operations do it, stores it in the one map. */
  lemma PutRefines(t: Tiers, p: PeerId, rating: int)
    requires InTiers(t)
    ensures Ratings(t.(top := Put(t.top, p, rating, {}))) == Ratings(t)[p := rating]
    ensures Ratings(Tiers(Put(t.top, p, rating, {}), t.bad - {p})) == Ratings(t)[p := rating]
    ensures Ratings(Tiers(t.top - {p}, Put(t.bad, p, rating, {}))) == Ratings(t)[p := rating]
    ensures p !in t.top ==> Ratings(t.(bad := Put(t.bad, p, rating, {}))) == Ratings(t)[p := rating]
  {
    hide Put;
    PutPlain(t.top, p, rating);
    PutPlain(t.bad, p, rating);
    MergedTop(t.top, t.bad, p, rating);
    MergedBad(t.top, t.bad, p, rating);
  }

  lemma MergedTop(top: map<PeerId, int>, bad: map<PeerId, int>, p: PeerId, rating: int)
    ensures bad + top[p := rating] == (bad + top)[p := rating]
    ensures (bad - {p}) + top[p := rating] == (bad + top)[p := rating]
  {
  }

  lemma MergedBad(top: map<PeerId, int>, bad: map<PeerId, int>, p: PeerId, rating: int)
    ensures bad[p := rating] + (top - {p}) == (bad + top)[p := rating]
    ensures p !in top ==> bad[p := rating] + top == (bad + top)[p := rating]
  {
  }

  lemma SameRating(t: Tiers, p: PeerId)
    requires InTiers(t)
    ensures OldRating(t, p) == if p in Ratings(t) then Some(Ratings(t)[p]) else None
    ensures p in Ratings(t) ==> Ratings(t)[p := Ratings(t)[p]] == Ratings(t)
    ensures p in Ratings(t) ==> (Ratings(t)[p] >= DEFAULT_RATING <==> p in t.top) && MIN_RATING <= Ratings(t)[p] <= MAX_RATING
  {
  }

  lemma StepRefines(t: Tiers, op: Op)
    requires InTiers(t)
    ensures Ratings(Do(t, op, {})) == Touch(Ratings(t), op)
  {
    hide Put, Ratings, OldRating;
    SameRating(t, op.p);
    match op
    case AddPeer(p) => PutRefines(t, p, DEFAULT_RATING);
    case IncreaseRating(p) =>
      PutRefines(t, p, if p in Ratings(t) then Clamp(Ratings(t)[p] + INCREASE_FACTOR) else DEFAULT_RATING);
    case DecreaseRating(p) =>
      PutRefines(t, p, if p in Ratings(t) then Clamp(Ratings(t)[p] + DECREASE_FACTOR) else DEFAULT_RATING);
  }

  /** With drops, an operation leaves what it would without them, but for peers that were dropped. */
  lemma StepWithDrops(t: Tiers, op: Op, drops: set<PeerId>, p: PeerId)
    requires InTiers(t)
    ensures var after, all := Ratings(Do(t, op, drops)), Touch(Ratings(t), op);
            && (p in after ==> p in all && after[p] == all[p])
            && (p in all && p !in after ==> p in drops)
  {
    hide Touch, InTiers;
    StepRefines(t, op);
    StepInTiers(t, op, {});
    DropsOnly(t, op, drops, p);
  }

  lemma DropsOnly(t: Tiers, op: Op, drops: set<PeerId>, p: PeerId)
    requires InTiers(Do(t, op, {}))
    ensures var after, all := Ratings(Do(t, op, drops)), Ratings(Do(t, op, {}));
            && (p in after ==> p in all && after[p] == all[p])
            && (p in all && p !in after ==> p in drops)
  {
  }

  /** Without drops the two caches behave as the one map. */
  lemma {:induction false} RunRefines(t: Tiers, ops: seq<Op>)
    requires InTiers(t)
    ensures Ratings(After(t, NoDrops(ops))) == TouchAll(Ratings(t), ops)
    decreases |ops|
  {
    if ops != [] {
      StepRefines(t, ops[0]);
      StepInTiers(t, ops[0], {});
      assert NoDrops(ops)[1..] == NoDrops(ops[1..]);
      assert t.top - {} == t.top && t.bad - {} == t.bad;
      RunRefines(Do(t, ops[0], {}), ops[1..]);
    }
  }

  /** A peer with good deeds only climbs by two to the maximum: with d deeds after the first touch,
      its rating is the clamped sum. */
  lemma {:induction false} OnlyIncreases(m: map<PeerId, int>, p: PeerId, d: nat)
    requires p in m && 0 <= m[p] <= 100
    ensures var m' := TouchAll(m, seq(d, _ => IncreaseRating(p)));
            p in m' && m'[p] == if m[p] + 2 * d <= 100 then m[p] + 2 * d else 100
    decreases d
  {
    if d > 0 {
      var ops := seq(d, _ => IncreaseRating(p));
      assert ops[1..] == seq(d - 1, _ => IncreaseRating(p));
      OnlyIncreases(Touch(m, ops[0]), p, d - 1);
    }
  }

  // ---------- choosing peers ----------

  /** The peers of the list that are in the cache, in order. */
  function Among(peers: seq<PeerId>, m: map<PeerId, int>): seq<PeerId> {
    if peers == [] then []
    else if peers[0] in m then [peers[0]] + Among(peers[1..], m)
    else Among(peers[1..], m)
  }

  lemma {:induction false} AmongAppend(peers: seq<PeerId>, p: PeerId, m: map<PeerId, int>)
    ensures Among(peers + [p], m) == Among(peers, m) + if p in m then [p] else []
    decreases |peers|
  {
    if peers == [] {
      assert (peers + [p])[1..] == [];
    } else {
      assert (peers + [p])[1..] == peers[1..] + [p];
      AmongAppend(peers[1..], p, m);
    }
  }

  /** GetTopRatedPeersFromList */
  function Chosen(t: Tiers, peers: seq<PeerId>, minNumOfPeersExpected: int): seq<PeerId> {
    if minNumOfPeersExpected < MIN_NUM_OF_PEERS || peers == [] then []
    else
      var topRated := Among(peers, t.top);
      if |topRated| < minNumOfPeersExpected then topRated + Among(peers, t.bad) else topRated
  }

  lemma {:induction false} AmongCount(peers: seq<PeerId>, m: map<PeerId, int>, p: PeerId)
    ensures multiset(Among(peers, m))[p] == if p in m then multiset(peers)[p] else 0
    decreases |peers|
  {
    if peers != [] {
      AmongCount(peers[1..], m, p);
      assert peers == [peers[0]] + peers[1..];
      if peers[0] in m {
        assert Among(peers, m) == [peers[0]] + Among(peers[1..], m);
      }
    }
  }

  /** Every chosen peer is taken as often as it occurs in the list, so no occurrence is repeated:
      the top rated ones always, the bad rated ones exactly when the top rated ones do not suffice,
      and unrated ones never. A minimum below one gives nobody. */
  lemma ChosenExactly(t: Tiers, peers: seq<PeerId>, min: int, p: PeerId)
    requires InTiers(t)
    ensures min < 1 ==> Chosen(t, peers, min) == []
    ensures min >= 1 ==>
              multiset(Chosen(t, peers, min))[p] ==
              if p in t.top || (p in t.bad && TopRatedIn(t, peers) < min) then multiset(peers)[p] else 0
  {
    AmongCount(peers, t.top, p);
    AmongCount(peers, t.bad, p);
    AmongLength(t, peers);
  }

  /** The places of the list up to i that hold peers of the cache. */
  function Places(peers: seq<PeerId>, m: map<PeerId, int>, i: nat): set<nat>
    requires i <= |peers|
  {
    set k: nat | k < i && peers[k] in m
  }

  function TopRatedIn(t: Tiers, peers: seq<PeerId>): nat {
    |Places(peers, t.top, |peers|)|
  }

  lemma AmongLength(t: Tiers, peers: seq<PeerId>)
    ensures |Among(peers, t.top)| == TopRatedIn(t, peers)
  {
    AmongPrefix(peers, t.top, |peers|);
    assert peers[..|peers|] == peers;
  }

  lemma {:induction false} AmongPrefix(peers: seq<PeerId>, m: map<PeerId, int>, i: nat)
    requires i <= |peers|
    ensures |Among(peers[..i], m)| == |Places(peers, m, i)|
    decreases i
  {
    if i > 0 {
      AmongPrefix(peers, m, i - 1);
      assert peers[..i] == peers[..i - 1] + [peers[i - 1]];
      AmongAppend(peers[..i - 1], peers[i - 1], m);
      MorePlaces(peers, m, i);
    }
  }

  lemma MorePlaces(peers: seq<PeerId>, m: map<PeerId, int>, i: nat)
    requires 0 < i <= |peers|
    ensures |Places(peers, m, i)| == |Places(peers, m, i - 1)| + if peers[i - 1] in m then 1 else 0
  {
    assert Places(peers, m, i) == Places(peers, m, i - 1) + if peers[i - 1] in m then {i - 1} else {};
  }

  lemma {:induction false} AmongConcat(a: seq<PeerId>, b: seq<PeerId>, m: map<PeerId, int>)
    ensures Among(a + b, m) == Among(a, m) + Among(b, m)
    decreases |a|
  {
    if a == [] {
      assert a + b == b;
    } else {
      assert (a + b)[1..] == a[1..] + b;
      AmongConcat(a[1..], b, m);
    }
  }

  /** The selections keep the order of the list: a peer of the tier stands behind as many as come before
      it in the list. */
  lemma AmongAt(peers: seq<PeerId>, m: map<PeerId, int>, i: nat)
    requires i < |peers| && peers[i] in m
    ensures |Places(peers, m, i)| < |Among(peers, m)| && Among(peers, m)[|Places(peers, m, i)|] == peers[i]
  {
    AmongPrefix(peers, m, i);
    assert peers == peers[..i] + peers[i..];
    AmongConcat(peers[..i], peers[i..], m);
    assert Among(peers[i..], m) == [peers[i]] + Among(peers[i..][1..], m);
  }

  /** Top rated peers come before bad rated ones. */
  lemma TopRatedFirst(t: Tiers, peers: seq<PeerId>, min: int, i: nat, j: nat)
    requires InTiers(t) && i < j < |Chosen(t, peers, min)|
    ensures Chosen(t, peers, min)[j] in t.top ==> Chosen(t, peers, min)[i] in t.top
  {
    AmongMembers(peers, t.top);
    AmongMembers(peers, t.bad);
    var n := |Among(peers, t.top)|;
    if j >= n {
      assert Chosen(t, peers, min)[j] == Among(peers, t.bad)[j - n];
      assert Chosen(t, peers, min)[j] in t.bad;
    }
  }

  lemma {:induction false} AmongMembers(peers: seq<PeerId>, m: map<PeerId, int>)
    ensures forall p :: p in Among(peers, m) ==> p in m
    decreases |peers|
  {
    if peers != [] {
      AmongMembers(peers[1..], m);
    }
  }

  // ---------- the objects ----------

  /** types.Cacher */
  class Cache {
    var entries: map<PeerId, int>

    constructor ()
      ensures entries == map[]
    {
      entries := map[];
    }

    /** drops is what the cache decides to drop to make room. */
    method PutEntry(p: PeerId, rating: int, drops: set<PeerId>)
      modifies this
      ensures entries == Put(old(entries), p, rating, drops)
    {
      entries := entries[p := rating] - drops;
    }

    method RemoveEntry(p: PeerId)
      modifies this
      ensures entries == old(entries) - {p}
    {
      entries := entries - {p};
    }
  }

  class PeersRatingHandler {
    const topRatedCache: Cache
    const badRatedCache: Cache

    constructor (top: Cache, bad: Cache)
      ensures topRatedCache == top && badRatedCache == bad
    {
      topRatedCache, badRatedCache := top, bad;
    }

    ghost function Value(): Tiers
      reads topRatedCache, badRatedCache
    {
      Tiers(topRatedCache.entries, badRatedCache.entries)
    }

    method GetOldRating(pid: PeerId) returns (rating: int, found: bool)
      ensures OldRating(Value(), pid) == if found then Some(rating) else None
      ensures !found ==> rating == DEFAULT_RATING
    {
      if pid in topRatedCache.entries {
        return topRatedCache.entries[pid], true;
      }
      if pid in badRatedCache.entries {
        return badRatedCache.entries[pid], true;
      }
      return DEFAULT_RATING, false;
    }

    method Add(pid: PeerId, drops: set<PeerId>)
      requires topRatedCache != badRatedCache
      modifies topRatedCache, badRatedCache
      ensures Value() == Do(old(Value()), AddPeer(pid), drops)
    {
      var _, found := GetOldRating(pid);
      if found {
        return;
      }
      topRatedCache.PutEntry(pid, DEFAULT_RATING, drops);
    }

    method Increase(pid: PeerId, drops: set<PeerId>)
      requires topRatedCache != badRatedCache
      modifies topRatedCache, badRatedCache
      ensures Value() == Do(old(Value()), IncreaseRating(pid), drops)
    {
      UpdateRatingIfNeeded(pid, INCREASE_FACTOR, drops);
    }

    method Decrease(pid: PeerId, drops: set<PeerId>)
      requires topRatedCache != badRatedCache
      modifies topRatedCache, badRatedCache
      ensures Value() == Do(old(Value()), DecreaseRating(pid), drops)
    {
      UpdateRatingIfNeeded(pid, DECREASE_FACTOR, drops);
    }

    method UpdateRatingIfNeeded(pid: PeerId, updateFactor: int, drops: set<PeerId>)
      requires topRatedCache != badRatedCache
      modifies topRatedCache, badRatedCache
      ensures Value() == Update(old(Value()), pid, updateFactor, drops)
    {
      var oldRating, found := GetOldRating(pid);
      if !found {
        topRatedCache.PutEntry(pid, DEFAULT_RATING, drops);
        return;
      }
      var decreasingUnderMin := oldRating == MIN_RATING && updateFactor == DECREASE_FACTOR;
      var increasingOverMax := oldRating == MAX_RATING && updateFactor == INCREASE_FACTOR;
      if decreasingUnderMin || increasingOverMax {
        return;
      }
      var newRating := oldRating + updateFactor;
      if newRating > MAX_RATING {
        newRating := MAX_RATING;
      }
      if newRating < MIN_RATING {
        newRating := MIN_RATING;
      }
      UpdateRating(pid, oldRating, newRating, drops);
    }

    method UpdateRating(pid: PeerId, oldRating: int, newRating: int, drops: set<PeerId>)
      requires topRatedCache != badRatedCache
      modifies topRatedCache, badRatedCache
      ensures Value() == Store(old(Value()), pid, oldRating, newRating, drops)
    {
      var oldTierIsTop, newTierIsTop := oldRating >= DEFAULT_RATING, newRating >= DEFAULT_RATING;
      if newTierIsTop == oldTierIsTop {
        if newTierIsTop {
          topRatedCache.PutEntry(pid, newRating, drops);
        } else {
          badRatedCache.PutEntry(pid, newRating, drops);
        }
        return;
      }
      MovePeerToNewTier(newRating, pid, drops);
    }

    method MovePeerToNewTier(newRating: int, pid: PeerId, drops: set<PeerId>)
      requires topRatedCache != badRatedCache
      modifies topRatedCache, badRatedCache
      ensures Value() == if newRating >= DEFAULT_RATING
                         then Tiers(Put(old(Value()).top, pid, newRating, drops), old(Value()).bad - {pid})
                         else Tiers(old(Value()).top - {pid}, Put(old(Value()).bad, pid, newRating, drops))
    {
      if newRating >= DEFAULT_RATING {
        badRatedCache.RemoveEntry(pid);
        topRatedCache.PutEntry(pid, newRating, drops);
      } else {
        topRatedCache.RemoveEntry(pid);
        badRatedCache.PutEntry(pid, newRating, drops);
      }
    }

    method SplitPeersByTiers(peers: seq<PeerId>) returns (topRated: seq<PeerId>, badRated: seq<PeerId>)
      ensures topRated == Among(peers, Value().top) && badRated == Among(peers, Value().bad)
    {
      topRated, badRated := [], [];
      for i := 0 to |peers|
        invariant topRated == Among(peers[..i], Value().top) && badRated == Among(peers[..i], Value().bad)
      {
        var peer := peers[i];
        assert peers[..i + 1] == peers[..i] + [peer];
        AmongAppend(peers[..i], peer, Value().top);
        AmongAppend(peers[..i], peer, Value().bad);
        if peer in topRatedCache.entries {
          topRated := topRated + [peer];
        }
        if peer in badRatedCache.entries {
          badRated := badRated + [peer];
        }
      }
      assert peers[..|peers|] == peers;
    }

    method GetTopRatedPeersFromList(peers: seq<PeerId>, minNumOfPeersExpected: int) returns (peersTopRated: seq<PeerId>)
      ensures peersTopRated == Chosen(Value(), peers, minNumOfPeersExpected)
    {
      if minNumOfPeersExpected < MIN_NUM_OF_PEERS || |peers| == 0 {
        return [];
      }
      var peersBadRated;
      peersTopRated, peersBadRated := SplitPeersByTiers(peers);
      if |peersTopRated| < minNumOfPeersExpected {
        peersTopRated := peersTopRated + peersBadRated;
      }
    }
  }
}
