/** peersHolder/peersHolder.go: which connected peers are preferred ones, and in which shard. The
    operations are functions on the five maps and lists; the class at the end updates them in
    place. A nil list and an empty one behave alike here and are both []. */
module PreferredPeers {
  import opened Wrappers

  /** The shard is None until it is known (core.AllShardId in the source). */
  datatype PeerInfo = PeerInfo(pid: PeerId, shardID: Option<nat>)

  datatype PeerData = PeerData(connectionAddress: string, shardID: nat, index: nat)

  datatype State = State(
    preferred: seq<string>,
    infos: map<string, seq<PeerInfo>>,
    waiting: map<PeerId, string>,
    perShard: map<nat, seq<PeerId>>,
    peers: map<PeerId, PeerData>)

  /** m[k], or nil. */
  function Lookup<K, V>(m: map<K, seq<V>>, k: K): seq<V> {
    if k in m then m[k] else []
  }

  predicate IsAt(s: string, i: nat, sub: string) {
    i + |sub| <= |s| && s[i..i + |sub|] == sub
  }

  /** strings.Contains */
  predicate Contains(s: string, sub: string) {
    exists i :: 0 <= i <= |s| && IsAt(s, i, sub)
  }

  /** Where one string contains another. */
  lemma ContainsIff(s: string, sub: string)
    ensures Contains(s, sub) <==> exists before, after :: s == before + sub + after
  {
    if Contains(s, sub) {
      var i :| 0 <= i <= |s| && IsAt(s, i, sub);
      assert s == s[..i] + sub + s[i + |sub|..];
    }
    forall before, after | s == before + sub + after
      ensures Contains(s, sub)
    {
      assert IsAt(s, |before|, sub);
    }
  }

  /** getKnownConnection: the first preferred address inside the given one, or the empty string. */
  function Known(preferred: seq<string>, address: string): string {
    if preferred == [] then ""
    else if Contains(address, preferred[0]) then preferred[0]
    else Known(preferred[1..], address)
  }

  predicate HasInfo(list: seq<PeerInfo>, p: PeerId) {
    exists i :: 0 <= i < |list| && list[i].pid == p
  }

  /** Index of the first info of p, or the length of the list. */
  function InfoIndex(list: seq<PeerInfo>, p: PeerId): (i: nat)
    ensures i <= |list|
    ensures i < |list| ==> list[i].pid == p
    ensures forall j :: 0 <= j < i ==> list[j].pid != p
  {
    if list == [] || list[0].pid == p then 0 else 1 + InfoIndex(list[1..], p)
  }

  // ---------- the operations ----------

  /** PutConnectionAddress */
  function PutConnection(s: State, p: PeerId, address: string): State {
    var known := Known(s.preferred, address);
    if known == "" || HasInfo(Lookup(s.infos, known), p) then s
    else s.(waiting := s.waiting[p := known],
            infos := s.infos[known := Lookup(s.infos, known) + [PeerInfo(p, None)]])
  }

  /** PutShardID */
  function PutShard(s: State, p: PeerId, shard: nat): State {
    if p !in s.waiting then s
    else
      var address := s.waiting[p];
      var list := Lookup(s.infos, address);
      var i := InfoIndex(list, p);
      if i == |list| then s
      else
        var members := Lookup(s.perShard, shard) + [p];
        s.(infos := s.infos[address := list[i := list[i].(shardID := Some(shard))]],
           perShard := s.perShard[shard := members],
           peers := s.peers[p := PeerData(address, shard, |members| - 1)],
           waiting := s.waiting - {p})
  }

  /** removePeerFromMapAtIndex */
  function DropFromShard(perShard: map<nat, seq<PeerId>>, shard: nat, index: nat): map<nat, seq<PeerId>>
    requires index < |Lookup(perShard, shard)|
  {
    var members := Without(Lookup(perShard, shard), index);
    if members == [] then perShard - {shard} else perShard[shard := members]
  }

  /** removePeerInfoAtConnectionAddress */
  function DropInfo(infos: map<string, seq<PeerInfo>>, address: string, p: PeerId): map<string, seq<PeerInfo>> {
    var list := Lookup(infos, address);
    var i := InfoIndex(list, p);
    if i == |list| then infos else infos[address := Without(list, i)]
  }

  /** The recorded position of p lies outside its shard's list: slicing there panics. */
  predicate IsStale(s: State, p: PeerId) {
    p in s.peers && s.peers[p].index >= |Lookup(s.perShard, s.peers[p].shardID)|
  }

  /** Remove; None is the panic of an index out of range, before anything is changed. */
  function Remove(s: State, p: PeerId): Option<State> {
    if p !in s.peers then Some(s)
    else if IsStale(s, p) then None
    else
      var d := s.peers[p];
      Some(s.(perShard := DropFromShard(s.perShard, d.shardID, d.index),
              peers := s.peers - {p},
              infos := DropInfo(s.infos, d.connectionAddress, p),
              waiting := s.waiting - {p}))
  }

  /** Clear */
  function Cleared(s: State): State {
    s.(infos := map[], waiting := map[], perShard := map[], peers := map[])
  }

  // ---------- what the operations do ----------

  /** The known connection is the first preferred address that occurs in the given one, and the empty
      string when none does. */
  lemma {:induction false} KnownIsFirst(preferred: seq<string>, address: string)
    ensures if forall i, before, after :: 0 <= i < |preferred| ==> address != before + preferred[i] + after
            then Known(preferred, address) == ""
            else exists i :: FirstInside(preferred, address, i) && Known(preferred, address) == preferred[i]
    decreases |preferred|
  {
    hide Contains;
    if preferred != [] {
      ContainsIff(address, preferred[0]);
      if Contains(address, preferred[0]) {
        var before, after :| address == before + preferred[0] + after;
        assert FirstInside(preferred, address, 0);
      } else {
        KnownIsFirst(preferred[1..], address);
        forall i, before, after | 0 <= i < |preferred| && address == before + preferred[i] + after
          ensures exists k :: FirstInside(preferred, address, k) && Known(preferred, address) == preferred[k]
        {
          assert preferred[i] == preferred[1..][i - 1];
          var k :| FirstInside(preferred[1..], address, k) && Known(preferred[1..], address) == preferred[1..][k];
          assert preferred[k + 1] == preferred[1..][k];
          assert forall j :: 0 < j < k + 1 ==> preferred[j] == preferred[1..][j - 1];
          assert FirstInside(preferred, address, k + 1);
        }
        forall i, before, after | 0 <= i < |preferred[1..]| && address == before + preferred[1..][i] + after
          ensures address == before + preferred[i + 1] + after
        {
        }
      }
    }
  }

  /** Address i of the list occurs in the given one, and none before it does. */
  ghost predicate FirstInside(preferred: seq<string>, address: string, i: int) {
    && 0 <= i < |preferred|
    && (exists before, after :: address == before + preferred[i] + after)
    && (forall j, before, after :: 0 <= j < i ==> address != before + preferred[j] + after)
  }

  /** A connection from a preferred address is noted once for each peer: the peer then waits for its
      shard under that address. Nothing else changes. */
  lemma PutConnectionMeans(s: State, p: PeerId, address: string)
    ensures var known, s' := Known(s.preferred, address), PutConnection(s, p, address);
            if known == "" || exists info :: info in Lookup(s.infos, known) && info.pid == p then s' == s
            else
              && s'.preferred == s.preferred && s'.perShard == s.perShard && s'.peers == s.peers
              && p in s'.waiting && s'.waiting[p] == known && s'.waiting - {p} == s.waiting - {p}
              && Lookup(s'.infos, known) == Lookup(s.infos, known) + [PeerInfo(p, None)]
              && forall a :: a != known ==> Lookup(s'.infos, a) == Lookup(s.infos, a)
  {
    hide Known;
    HasInfoIff(Lookup(s.infos, Known(s.preferred, address)), p);
  }

  lemma HasInfoIff(list: seq<PeerInfo>, p: PeerId)
    ensures HasInfo(list, p) <==> exists info :: info in list && info.pid == p
    ensures HasInfo(list, p) <==> InfoIndex(list, p) < |list|
  {
    if HasInfo(list, p) {
      var i :| 0 <= i < |list| && list[i].pid == p;
      assert list[i] in list;
    }
    forall info | info in list && info.pid == p
      ensures HasInfo(list, p)
    {
      var i :| 0 <= i < |list| && list[i] == info;
    }
    if InfoIndex(list, p) < |list| {
      assert list[InfoIndex(list, p)].pid == p;
    }
  }

  /** The shard of a waiting peer makes it held: it is listed last in that shard, recorded there, its
      info under the address it waited for is completed, and it waits no more. Nothing else changes, and
      a peer that does not wait is passed over. */
  lemma PutShardMeans(s: State, p: PeerId, shard: nat)
    ensures var s' := PutShard(s, p, shard);
            if p !in s.waiting || forall info :: info in Lookup(s.infos, s.waiting[p]) ==> info.pid != p then s' == s
            else
              var address, members := s.waiting[p], Lookup(s.perShard, shard);
              var list, list' := Lookup(s.infos, address), Lookup(s'.infos, address);
              && s'.preferred == s.preferred && s'.waiting == s.waiting - {p}
              && s'.peers == s.peers[p := PeerData(address, shard, |members|)]
              && Lookup(s'.perShard, shard) == members + [p]
              && (forall t :: t != shard ==> Lookup(s'.perShard, t) == Lookup(s.perShard, t))
              && (forall a :: a != address ==> Lookup(s'.infos, a) == Lookup(s.infos, a))
              && exists i :: 0 <= i < |list| && list[i].pid == p && (forall j :: 0 <= j < i ==> list[j].pid != p)
                   && list' == list[..i] + [PeerInfo(p, Some(shard))] + list[i + 1..]
  {
    hide InfoIndex, HasInfo;
    if p in s.waiting {
      var list := Lookup(s.infos, s.waiting[p]);
      HasInfoIff(list, p);
      var i := InfoIndex(list, p);
      if i < |list| {
        assert list[i := list[i].(shardID := Some(shard))] == list[..i] + [PeerInfo(p, Some(shard))] + list[i + 1..];
      }
    }
  }

  /** Removing a peer that is not held changes nothing. In any state, whatever Remove takes from the
      lists, the peer is neither held nor waiting afterwards, and no empty shard list is kept. */
  lemma RemoveForgets(s: State, p: PeerId)
    ensures p !in s.peers ==> Remove(s, p) == Some(s)
    ensures p in s.peers && Remove(s, p).Some? ==>
              var s' := Remove(s, p).value;
              p !in s'.peers && p !in s'.waiting && s'.preferred == s.preferred
              && (forall q :: q != p ==> (q in s'.peers <==> q in s.peers) && (q in s'.waiting <==> q in s.waiting))
              && (forall q :: q in s'.peers ==> s'.peers[q] == s.peers[q])
              && (forall q :: q in s'.waiting ==> s'.waiting[q] == s.waiting[q])
              && (s.peers[p].shardID in s'.perShard <==> Lookup(s'.perShard, s.peers[p].shardID) != [])
  {
  }

  /** After Clear nobody is held or waiting, and every list is empty; the preferred addresses stay. */
  lemma ClearForgets(s: State)
    ensures var s' := Apply(s, DoClear);
            && s'.Some?
            && (forall p :: p !in s'.value.peers && p !in s'.value.waiting)
            && (forall shard :: Lookup(s'.value.perShard, shard) == [])
            && (forall address :: Lookup(s'.value.infos, address) == [])
            && s'.value.preferred == s.preferred
  {
  }

  // ---------- the invariant ----------

  /** p is listed exactly where the record d says, and not later in that list. */
  predicate AtRecord(perShard: map<nat, seq<PeerId>>, p: PeerId, d: PeerData) {
    var members := Lookup(perShard, d.shardID);
    && d.index < |members|
    && members[d.index] == p
    && forall j :: d.index < j < |members| ==> members[j] != p
  }

  /** The infos of one address are about different peers. */
  predicate OneInfoEach(list: seq<PeerInfo>) {
    forall i, j :: 0 <= i < j < |list| ==> list[i].pid != list[j].pid
  }

  /** Held peers stand at their record and have an info with their shard under their address; only
      held peers are listed; waiting peers have an info without shard under their address. */
  ghost predicate Consistent(s: State) {
    && (forall p :: p in s.peers ==> AtRecord(s.perShard, p, s.peers[p]))
    && (forall shard, p :: shard in s.perShard && p in s.perShard[shard] ==> p in s.peers)
    && InfosAgree(s)
  }

  ghost predicate InfosAgree(s: State) {
    && (forall p :: p in s.peers ==>
          PeerInfo(p, Some(s.peers[p].shardID)) in Lookup(s.infos, s.peers[p].connectionAddress))
    && (forall p :: p in s.waiting ==> PeerInfo(p, None) in Lookup(s.infos, s.waiting[p]))
    && (forall address :: OneInfoEach(Lookup(s.infos, address)))
  }

  // ---------- what the operations keep ----------

  lemma AppendInfo(list: seq<PeerInfo>, x: PeerInfo)
    requires OneInfoEach(list) && !HasInfo(list, x.pid)
    ensures OneInfoEach(list + [x]) && x in list + [x]
    ensures forall y :: y in list ==> y in list + [x]
  {
  }

  lemma PutConnectionInfos(s: State, p: PeerId, address: string)
    requires InfosAgree(s)
    ensures InfosAgree(PutConnection(s, p, address))
  {
    hide Known, HasInfo, OneInfoEach;
    var s' := PutConnection(s, p, address);
    var known := Known(s.preferred, address);
    if s' != s {
      var list, x := Lookup(s.infos, known), PeerInfo(p, None);
      AppendInfo(list, x);
      assert forall a :: Lookup(s'.infos, a) == if a == known then list + [x] else Lookup(s.infos, a);
    }
  }

  lemma PutConnectionKeeps(s: State, p: PeerId, address: string)
    requires Consistent(s)
    ensures Consistent(PutConnection(s, p, address))
  {
    hide Known, AtRecord, InfosAgree;
    PutConnectionInfos(s, p, address);
  }

  lemma PutShardRecords(s: State, p: PeerId, shard: nat)
    requires Consistent(s) && PutShard(s, p, shard) != s
    ensures forall q :: q in PutShard(s, p, shard).peers ==>
              AtRecord(PutShard(s, p, shard).perShard, q, PutShard(s, p, shard).peers[q])
  {
    hide InfosAgree;
    var s' := PutShard(s, p, shard);
    var members := Lookup(s.perShard, shard);
    assert s'.perShard == s.perShard[shard := members + [p]];
    forall q | q in s'.peers
      ensures AtRecord(s'.perShard, q, s'.peers[q])
    {
      if q == p {
        assert s'.peers[q] == PeerData(s.waiting[p], shard, |members|);
      } else {
        assert AtRecord(s.perShard, q, s.peers[q]);
        AppendKeepsRecord(s.perShard, shard, p, q, s.peers[q]);
      }
    }
  }

  lemma AppendKeepsRecord(perShard: map<nat, seq<PeerId>>, shard: nat, p: PeerId, q: PeerId, d: PeerData)
    requires AtRecord(perShard, q, d) && p != q
    ensures AtRecord(perShard[shard := Lookup(perShard, shard) + [p]], q, d)
  {
  }

  /** Filling in the shard of one peer keeps the infos of all others. */
  lemma FillIn(list: seq<PeerInfo>, i: nat, shard: nat)
    requires i < |list| && OneInfoEach(list)
    ensures var list' := list[i := list[i].(shardID := Some(shard))];
            && OneInfoEach(list')
            && PeerInfo(list[i].pid, Some(shard)) in list'
            && forall x :: x in list && x.pid != list[i].pid ==> x in list'
  {
    var list' := list[i := list[i].(shardID := Some(shard))];
    assert list'[i] == PeerInfo(list[i].pid, Some(shard));
    forall x | x in list && x.pid != list[i].pid
      ensures x in list'
    {
      var k :| 0 <= k < |list| && list[k] == x;
      assert list'[k] == x;
    }
  }

  lemma PutShardInfos(s: State, p: PeerId, shard: nat)
    requires InfosAgree(s) && PutShard(s, p, shard) != s
    ensures InfosAgree(PutShard(s, p, shard))
  {
    var s', address := PutShard(s, p, shard), s.waiting[p];
    var list := Lookup(s.infos, address);
    FillIn(list, InfoIndex(list, p), shard);
    forall a
      ensures a != address ==> Lookup(s'.infos, a) == Lookup(s.infos, a)
      ensures OneInfoEach(Lookup(s'.infos, a))
    {
      assert OneInfoEach(Lookup(s.infos, a));
    }
  }

  lemma PutShardKeeps(s: State, p: PeerId, shard: nat)
    requires Consistent(s)
    ensures Consistent(PutShard(s, p, shard))
  {
    hide AtRecord, InfosAgree;
    var s' := PutShard(s, p, shard);
    if s' != s {
      PutShardRecords(s, p, shard);
      PutShardInfos(s, p, shard);
    }
  }

  lemma InfoFound(list: seq<PeerInfo>, x: PeerInfo)
    requires OneInfoEach(list) && x in list
    ensures InfoIndex(list, x.pid) < |list| && list[InfoIndex(list, x.pid)] == x
  {
    var i := InfoIndex(list, x.pid);
    var k :| 0 <= k < |list| && list[k] == x;
    assert k >= i;
  }

  lemma LeftInfos(list: seq<PeerInfo>, i: nat)
    requires OneInfoEach(list) && i < |list|
    ensures OneInfoEach(Without(list, i)) && !HasInfo(Without(list, i), list[i].pid)
  {
    var list' := Without(list, i);
    assert forall j :: 0 <= j < |list'| ==> list'[j] == list[if j < i then j else j + 1];
  }

  /** The infos without the one of p: the others keep their order. */
  lemma DropInfoExact(list: seq<PeerInfo>, p: PeerId, shard: Option<nat>)
    requires OneInfoEach(list) && PeerInfo(p, shard) in list
    ensures var i := InfoIndex(list, p);
            && i < |list| && list[i] == PeerInfo(p, shard)
            && !HasInfo(Without(list, i), p)
            && OneInfoEach(Without(list, i))
            && forall x :: x in list && x.pid != p ==> x in Without(list, i)
  {
    hide OneInfoEach, HasInfo, InfoIndex;
    InfoFound(list, PeerInfo(p, shard));
    var i := InfoIndex(list, p);
    LeftInfos(list, i);
    forall x | x in list && x.pid != p
      ensures x in Without(list, i)
    {
      var j :| 0 <= j < |list| && list[j] == x;
      assert Without(list, i)[if j < i then j else j - 1] == x;
    }
  }

  lemma RemoveEntry(s: State, p: PeerId)
    requires Consistent(s) && p in s.peers
    ensures Remove(s, p).Some?
    ensures var s', d := Remove(s, p).value, s.peers[p];
            var members := Lookup(s.perShard, d.shardID);
            && members[d.index] == p
            && Lookup(s'.perShard, d.shardID) == members[..d.index] + members[d.index + 1..]
            && (forall shard :: shard != d.shardID ==> Lookup(s'.perShard, shard) == Lookup(s.perShard, shard))
            && s'.peers == s.peers - {p}
            && s'.waiting == s.waiting - {p}
  {
    hide InfosAgree;
    assert AtRecord(s.perShard, p, s.peers[p]);
  }

  lemma RemoveInfo(s: State, p: PeerId)
    requires InfosAgree(s) && p in s.peers && Remove(s, p).Some?
    ensures var s', d := Remove(s, p).value, s.peers[p];
            var list := Lookup(s.infos, d.connectionAddress);
            && (forall address :: address != d.connectionAddress ==> Lookup(s'.infos, address) == Lookup(s.infos, address))
            && !HasInfo(Lookup(s'.infos, d.connectionAddress), p)
            && exists i :: 0 <= i < |list| && list[i] == PeerInfo(p, Some(d.shardID))
                 && Lookup(s'.infos, d.connectionAddress) == list[..i] + list[i + 1..]
  {
    hide OneInfoEach, HasInfo, InfoIndex;
    var d := s.peers[p];
    DropInfoExact(Lookup(s.infos, d.connectionAddress), p, Some(d.shardID));
  }

  /** In a consistent state Remove never panics. It deletes exactly p's recorded entry and p's only
      info under its address: other entries, shards, infos, addresses, peers and records stay. */
  lemma RemoveExact(s: State, p: PeerId)
    requires Consistent(s) && p in s.peers
    ensures Remove(s, p).Some?
    ensures var s', d := Remove(s, p).value, s.peers[p];
            var members := Lookup(s.perShard, d.shardID);
            && members[d.index] == p
            && Lookup(s'.perShard, d.shardID) == members[..d.index] + members[d.index + 1..]
            && (forall shard :: shard != d.shardID ==> Lookup(s'.perShard, shard) == Lookup(s.perShard, shard))
            && s'.peers == s.peers - {p}
            && s'.waiting == s.waiting - {p}
    ensures var s', d := Remove(s, p).value, s.peers[p];
            var list := Lookup(s.infos, d.connectionAddress);
            && (forall address :: address != d.connectionAddress ==> Lookup(s'.infos, address) == Lookup(s.infos, address))
            && !HasInfo(Lookup(s'.infos, d.connectionAddress), p)
            && exists i :: 0 <= i < |list| && list[i] == PeerInfo(p, Some(d.shardID))
                 && Lookup(s'.infos, d.connectionAddress) == list[..i] + list[i + 1..]
  {
    hide InfosAgree, Remove, HasInfo, AtRecord;
    RemoveEntry(s, p);
    RemoveInfo(s, p);
  }

  /** p's entry is the last one with a record in its list, and p is listed nowhere else. */
  predicate IsLastEntry(s: State, p: PeerId)
    requires p in s.peers
  {
    var d := s.peers[p];
    && (forall q | q in s.peers :: q != p && s.peers[q].shardID == d.shardID ==> s.peers[q].index < d.index)
    && (forall shard | shard in s.perShard :: forall j | 0 <= j < |s.perShard[shard]| ::
          s.perShard[shard][j] == p ==> shard == d.shardID && j == d.index)
  }

  /** Removal does not renumber the entries behind the removed one: the state stays consistent
      exactly when there is none with a record, and no second entry of p. */
  lemma RemoveKeepsIff(s: State, p: PeerId)
    requires Consistent(s) && p in s.peers
    ensures Remove(s, p).Some?
    ensures Consistent(Remove(s, p).value) <==> IsLastEntry(s, p)
  {
    hide IsLastEntry, InfosAgree, AtRecord, Remove;
    RemoveEntry(s, p);
    var s' := Remove(s, p).value;
    if IsLastEntry(s, p) {
      RemoveKeepsRecords(s, p);
      RemoveKeepsListed(s, p);
      RemoveKeepsInfos(s, p);
    }
    if Consistent(s') {
      RemoveNeedsRecords(s, p);
      RemoveNeedsSingle(s, p);
      LastEntryIs(s, p);
    }
  }

  lemma LastEntryIs(s: State, p: PeerId)
    requires p in s.peers
    requires forall q | q in s.peers ::
               q != p && s.peers[q].shardID == s.peers[p].shardID ==> s.peers[q].index < s.peers[p].index
    requires forall shard | shard in s.perShard :: forall j | 0 <= j < |s.perShard[shard]| ::
               s.perShard[shard][j] == p ==> shard == s.peers[p].shardID && j == s.peers[p].index
    ensures IsLastEntry(s, p)
  {
  }

  /** An entry before the removed one stays at its record. */
  lemma RecordBefore(members: seq<PeerId>, cut: nat, q: PeerId, index: nat)
    requires index < cut < |members| && members[index] == q
    requires forall j :: index < j < |members| ==> members[j] != q
    ensures var members' := members[..cut] + members[cut + 1..];
            && index < |members'| && members'[index] == q
            && forall j :: index < j < |members'| ==> members'[j] != q
  {
    var members' := members[..cut] + members[cut + 1..];
    forall j | index < j < |members'|
      ensures members'[j] != q
    {
      assert members'[j] == if j < cut then members[j] else members[j + 1];
    }
  }

  lemma RemoveKeepsRecords(s: State, p: PeerId)
    requires Consistent(s) && p in s.peers && Remove(s, p).Some? && IsLastEntry(s, p)
    ensures var s' := Remove(s, p).value;
            forall q :: q in s'.peers ==> AtRecord(s'.perShard, q, s'.peers[q])
  {
    hide InfosAgree, Remove;
    var s', d := Remove(s, p).value, s.peers[p];
    RemoveEntry(s, p);
    forall q | q in s'.peers
      ensures AtRecord(s'.perShard, q, s'.peers[q])
    {
      var e := s.peers[q];
      assert s'.peers[q] == e && AtRecord(s.perShard, q, e);
      if e.shardID == d.shardID {
        RecordBefore(Lookup(s.perShard, d.shardID), d.index, q, e.index);
      }
    }
  }

  /** Each entry that is left was there before. */
  lemma LeftEntries(members: seq<PeerId>, cut: nat)
    requires cut < |members|
    ensures forall q :: q in members[..cut] + members[cut + 1..] ==> q in members
    ensures forall j :: 0 <= j < |members| && j != cut ==> members[j] in members[..cut] + members[cut + 1..]
  {
    var members' := members[..cut] + members[cut + 1..];
    forall j | 0 <= j < |members| && j != cut
      ensures members[j] in members'
    {
      assert members'[if j < cut then j else j - 1] == members[j];
    }
  }

  lemma RemovedIsGone(s: State, p: PeerId)
    requires Consistent(s) && p in s.peers && Remove(s, p).Some? && IsLastEntry(s, p)
    ensures forall shard :: p !in Lookup(Remove(s, p).value.perShard, shard)
  {
    hide InfosAgree, Remove;
    var s', d := Remove(s, p).value, s.peers[p];
    RemoveEntry(s, p);
    forall shard
      ensures p !in Lookup(s'.perShard, shard)
    {
      var members := Lookup(s.perShard, shard);
      if shard == d.shardID {
        var members' := members[..d.index] + members[d.index + 1..];
        assert forall j :: 0 <= j < |members'| ==> members'[j] == members[if j < d.index then j else j + 1];
      }
    }
  }

  lemma RemoveKeepsListed(s: State, p: PeerId)
    requires Consistent(s) && p in s.peers && Remove(s, p).Some? && IsLastEntry(s, p)
    ensures var s' := Remove(s, p).value;
            forall shard, q :: shard in s'.perShard && q in s'.perShard[shard] ==> q in s'.peers
  {
    var s', d := Remove(s, p).value, s.peers[p];
    RemoveEntry(s, p);
    RemovedIsGone(s, p);
    hide InfosAgree, Remove, IsLastEntry, AtRecord;
    forall shard, q | shard in s'.perShard && q in s'.perShard[shard]
      ensures q in s'.peers
    {
      assert q in Lookup(s'.perShard, shard);
      if shard == d.shardID {
        LeftEntries(Lookup(s.perShard, shard), d.index);
      }
      assert q in Lookup(s.perShard, shard);
    }
  }

  lemma RemoveKeepsInfos(s: State, p: PeerId)
    requires InfosAgree(s) && p in s.peers && Remove(s, p).Some?
    ensures InfosAgree(Remove(s, p).value)
  {
    var s', d := Remove(s, p).value, s.peers[p];
    DropInfoExact(Lookup(s.infos, d.connectionAddress), p, Some(d.shardID));
    forall a
      ensures a != d.connectionAddress ==> Lookup(s'.infos, a) == Lookup(s.infos, a)
      ensures OneInfoEach(Lookup(s'.infos, a))
    {
      assert OneInfoEach(Lookup(s.infos, a));
    }
  }

  lemma RemoveNeedsRecords(s: State, p: PeerId)
    requires Consistent(s) && p in s.peers && Remove(s, p).Some? && Consistent(Remove(s, p).value)
    ensures forall q | q in s.peers ::
              q != p && s.peers[q].shardID == s.peers[p].shardID ==> s.peers[q].index < s.peers[p].index
  {
    hide InfosAgree, Remove;
    var s', d := Remove(s, p).value, s.peers[p];
    RemoveEntry(s, p);
    forall q | q in s.peers && q != p && s.peers[q].shardID == d.shardID
      ensures s.peers[q].index < d.index
    {
      var e := s.peers[q];
      assert AtRecord(s.perShard, q, e) && AtRecord(s.perShard, p, d);
      assert q in s'.peers && s'.peers[q] == e && AtRecord(s'.perShard, q, e);
      RecordNotBehind(Lookup(s.perShard, d.shardID), d.index, q, e.index);
    }
  }

  /** An entry behind the removed one is not at its record any more. */
  lemma RecordNotBehind(members: seq<PeerId>, cut: nat, q: PeerId, index: nat)
    requires cut < |members| && index < |members| && members[index] == q && members[cut] != q
    requires forall j :: index < j < |members| ==> members[j] != q
    requires var members' := members[..cut] + members[cut + 1..]; index < |members'| && members'[index] == q
    ensures index < cut
  {
    if index > cut {
      assert false;
    }
  }

  lemma StillListed(s: State, p: PeerId, shard: nat, j: nat)
    requires Consistent(s) && p in s.peers && shard in s.perShard && j < |s.perShard[shard]|
    requires s.perShard[shard][j] == p && (shard != s.peers[p].shardID || j != s.peers[p].index)
    ensures Remove(s, p).Some?
    ensures var s' := Remove(s, p).value; shard in s'.perShard && p in s'.perShard[shard]
  {
    RemoveEntry(s, p);
    hide InfosAgree, Remove, AtRecord;
    var d := s.peers[p];
    if shard == d.shardID {
      LeftEntries(s.perShard[shard], d.index);
    }
    assert p in Lookup(Remove(s, p).value.perShard, shard);
  }

  lemma RemoveNeedsSingle(s: State, p: PeerId)
    requires Consistent(s) && p in s.peers && Remove(s, p).Some? && Consistent(Remove(s, p).value)
    ensures forall shard | shard in s.perShard :: forall j | 0 <= j < |s.perShard[shard]| ::
              s.perShard[shard][j] == p ==> shard == s.peers[p].shardID && j == s.peers[p].index
  {
    hide InfosAgree, Remove, AtRecord;
    var s', d := Remove(s, p).value, s.peers[p];
    RemoveEntry(s, p);
    forall shard, j | shard in s.perShard && 0 <= j < |s.perShard[shard]| && s.perShard[shard][j] == p
      ensures shard == d.shardID && j == d.index
    {
      if shard != d.shardID || j != d.index {
        StillListed(s, p, shard, j);
        assert false;
      }
    }
  }

  /** What Remove does to the list of p's shard. */
  function ListAfter(s: State, p: PeerId): seq<PeerId>
    requires p in s.peers && Remove(s, p).Some?
  {
    Lookup(Remove(s, p).value.perShard, s.peers[p].shardID)
  }

  /** In any state, consistent or not: Remove takes exactly one entry of p from the list of its
      shard if and only if p stands at its recorded index. Else it panics or takes the entry of
      another peer. */
  lemma RemoveOwnIff(s: State, p: PeerId)
    requires p in s.peers
    ensures var d := s.peers[p];
            var members := Lookup(s.perShard, d.shardID);
            && (Remove(s, p).Some? && multiset(members) == multiset(ListAfter(s, p)) + multiset{p} <==>
                d.index < |members| && members[d.index] == p)
            && (Remove(s, p).Some? ==>
                  (d.index < |members| && multiset(members) == multiset(ListAfter(s, p)) + multiset{members[d.index]}))
  {
    var d := s.peers[p];
    var members := Lookup(s.perShard, d.shardID);
    if d.index < |members| {
      assert members == members[..d.index] + [members[d.index]] + members[d.index + 1..];
      assert ListAfter(s, p) == members[..d.index] + members[d.index + 1..];
      OneEach(multiset(ListAfter(s, p)), members[d.index], p);
    }
  }

  lemma OneEach(rest: multiset<PeerId>, x: PeerId, p: PeerId)
    ensures rest + multiset{x} == rest + multiset{p} <==> x == p
  {
    assert x != p ==> (rest + multiset{x})[p] == rest[p] && (rest + multiset{p})[p] == rest[p] + 1;
  }

  // ---------- runs ----------

  datatype Op =
    | DoPutConnection(p: PeerId, address: string)
    | DoPutShard(p: PeerId, shard: nat)
    | DoRemove(p: PeerId)
    | DoClear

  function Apply(s: State, op: Op): Option<State> {
    match op
    case DoPutConnection(p, address) => Some(PutConnection(s, p, address))
    case DoPutShard(p, shard) => Some(PutShard(s, p, shard))
    case DoRemove(p) => Remove(s, p)
    case DoClear => Some(Cleared(s))
  }

  /** None as soon as an operation panics. */
  function Run(s: State, ops: seq<Op>): Option<State>
    decreases |ops|
  {
    if ops == [] then Some(s)
    else
      match Apply(s, ops[0])
      case None => None
      case Some(s') => Run(s', ops[1..])
  }

  /** Every removal of the run meets a last entry, or a peer that is not held. */
  predicate RemovesLast(s: State, ops: seq<Op>)
    decreases |ops|
  {
    ops == [] || (
      && (ops[0].DoRemove? && ops[0].p in s.peers ==> IsLastEntry(s, ops[0].p))
      && match Apply(s, ops[0])
         case None => true
         case Some(s') => RemovesLast(s', ops[1..]))
  }

  function Initial(preferred: seq<string>): State {
    State(preferred, map a | a in preferred :: [], map[], map[], map[])
  }

  lemma ApplyKeeps(s: State, op: Op)
    requires Consistent(s) && (op.DoRemove? && op.p in s.peers ==> IsLastEntry(s, op.p))
    ensures Apply(s, op).Some? && Consistent(Apply(s, op).value)
  {
    match op
    case DoPutConnection(p, address) => PutConnectionKeeps(s, p, address);
    case DoPutShard(p, shard) => PutShardKeeps(s, p, shard);
    case DoRemove(p) =>
      if p in s.peers {
        RemoveKeepsIff(s, p);
      }
    case DoClear =>
  }

  /** Every run whose removals meet last entries, so every run of puts and clears, never panics
      and ends in a consistent state. */
  lemma {:induction false} RunKeeps(s: State, ops: seq<Op>)
    requires Consistent(s) && RemovesLast(s, ops)
    ensures Run(s, ops).Some? && Consistent(Run(s, ops).value)
    decreases |ops|
  {
    if ops != [] {
      ApplyKeeps(s, ops[0]);
      RunKeeps(Apply(s, ops[0]).value, ops[1..]);
    }
  }

  lemma RunFromStart(preferred: seq<string>, ops: seq<Op>)
    requires RemovesLast(Initial(preferred), ops)
    ensures Run(Initial(preferred), ops).Some? && Consistent(Run(Initial(preferred), ops).value)
  {
    RunKeeps(Initial(preferred), ops);
  }

  lemma {:induction false} PutsRemoveNothing(s: State, ops: seq<Op>)
    requires forall op :: op in ops ==> !op.DoRemove?
    ensures RemovesLast(s, ops)
    decreases |ops|
  {
    if ops != [] {
      PutsRemoveNothing(Apply(s, ops[0]).value, ops[1..]);
    }
  }

  /** Every run of PutConnectionAddress, PutShardID and Clear ends in a consistent state. */
  lemma RunOfPuts(preferred: seq<string>, ops: seq<Op>)
    requires forall op :: op in ops ==> !op.DoRemove?
    ensures Run(Initial(preferred), ops).Some? && Consistent(Run(Initial(preferred), ops).value)
  {
    PutsRemoveNothing(Initial(preferred), ops);
    RunFromStart(preferred, ops);
  }

  lemma RunTwo(s: State, a: Op, b: Op)
    requires Apply(s, a).Some?
    ensures Run(s, [a, b]) == Apply(Apply(s, a).value, b)
  {
    hide Apply;
    var s' := Apply(s, a).value;
    assert [a, b][1..] == [b] && [b][1..] == [];
    assert Run(s, [a, b]) == Run(s', [b]);
    match Apply(s', b)
    case None =>
    case Some(t) => assert Run(t, []) == Some(t);
  }

  lemma RunOne(s: State, a: Op)
    ensures Run(s, [a]) == Apply(s, a)
  {
    hide Apply;
    assert [a][1..] == [];
    match Apply(s, a)
    case None =>
    case Some(t) => assert Run(t, []) == Some(t);
  }

  /** s after a new peer has connected from the preferred address and its shard is known. */
  function WithPeer(s: State, p: PeerId, address: string, shard: nat): State {
    var members := Lookup(s.perShard, shard);
    s.(infos := s.infos[address := Lookup(s.infos, address) + [PeerInfo(p, Some(shard))]],
       perShard := s.perShard[shard := members + [p]],
       peers := s.peers[p := PeerData(address, shard, |members|)],
       waiting := s.waiting - {p})
  }

  lemma {:induction false} IndexAtEnd(list: seq<PeerInfo>, x: PeerInfo)
    requires !HasInfo(list, x.pid)
    ensures InfoIndex(list + [x], x.pid) == |list|
  {
    assert (list + [x])[|list|] == x;
    assert forall j :: 0 <= j < |list| ==> (list + [x])[j] == list[j];
  }

  lemma NewPeer(s: State, p: PeerId, address: string, shard: nat)
    requires address != "" && Known(s.preferred, address) == address && !HasInfo(Lookup(s.infos, address), p)
    ensures Run(s, [DoPutConnection(p, address), DoPutShard(p, shard)]) == Some(WithPeer(s, p, address, shard))
  {
    hide Run, Known, HasInfo, InfoIndex;
    var list, x := Lookup(s.infos, address), PeerInfo(p, None);
    var s1 := PutConnection(s, p, address);
    IndexAtEnd(list, x);
    assert Lookup(s1.infos, address) == list + [x];
    assert (list + [x])[|list| := x.(shardID := Some(shard))] == list + [PeerInfo(p, Some(shard))];
    var s2 := PutShard(s1, p, shard);
    var want := WithPeer(s, p, address, shard);
    assert s2.infos == want.infos && s2.waiting == want.waiting;
    RunTwo(s, DoPutConnection(p, address), DoPutShard(p, shard));
  }

  /** One peer, then a second and a third of the same shard. */
  const PUT_A := [DoPutConnection("A", "a"), DoPutShard("A", 0)]
  const PUT_B := [DoPutConnection("B", "a"), DoPutShard("B", 0)]
  const PUT_C := [DoPutConnection("C", "a"), DoPutShard("C", 0)]

  const HELD_A := WithPeer(Initial(["a"]), "A", "a", 0)
  const HELD_AB := WithPeer(HELD_A, "B", "a", 0)
  const HELD_ABC := WithPeer(HELD_AB, "C", "a", 0)

  lemma KnownA()
    ensures Known(["a"], "a") == "a"
  {
    assert IsAt("a", 0, "a");
  }

  lemma Listed()
    ensures Lookup(HELD_AB.perShard, 0) == ["A", "B"] && Lookup(HELD_ABC.perShard, 0) == ["A", "B", "C"]
    ensures HELD_AB.peers == map["A" := PeerData("a", 0, 0), "B" := PeerData("a", 0, 1)]
    ensures HELD_ABC.peers == HELD_AB.peers["C" := PeerData("a", 0, 2)]
    ensures !HasInfo(Lookup(Initial(["a"]).infos, "a"), "A")
    ensures !HasInfo(Lookup(HELD_A.infos, "a"), "B") && !HasInfo(Lookup(HELD_AB.infos, "a"), "C")
  {
    assert Lookup(HELD_A.perShard, 0) == ["A"];
    assert Lookup(HELD_A.infos, "a") == [PeerInfo("A", Some(0))];
    assert Lookup(HELD_AB.infos, "a") == [PeerInfo("A", Some(0)), PeerInfo("B", Some(0))];
  }

  lemma PeersHeld()
    ensures Run(Initial(["a"]), PUT_A + PUT_B) == Some(HELD_AB)
    ensures Run(Initial(["a"]), PUT_A + PUT_B + PUT_C) == Some(HELD_ABC)
  {
    hide Run, HasInfo, Known;
    KnownA();
    Listed();
    NewPeer(Initial(["a"]), "A", "a", 0);
    NewPeer(HELD_A, "B", "a", 0);
    NewPeer(HELD_AB, "C", "a", 0);
    RunConcat(Initial(["a"]), PUT_A, PUT_B);
    RunConcat(Initial(["a"]), PUT_A + PUT_B, PUT_C);
  }

  /** Without that condition a run can end in a panic: after the removal of the first of two peers
      the second is still recorded at index 1, behind the end of its list. */
  lemma RemovalCanPanic()
    ensures Run(Initial(["a"]), PUT_A + PUT_B + [DoRemove("A")]).Some?
    ensures Run(Initial(["a"]), PUT_A + PUT_B + [DoRemove("A"), DoRemove("B")]) == None
  {
    hide Run, InfoIndex;
    PeersHeld();
    Listed();
    var s := Remove(HELD_AB, "A").value;
    assert Without(["A", "B"], 0) == ["B"];
    RunOne(HELD_AB, DoRemove("A"));
    RunTwo(HELD_AB, DoRemove("A"), DoRemove("B"));
    RunConcat(Initial(["a"]), PUT_A + PUT_B, [DoRemove("A")]);
    RunConcat(Initial(["a"]), PUT_A + PUT_B, [DoRemove("A"), DoRemove("B")]);
  }

  /** Nor need it panic: of three peers, removing the first and then the second takes the entry of
      the third. The second stays listed without being held, the third is held without being
      listed. */
  lemma RemovalCanTakeAnother()
    ensures var end := Run(Initial(["a"]), PUT_A + PUT_B + PUT_C + [DoRemove("A"), DoRemove("B")]);
            && end.Some?
            && Lookup(end.value.perShard, 0) == ["B"]
            && end.value.peers == map["C" := PeerData("a", 0, 2)]
  {
    hide Run, InfoIndex, Remove;
    PeersHeld();
    TwoRemoved();
    RunTwo(HELD_ABC, DoRemove("A"), DoRemove("B"));
    RunConcat(Initial(["a"]), PUT_A + PUT_B + PUT_C, [DoRemove("A"), DoRemove("B")]);
  }

  lemma TwoRemoved()
    ensures Remove(HELD_ABC, "A").Some?
    ensures var end := Remove(Remove(HELD_ABC, "A").value, "B");
            end.Some? && Lookup(end.value.perShard, 0) == ["B"] && end.value.peers == map["C" := PeerData("a", 0, 2)]
  {
    hide InfoIndex;
    Listed();
    assert Without(["A", "B", "C"], 0) == ["B", "C"];
    var s := Remove(HELD_ABC, "A").value;
    assert Lookup(s.perShard, 0) == ["B", "C"] && s.peers["B"] == PeerData("a", 0, 1);
    assert Without(["B", "C"], 1) == ["B"];
    assert s.peers - {"B"} == map["C" := PeerData("a", 0, 2)];
  }

  lemma {:induction false} RunConcat(s: State, a: seq<Op>, b: seq<Op>)
    ensures Run(s, a + b) == match Run(s, a) case None => None case Some(s') => Run(s', b)
    decreases |a|
  {
    if a == [] {
      assert a + b == b;
    } else {
      assert (a + b)[1..] == a[1..] + b;
      match Apply(s, a[0])
      case None =>
      case Some(s') => RunConcat(s', a[1..], b);
    }
  }

  // ---------- the object ----------

  class PeersHolder {
    var preferredConnAddresses: seq<string>
    var connAddrToPeersInfo: map<string, seq<PeerInfo>>
    var tempPeerIDsWaitingForShard: map<PeerId, string>
    var peerIDsPerShard: map<nat, seq<PeerId>>
    var peerIDs: map<PeerId, PeerData>

    ghost function Value(): State
      reads this
    {
      State(preferredConnAddresses, connAddrToPeersInfo, tempPeerIDsWaitingForShard, peerIDsPerShard, peerIDs)
    }

    constructor (preferredConnectionAddresses: seq<string>)
      ensures Value() == Initial(preferredConnectionAddresses)
    {
      preferredConnAddresses := preferredConnectionAddresses;
      connAddrToPeersInfo := map a | a in preferredConnectionAddresses :: [];
      tempPeerIDsWaitingForShard, peerIDsPerShard, peerIDs := map[], map[], map[];
    }

    method GetKnownConnection(connectionAddress: string) returns (known: string)
      ensures known == Known(preferredConnAddresses, connectionAddress)
    {
      for i := 0 to |preferredConnAddresses|
        invariant Known(preferredConnAddresses, connectionAddress) == Known(preferredConnAddresses[i..], connectionAddress)
      {
        if Contains(connectionAddress, preferredConnAddresses[i]) {
          return preferredConnAddresses[i];
        }
      }
      return "";
    }

    method GetPeerInfoForPeerID(peerID: PeerId, peersInfo: seq<PeerInfo>) returns (index: nat)
      ensures index == InfoIndex(peersInfo, peerID)
    {
      index := 0;
      while index < |peersInfo| && peersInfo[index].pid != peerID
        invariant index <= |peersInfo|
        invariant InfoIndex(peersInfo, peerID) == index + InfoIndex(peersInfo[index..], peerID)
      {
        index := index + 1;
      }
    }

    method PutConnectionAddress(peerID: PeerId, connectionAddress: string)
      modifies this
      ensures Value() == PutConnection(old(Value()), peerID, connectionAddress)
      ensures peerIDs == old(peerIDs)
    {
      var known := GetKnownConnection(connectionAddress);
      if |known| == 0 {
        return;
      }
      var peersInfo := Lookup(connAddrToPeersInfo, known);
      var i := GetPeerInfoForPeerID(peerID, peersInfo);
      if i == |peersInfo| {
        tempPeerIDsWaitingForShard := tempPeerIDsWaitingForShard[peerID := known];
        connAddrToPeersInfo := connAddrToPeersInfo[known := peersInfo + [PeerInfo(peerID, None)]];
      }
    }

    method PutShardID(peerID: PeerId, shardID: nat)
      modifies this
      ensures Value() == PutShard(old(Value()), peerID, shardID)
    {
      if peerID !in tempPeerIDsWaitingForShard {
        return;
      }
      var known := tempPeerIDsWaitingForShard[peerID];
      var peersInfo := Lookup(connAddrToPeersInfo, known);
      var i := GetPeerInfoForPeerID(peerID, peersInfo);
      if i == |peersInfo| {
        return;
      }
      connAddrToPeersInfo := connAddrToPeersInfo[known := peersInfo[i := peersInfo[i].(shardID := Some(shardID))]];
      peerIDsPerShard := peerIDsPerShard[shardID := Lookup(peerIDsPerShard, shardID) + [peerID]];
      peerIDs := peerIDs[peerID := PeerData(known, shardID, |peerIDsPerShard[shardID]| - 1)];
      tempPeerIDsWaitingForShard := tempPeerIDsWaitingForShard - {peerID};
    }

    predicate Holds(peerID: PeerId)
      reads this
    {
      peerID in peerIDs
    }

    /** Remove; ok is false where the slicing panics. */
    method RemovePeer(peerID: PeerId) returns (ok: bool)
      modifies this
      ensures ok <==> Remove(old(Value()), peerID).Some?
      ensures Value() == if ok then Remove(old(Value()), peerID).value else old(Value())
    {
      if peerID !in peerIDs {
        return true;
      }
      var pidData := peerIDs[peerID];
      var members := Lookup(peerIDsPerShard, pidData.shardID);
      if pidData.index >= |members| {
        return false;
      }
      members := members[..pidData.index] + members[pidData.index + 1..];
      peerIDsPerShard := if members == [] then peerIDsPerShard - {pidData.shardID}
                         else peerIDsPerShard[pidData.shardID := members];
      peerIDs := peerIDs - {peerID};
      var peersInfo := Lookup(connAddrToPeersInfo, pidData.connectionAddress);
      var i := GetPeerInfoForPeerID(peerID, peersInfo);
      if i < |peersInfo| {
        connAddrToPeersInfo := connAddrToPeersInfo[pidData.connectionAddress := peersInfo[..i] + peersInfo[i + 1..]];
      }
      tempPeerIDsWaitingForShard := tempPeerIDsWaitingForShard - {peerID};
      return true;
    }

    method Clear()
      modifies this
      ensures Value() == Cleared(old(Value()))
      ensures peerIDs == map[] && tempPeerIDsWaitingForShard == map[]
      ensures peerIDsPerShard == map[] && connAddrToPeersInfo == map[]
      ensures preferredConnAddresses == old(preferredConnAddresses)
    {
      tempPeerIDsWaitingForShard, peerIDsPerShard, peerIDs := map[], map[], map[];
      connAddrToPeersInfo := map[];
    }
  }
}
