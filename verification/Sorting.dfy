/** libp2p/networksharding/sorting/peerDistances.go: the slice of peers that the eviction sorts by
    distance. The sort of the Go library is not stable, and only that it leaves a sorted
    permutation is used; the insertion sort here stands for it, and like it works through Len,
    Less and Swap alone. */
module Sorting {
  import opened Wrappers

  datatype PeerDistance = PeerDistance(id: PeerId, distance: nat)

  ghost predicate IsSorted(s: seq<PeerDistance>) {
    forall i, j :: 0 <= i < j < |s| ==> s[i].distance <= s[j].distance
  }

  /** t is a sorted permutation of s. */
  ghost predicate SortedVersion(t: seq<PeerDistance>, s: seq<PeerDistance>) {
    IsSorted(t) && multiset(t) == multiset(s)
  }

  method Len(pd: array<PeerDistance>) returns (n: nat)
    ensures n == pd.Length
  {
    n := pd.Length;
  }

  method Less(pd: array<PeerDistance>, i: nat, j: nat) returns (less: bool)
    requires i < pd.Length && j < pd.Length
    ensures less <==> pd[i].distance < pd[j].distance
  {
    less := pd[i].distance < pd[j].distance;
  }

  method Swap(pd: array<PeerDistance>, i: nat, j: nat)
    requires i < pd.Length && j < pd.Length
    modifies pd
    ensures pd[..] == old(pd[..])[i := old(pd[j])][j := old(pd[i])]
    ensures multiset(pd[..]) == old(multiset(pd[..]))
  {
    pd[i], pd[j] := pd[j], pd[i];
  }

  /** Sorted, if entry k is left aside. */
  ghost predicate SortedBut(s: seq<PeerDistance>, n: nat, k: nat) {
    n <= |s| && forall i, j :: 0 <= i < j < n && i != k && j != k ==> s[i].distance <= s[j].distance
  }

  /** Brings entry n into place among the sorted entries before it. */
  method Insert(pd: array<PeerDistance>, n: nat)
    requires n < pd.Length && IsSorted(pd[..n])
    modifies pd
    ensures IsSorted(pd[..n + 1]) && multiset(pd[..]) == old(multiset(pd[..]))
  {
    var k := n;
    while k > 0
      invariant 0 <= k <= n
      invariant SortedBut(pd[..], n + 1, k)
      invariant forall j :: k < j <= n ==> pd[k].distance < pd[j].distance
      invariant multiset(pd[..]) == old(multiset(pd[..]))
    {
      var less := Less(pd, k, k - 1);
      if !less {
        return;
      }
      Swap(pd, k, k - 1);
      k := k - 1;
    }
  }

  /** sort.Sort */
  method Sort(pd: array<PeerDistance>)
    modifies pd
    ensures SortedVersion(pd[..], old(pd[..]))
  {
    var len := Len(pd);
    for n := 0 to len
      invariant IsSorted(pd[..n]) && multiset(pd[..]) == old(multiset(pd[..]))
    {
      Insert(pd, n);
    }
    assert pd[..len] == pd[..];
  }
}
