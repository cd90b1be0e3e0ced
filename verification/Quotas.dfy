/** The quota cascade of ComputeEvictionList (libp2p/networksharding/listsSharder.go): quotas are
    granted along a chain of categories, and what one category leaves unused is passed on to the
    next. The cascade is the greedy solution of a nested quota problem, and the best one. */
module Quotas {
  /** computeUsedAndSpare */
  function UsedAndSpare(existing: nat, maximum: nat): (nat, nat) {
    if existing < maximum then (existing, maximum - existing) else (maximum, 0)
  }

  /** How many peers of each category are kept, when spare places were left over before. */
  function Keep(existing: seq<nat>, quotas: seq<nat>, spare: nat): (keep: seq<nat>)
    requires |existing| == |quotas|
    ensures |keep| == |existing|
  {
    if existing == [] then []
    else
      var (used, left) := UsedAndSpare(existing[0], quotas[0] + spare);
      [used] + Keep(existing[1..], quotas[1..], left)
  }

  /** The sum of the first n numbers. */
  function Prefix(s: seq<nat>, n: nat): nat
    requires n <= |s|
  {
    if n == 0 then 0 else s[0] + Prefix(s[1..], n - 1)
  }

  /** No category keeps more than it has, and the categories up to any point of the chain keep no
      more than the quotas up to there. */
  ghost predicate Feasible(keep: seq<nat>, existing: seq<nat>, quotas: seq<nat>, spare: nat)
    requires |keep| == |existing| == |quotas|
  {
    && (forall i :: 0 <= i < |keep| ==> keep[i] <= existing[i])
    && (forall n :: 0 <= n <= |keep| ==> Prefix(keep, n) <= spare + Prefix(quotas, n))
  }

  lemma {:induction false} KeepPrefix(existing: seq<nat>, quotas: seq<nat>, spare: nat, n: nat)
    requires |existing| == |quotas| && n <= |existing|
    ensures Prefix(Keep(existing, quotas, spare), n) <= spare + Prefix(quotas, n)
    decreases n
  {
    if n > 0 {
      var (used, left) := UsedAndSpare(existing[0], quotas[0] + spare);
      KeepPrefix(existing[1..], quotas[1..], left, n - 1);
      assert Keep(existing, quotas, spare)[1..] == Keep(existing[1..], quotas[1..], left);
    }
  }

  lemma {:induction false} KeepEach(existing: seq<nat>, quotas: seq<nat>, spare: nat, i: nat)
    requires |existing| == |quotas| && i < |existing|
    ensures Keep(existing, quotas, spare)[i] <= existing[i]
    ensures existing[i] <= quotas[i] ==> Keep(existing, quotas, spare)[i] == existing[i]
    decreases i
  {
    if i > 0 {
      var (used, left) := UsedAndSpare(existing[0], quotas[0] + spare);
      KeepEach(existing[1..], quotas[1..], left, i - 1);
    }
  }

  /** The cascade respects all quotas, and no category within its own quota loses a peer. */
  lemma {:induction false} KeepIsFeasible(existing: seq<nat>, quotas: seq<nat>)
    requires |existing| == |quotas|
    ensures Feasible(Keep(existing, quotas, 0), existing, quotas, 0)
    ensures forall i :: 0 <= i < |existing| && existing[i] <= quotas[i] ==>
              Keep(existing, quotas, 0)[i] == existing[i]
  {
    forall i | 0 <= i < |existing|
      ensures Keep(existing, quotas, 0)[i] <= existing[i]
      ensures existing[i] <= quotas[i] ==> Keep(existing, quotas, 0)[i] == existing[i]
    {
      KeepEach(existing, quotas, 0, i);
    }
    forall n | 0 <= n <= |existing|
      ensures Prefix(Keep(existing, quotas, 0), n) <= 0 + Prefix(quotas, n)
    {
      KeepPrefix(existing, quotas, 0, n);
    }
  }

  /** The exchange argument, with a debt: k may be ahead of the cascade by it so far. */
  lemma {:induction false} KeepAhead(k: seq<nat>, existing: seq<nat>, quotas: seq<nat>, spare: nat, debt: nat, n: nat)
    requires |k| == |existing| == |quotas| && n <= |k|
    requires forall i :: 0 <= i < |k| ==> k[i] <= existing[i]
    requires forall j :: 0 <= j <= |k| ==> Prefix(k, j) <= debt + spare + Prefix(quotas, j)
    ensures Prefix(k, n) <= debt + Prefix(Keep(existing, quotas, spare), n)
    decreases n
  {
    if n > 0 {
      var (used, left) := UsedAndSpare(existing[0], quotas[0] + spare);
      assert Prefix(k, 1) == k[0] + Prefix(k[1..], 0) && Prefix(quotas, 1) == quotas[0] + Prefix(quotas[1..], 0);
      assert k[0] <= debt + spare + quotas[0];
      var debt' := debt + used - k[0];
      forall j | 0 <= j <= |k[1..]|
        ensures Prefix(k[1..], j) <= debt' + left + Prefix(quotas[1..], j)
      {
        assert Prefix(k, j + 1) <= debt + spare + Prefix(quotas, j + 1);
      }
      KeepAhead(k[1..], existing[1..], quotas[1..], left, debt', n - 1);
      assert Keep(existing, quotas, spare)[1..] == Keep(existing[1..], quotas[1..], left);
    }
  }

  /** The cascade is optimal: no admissible choice keeps more peers on any prefix of the chain. */
  lemma {:induction false} KeepIsOptimal(k: seq<nat>, existing: seq<nat>, quotas: seq<nat>, n: nat)
    requires |k| == |existing| == |quotas| && n <= |k| && Feasible(k, existing, quotas, 0)
    ensures Prefix(k, n) <= Prefix(Keep(existing, quotas, 0), n)
  {
    KeepAhead(k, existing, quotas, 0, 0, n);
  }

  lemma {:induction false} PrefixMonotone(a: seq<nat>, b: seq<nat>, n: nat)
    requires |a| == |b| && n <= |a| && forall i :: 0 <= i < |a| ==> a[i] <= b[i]
    ensures Prefix(a, n) <= Prefix(b, n)
    ensures n == |a| && Prefix(a, n) == Prefix(b, n) ==> a == b
    decreases n
  {
    if n > 0 {
      PrefixMonotone(a[1..], b[1..], n - 1);
      if n == |a| && Prefix(a, n) == Prefix(b, n) {
        assert a == [a[0]] + a[1..] && b == [b[0]] + b[1..];
      }
    }
  }

  /** Nobody is dropped exactly when every prefix of the chain is within its quotas. */
  lemma {:induction false} KeepsAllIff(existing: seq<nat>, quotas: seq<nat>)
    requires |existing| == |quotas|
    ensures Keep(existing, quotas, 0) == existing <==> Feasible(existing, existing, quotas, 0)
  {
    KeepIsFeasible(existing, quotas);
    if Feasible(existing, existing, quotas, 0) {
      KeepIsOptimal(existing, existing, quotas, |existing|);
      PrefixMonotone(Keep(existing, quotas, 0), existing, |existing|);
    }
  }

  /** Fewer peers in some categories still fit. */
  lemma {:induction false} FeasibleSmaller(fewer: seq<nat>, existing: seq<nat>, quotas: seq<nat>)
    requires |fewer| == |existing| == |quotas|
    requires Feasible(existing, existing, quotas, 0)
    requires forall i :: 0 <= i < |fewer| ==> fewer[i] <= existing[i]
    ensures Feasible(fewer, fewer, quotas, 0)
  {
    forall n | 0 <= n <= |fewer|
      ensures Prefix(fewer, n) <= Prefix(quotas, n)
    {
      PrefixMonotone(fewer, existing, n);
    }
  }

  // ---------- five categories ----------

  /** The cascade, unrolled. */
  lemma FiveSteps(a: nat, b: nat, c: nat, d: nat, e: nat, qa: nat, qb: nat, qc: nat, qd: nat, qe: nat)
    ensures var (k0, r0) := UsedAndSpare(a, qa);
            var (k1, r1) := UsedAndSpare(b, qb + r0);
            var (k2, r2) := UsedAndSpare(c, qc + r1);
            var (k3, r3) := UsedAndSpare(d, qd + r2);
            var (k4, _) := UsedAndSpare(e, qe + r3);
            Keep([a, b, c, d, e], [qa, qb, qc, qd, qe], 0) == [k0, k1, k2, k3, k4]
  {
    hide UsedAndSpare, Keep;
    var (k0, r0) := UsedAndSpare(a, qa + 0);
    var (k1, r1) := UsedAndSpare(b, qb + r0);
    var (k2, r2) := UsedAndSpare(c, qc + r1);
    var (k3, r3) := UsedAndSpare(d, qd + r2);
    var (k4, r4) := UsedAndSpare(e, qe + r3);
    OneStep(e, qe, r3);
    TwoSteps(c, d, [e], qc, qd, [qe], r1, [k4]);
    TwoSteps(a, b, [c, d] + [e], qa, qb, [qc, qd] + [qe], 0, [k2, k3] + [k4]);
    FiveJoined(a, b, c, d, e);
    FiveJoined(qa, qb, qc, qd, qe);
    FiveJoined(k0, k1, k2, k3, k4);
  }

  lemma FiveJoined(a: nat, b: nat, c: nat, d: nat, e: nat)
    ensures [a, b] + ([c, d] + [e]) == [a, b, c, d, e]
  {
  }

  lemma OneStep(e: nat, q: nat, spare: nat)
    ensures Keep([e], [q], spare) == [UsedAndSpare(e, q + spare).0]
  {
    EmptyKeep(UsedAndSpare(e, q + spare).1);
    assert [e][1..] == [] && [q][1..] == [];
  }

  lemma TwoSteps(a: nat, b: nat, es: seq<nat>, qa: nat, qb: nat, qs: seq<nat>, spare: nat, keep: seq<nat>)
    requires |es| == |qs|
    requires var (ka, ra) := UsedAndSpare(a, qa + spare);
             var (kb, rb) := UsedAndSpare(b, qb + ra);
             Keep(es, qs, rb) == keep
    ensures var (ka, ra) := UsedAndSpare(a, qa + spare);
            var (kb, rb) := UsedAndSpare(b, qb + ra);
            Keep([a, b] + es, [qa, qb] + qs, spare) == [ka, kb] + keep
  {
    hide UsedAndSpare, Keep;
    var (ka, ra) := UsedAndSpare(a, qa + spare);
    KeepCons(b, es, qb, qs, ra);
    KeepCons(a, [b] + es, qa, [qb] + qs, spare);
    assert [a] + ([b] + es) == [a, b] + es;
    assert [qa] + ([qb] + qs) == [qa, qb] + qs;
  }

  lemma EmptyKeep(spare: nat)
    ensures Keep([], [], spare) == []
  {
  }

  lemma KeepCons(e: nat, es: seq<nat>, q: nat, qs: seq<nat>, spare: nat)
    requires |es| == |qs|
    ensures var (used, left) := UsedAndSpare(e, q + spare);
            Keep([e] + es, [q] + qs, spare) == [used] + Keep(es, qs, left)
  {
    assert ([e] + es)[1..] == es && ([q] + qs)[1..] == qs;
  }
}
