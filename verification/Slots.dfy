/** Queues of slot numbers out of a pool of n slots. */
module Slots {
  /** Slots below n, none of them twice. */
  ghost predicate Distinct(q: seq<nat>, n: nat) {
    (forall i :: 0 <= i < |q| ==> q[i] < n) && forall i, j :: 0 <= i < j < |q| ==> q[i] != q[j]
  }

  function Without(q: seq<nat>, k: nat): seq<nat>
    requires k < |q|
  {
    q[..k] + q[k + 1..]
  }

  lemma RemoveOne(q: seq<nat>, k: nat, n: nat)
    requires Distinct(q, n) && k < |q|
    ensures Distinct(Without(q, k), n) && q[k] !in Without(q, k)
    ensures forall s :: s in q <==> s in Without(q, k) || s == q[k]
  {
    var r := Without(q, k);
    assert forall i :: 0 <= i < |r| ==> r[i] == q[if i < k then i else i + 1];
    forall s | s in q
      ensures s in r || s == q[k]
    {
      var i :| 0 <= i < |q| && q[i] == s;
      assert i < k ==> r[i] == s;
      assert i > k ==> r[i - 1] == s;
    }
  }

  lemma AppendOne(q: seq<nat>, s: nat, n: nat)
    requires Distinct(q, n) && s < n && s !in q
    ensures Distinct(q + [s], n)
  {
  }

  /** Splitting the pool: each slot is in exactly one of two queues. */
  ghost predicate Partition(a: seq<nat>, b: seq<nat>, n: nat) {
    Distinct(a, n) && Distinct(b, n) && |a| + |b| == n && forall s :: s in a ==> s !in b
  }

  /** Moving slot k of the first queue to the end of the second. */
  lemma MoveOne(a: seq<nat>, b: seq<nat>, k: nat, n: nat)
    requires Partition(a, b, n) && k < |a|
    ensures Partition(Without(a, k), b + [a[k]], n)
  {
    RemoveOne(a, k, n);
    AppendOne(b, a[k], n);
  }

  lemma PartitionSwap(a: seq<nat>, b: seq<nat>, n: nat)
    requires Partition(a, b, n)
    ensures Partition(b, a, n)
  {
  }

  /** No slots are lost: n different slots below n are all of them. */
  lemma {:induction false} Pigeonhole(q: seq<nat>, n: nat, s: nat)
    requires Distinct(q, n) && |q| == n && s < n
    ensures s in q
  {
    if s !in q {
      AppendOne(q, s, n);
      TooMany(q + [s], n);
    }
  }

  /** There are at most n different slots below n. */
  lemma {:induction false} TooMany(q: seq<nat>, n: nat)
    requires Distinct(q, n)
    ensures |q| <= n
  {
    assert |q| > 0 ==> q[0] < n;
    if n == 0 {
    } else if n - 1 in q {
      var k :| 0 <= k < |q| && q[k] == n - 1;
      RemoveOne(q, k, n);
      var r := Without(q, k);
      assert forall i :: 0 <= i < |r| ==> r[i] in r;
      TooMany(r, n - 1);
    } else {
      assert forall i :: 0 <= i < |q| ==> q[i] in q;
      TooMany(q, n - 1);
    }
  }

  /** Every slot of the pool is in one of the two queues, and in one only. */
  lemma PartitionCovers(a: seq<nat>, b: seq<nat>, n: nat, s: nat)
    requires Partition(a, b, n) && s < n
    ensures s in a <==> s !in b
  {
    assert forall i :: 0 <= i < |a| ==> a[i] in a;
    assert forall i :: 0 <= i < |b| ==> b[i] in b;
    Pigeonhole(a + b, n, s);
  }

  /** Where a slot is in a queue. */
  function IndexOf(q: seq<nat>, s: nat): (k: nat)
    requires s in q
    ensures k < |q| && q[k] == s
  {
    if q[|q| - 1] == s then |q| - 1 else IndexOf(q[..|q| - 1], s)
  }

  function Delete(q: seq<nat>, s: nat): seq<nat>
    requires s in q
  {
    Without(q, IndexOf(q, s))
  }

  /** A queue that is shorter than the pool lacks a slot. */
  lemma {:induction false} SomeMissing(q: seq<nat>, n: nat) returns (s: nat)
    requires Distinct(q, n) && |q| < n
    ensures s < n && s !in q
  {
    if n - 1 !in q {
      return n - 1;
    }
    var k := IndexOf(q, n - 1);
    RemoveOne(q, k, n);
    var r := Without(q, k);
    assert forall i :: 0 <= i < |r| ==> r[i] in r;
    s := SomeMissing(r, n - 1);
  }

  /** A queue that lacks one slot lacks no other. */
  lemma OnlyMissing(q: seq<nat>, n: nat, s: nat, t: nat)
    requires Distinct(q, n) && |q| == n - 1 && s < n && t < n && s !in q && t !in q
    ensures s == t
  {
    if s != t {
      AppendOne(q, s, n);
      AppendOne(q + [s], t, n);
      TooMany(q + [s] + [t], n);
    }
  }

  ghost function Missing(q: seq<nat>, n: nat): set<nat> {
    set s: nat | s < n && s !in q
  }

  /** The slots that are not in the queue are as many as it lacks. */
  lemma {:induction false} CountMissing(q: seq<nat>, n: nat)
    requires Distinct(q, n)
    ensures |Missing(q, n)| == n - |q|
  {
    TooMany(q, n);
    if n == 0 {
      assert Missing(q, n) == {};
    } else if n - 1 in q {
      var k := IndexOf(q, n - 1);
      RemoveOne(q, k, n);
      var r := Without(q, k);
      assert forall i :: 0 <= i < |r| ==> r[i] in r;
      CountMissing(r, n - 1);
      assert Missing(q, n) == Missing(r, n - 1);
    } else {
      assert forall i :: 0 <= i < |q| ==> q[i] in q;
      CountMissing(q, n - 1);
      assert Missing(q, n) == Missing(q, n - 1) + {n - 1};
    }
  }
}
