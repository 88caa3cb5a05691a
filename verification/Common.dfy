/** Shared value types and the one cyclic search that both worker loops of the RIL shim use. */
module Common {

  datatype Option<+T> = None | Some(value: T)

  /** Steps needed to go forward from `start` to `i` on a ring of `n` positions. */
  function Distance(start: nat, i: nat, n: nat): nat
    requires start < n && i < n
  {
    if start <= i then i - start else i + n - start
  }

  /** First set flag met when walking the ring from `start`, having already skipped `offset` positions. */
  function CyclicFirst(flags: seq<bool>, start: nat, offset: nat): (r: Option<nat>)
    requires start < |flags| && offset <= |flags|
    ensures r.Some? ==>
              && r.value < |flags| && flags[r.value]
              && offset <= Distance(start, r.value, |flags|)
              && forall j: nat :: j < |flags| && flags[j] && offset <= Distance(start, j, |flags|) ==>
                  Distance(start, r.value, |flags|) <= Distance(start, j, |flags|)
    ensures r.None? ==> forall j: nat :: j < |flags| && flags[j] ==> Distance(start, j, |flags|) < offset
    decreases |flags| - offset
  {
    if offset == |flags| then None
    else
      var i := RingIndex(start, offset, |flags|);
      assert forall j: nat :: j < |flags| && Distance(start, j, |flags|) == offset ==> j == i;
      if flags[i] then Some(i) else CyclicFirst(flags, start, offset + 1)
  }

  /** `(start + offset) % n`, the index expression of both loops. */
  function RingIndex(start: nat, offset: nat, n: nat): (i: nat)
    requires start < n && offset < n
    ensures i < n && Distance(start, i, n) == offset
  {
    assert (start + offset) % n == if start + offset < n then start + offset else start + offset - n by {
      WrapOnce(start + offset, n);
    }
    (start + offset) % n
  }

  lemma WrapOnce(x: nat, n: nat)
    requires x < 2 * n
    ensures x % n == if x < n then x else x - n
  {
    if x >= n {
      assert x == n * 1 + (x - n);
      assert x / n == 1;
    } else {
      assert x / n == 0;
    }
  }

  /** A finite set of naturals below `n` has at most `n` members. */
  lemma {:induction false} PigeonholeBound(s: set<nat>, n: nat)
    requires forall x :: x in s ==> x < n
    ensures |s| <= n
  {
    if n > 0 {
      PigeonholeBound(s - {n - 1}, n - 1);
      if n - 1 in s { assert s == (s - {n - 1}) + {n - 1}; } else { assert s - {n - 1} == s; }
    } else {
      assert s == {};
    }
  }
}
