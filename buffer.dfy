/** The in-place edits a node makes to its own key buffer and child buffer
    when it takes in one more entry. A buffer is an array whose first `n`
    slots are in use; what lies past them is unspecified. */
module Buffer {
  import opened Order

  /** Shift slots `i .. n-1` one place to the right and put `x` in slot `i`
      (set.c:104-112, the memmove and memcpy of a non-full node). */
  method ShiftInsert<T>(a: array<T>, n: nat, i: nat, x: T)
    requires i <= n < a.Length
    modifies a
    ensures a[..n + 1] == InsertAt(old(a[..n]), i, x)
    ensures a[n + 1..] == old(a[n + 1..])
  {
    var k := n;
    while k > i
      invariant i <= k <= n
      invariant forall t :: 0 <= t < k ==> a[t] == old(a[t])
      invariant forall t :: k < t <= n ==> a[t] == old(a[t - 1])
      invariant forall t :: n < t < a.Length ==> a[t] == old(a[t])
    {
      a[k] := a[k - 1];
      k := k - 1;
    }
    a[i] := x;
    InsertAtIndex(old(a[..n]), i, x);
    assert a[n + 1..] == old(a[n + 1..]);
  }

  /** Split a full buffer that must take in `x` at position `i` (set.c:131-160).
      Of the `n + 1` entries the buffer would hold, the first `keep` stay in
      `a`, entry `keep` is handed back as `mid`, and the entries from
      `keep + skip` on go to the fresh buffer `b`, which has the same
      capacity. Keys are split with `skip == 1` (the middle key leaves both
      halves), children with `skip == 0`. */
  method SplitInsert<T>(a: array<T>, n: nat, i: nat, x: T, keep: nat, skip: nat)
    returns (mid: T, b: array<T>)
    requires i <= n <= a.Length
    requires keep <= n && 1 <= keep + skip <= n + 1
    modifies a
    ensures fresh(b) && b.Length == a.Length
    ensures mid == InsertAt(old(a[..n]), i, x)[keep]
    ensures a[..keep] == InsertAt(old(a[..n]), i, x)[..keep]
    ensures b[..n + 1 - keep - skip] == InsertAt(old(a[..n]), i, x)[keep + skip..]
  {
    ghost var all := InsertAt(a[..n], i, x);
    InsertAtIndex(a[..n], i, x);
    b := new T[a.Length](_ => x);
    var rest := n + 1 - keep - skip;
    var j := 0;
    while j < rest
      invariant 0 <= j <= rest
      invariant a[..] == old(a[..])
      invariant forall t :: 0 <= t < j ==> b[t] == all[keep + skip + t]
    {
      var k := keep + skip + j;
      b[j] := if k < i then a[k] else if k == i then x else a[k - 1];
      j := j + 1;
    }
    mid := if keep < i then a[keep] else if keep == i then x else a[keep - 1];
    if i < keep {
      assert old(a[..n])[..keep - 1] == a[..keep - 1];
      ShiftInsert(a, keep - 1, i, x);
    } else {
      assert a[..keep] == old(a[..n])[..keep];
    }
  }
}
