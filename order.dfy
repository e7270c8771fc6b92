/** Elements of the set, the caller's `less` ordering, and the facts about
    ordered sequences that the tree relies on. */
module Order {

  /** Knuth order of the tree: the most children a node may have. The set
      stores it in a `uint8_t` and demands that it be at least 2. */
  type TreeOrder = o: int | 2 <= o < 256 witness 2

  /** Most keys a node holds: order - 1. */
  function MaxKeys(order: TreeOrder): nat { order - 1 }

  /** Fewest keys a non-root node holds once an insertion completes:
      ceil(order / 2) - 1, written without ceiling. */
  function MinKeys(order: TreeOrder): nat { (order - 1) / 2 }

  /** A stored element. The set looks at it only through `Less`, which reads
      `key`; `payload` travels with the element, so two elements can be
      equivalent without being equal, and a lookup can hand back a stored
      element that differs from the one asked for. */
  datatype Elem = Elem(key: int, payload: int)

  datatype Option<T> = None | Some(value: T)

  /** The caller's comparison: `Less(x, y)` holds when x strictly precedes y. */
  predicate Less(x: Elem, y: Elem) { x.key < y.key }

  /** Equivalence, derived from `Less` alone: neither precedes the other. */
  predicate Equiv(x: Elem, y: Elem) { !Less(x, y) && !Less(y, x) }

  /** `Less` is a strict weak order and `Equiv` is the equivalence it induces. */
  lemma LessIsStrictWeakOrder(x: Elem, y: Elem, z: Elem)
    ensures !Less(x, x)
    ensures Less(x, y) ==> !Less(y, x)
    ensures Less(x, y) && Less(y, z) ==> Less(x, z)
    ensures Equiv(x, x)
    ensures Equiv(x, y) ==> Equiv(y, x)
    ensures Equiv(x, y) && Equiv(y, z) ==> Equiv(x, z)
    ensures Less(x, y) && Equiv(y, z) ==> Less(x, z)
    ensures Equiv(x, y) <==> x.key == y.key
  {
  }

  /** `e` lies strictly above the optional lower bound (none: no bound). */
  predicate Above(lo: Option<Elem>, e: Elem) { lo.None? || Less(lo.value, e) }

  /** `e` lies strictly below the optional upper bound (none: no bound). */
  predicate Below(e: Elem, hi: Option<Elem>) { hi.None? || Less(e, hi.value) }

  /** `e` lies in the open interval between the two bounds. */
  predicate Within(e: Elem, lo: Option<Elem>, hi: Option<Elem>) { Above(lo, e) && Below(e, hi) }

  /** Strictly ascending under `Less`: no two entries are equivalent. */
  ghost predicate Ascending(s: seq<Elem>) {
    forall p, q :: 0 <= p < q < |s| ==> Less(s[p], s[q])
  }

  /** `s` with `x` placed at position `i` and everything from `i` on moved one
      place to the right. */
  function InsertAt<T>(s: seq<T>, i: nat, x: T): (r: seq<T>)
    requires i <= |s|
    ensures |r| == |s| + 1
  {
    s[..i] + [x] + s[i..]
  }

  /** Entry by entry: before `i` as in `s`, then `x`, then `s` shifted by one. */
  lemma InsertAtIndex<T>(s: seq<T>, i: nat, x: T)
    requires i <= |s|
    ensures forall k :: 0 <= k < |s| + 1 ==>
      InsertAt(s, i, x)[k] == if k < i then s[k] else if k == i then x else s[k - 1]
  {
    var r := InsertAt(s, i, x);
    forall k | 0 <= k < |s| + 1
      ensures r[k] == if k < i then s[k] else if k == i then x else s[k - 1]
    {
      if k < i {
        assert r[k] == s[..i][k];
      } else if k > i {
        assert r[k] == s[i..][k - i - 1];
      }
    }
  }

  /** Placing `x` between its neighbours keeps an ascending sequence ascending. */
  lemma AscendingInsertAt(s: seq<Elem>, i: nat, x: Elem)
    requires i <= |s| && Ascending(s)
    requires i > 0 ==> Less(s[i - 1], x)
    requires i < |s| ==> Less(x, s[i])
    ensures Ascending(InsertAt(s, i, x))
  {
    var r := InsertAt(s, i, x);
    InsertAtIndex(s, i, x);
    forall p, q | 0 <= p < q < |r| ensures Less(r[p], r[q]) {
      if q < i {
      } else if q == i {
        assert Less(s[p], s[i - 1]) || p == i - 1;
      } else if p == i {
        assert Less(s[i], s[q - 1]) || q - 1 == i;
      } else if p < i {
        assert Less(s[p], s[q - 1]);
      } else {
        assert Less(s[p - 1], s[q - 1]);
      }
    }
  }

  /** An ascending sequence holds each of its elements exactly once. */
  lemma {:induction false} AscendingOccursOnce(s: seq<Elem>)
    requires Ascending(s)
    ensures forall e :: multiset(s)[e] == if e in s then 1 else 0
  {
    if s != [] {
      var t := s[1..];
      assert Ascending(t);
      AscendingOccursOnce(t);
      assert s == [s[0]] + t;
      assert s[0] !in t by {
        forall k | 0 <= k < |t| ensures t[k] != s[0] { assert Less(s[0], s[k + 1]); }
      }
      forall e ensures multiset(s)[e] == if e in s then 1 else 0 {
        assert multiset(s)[e] == multiset([s[0]])[e] + multiset(t)[e];
        assert e in s <==> e == s[0] || e in t;
      }
    }
  }

  /** Ascending sequences join around a separator that lies between them. */
  lemma AscendingJoin(a: seq<Elem>, k: Elem, b: seq<Elem>)
    requires Ascending(a) && Ascending(b)
    requires forall e :: e in a ==> Less(e, k)
    requires forall e :: e in b ==> Less(k, e)
    ensures Ascending(a + [k] + b)
  {
    var s := a + [k] + b;
    forall p, q | 0 <= p < q < |s| ensures Less(s[p], s[q]) {
      if q < |a| {
      } else if q == |a| {
        assert s[p] in a;
      } else if p > |a| {
        assert s[p] == b[p - |a| - 1] && s[q] == b[q - |a| - 1];
      } else if p == |a| {
        assert s[q] in b;
      } else {
        assert s[p] in a && s[q] in b;
      }
    }
  }
}
