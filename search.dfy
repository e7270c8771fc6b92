/** The search of set_tree_contains is exact on an ordered tree: it finds an
    element exactly when an equivalent one is stored, and what it hands back
    is that stored element. */
module Search {
  import opened Order
  import opened Tree

  /** An element stored under a sequence of children is stored under one
      of them. */
  lemma {:induction false} ElementsAllMember(cs: seq<Node>, e: Elem) returns (j: nat)
    requires e in ElementsAll(cs)
    ensures j < |cs| && e in Elements(cs[j])
  {
    if e in Elements(cs[0]) {
      j := 0;
    } else {
      var j' := ElementsAllMember(cs[1..], e);
      j := j' + 1;
    }
  }

  /** Each key of an ordered node lies within the bounds its parent leaves
      for it, so child bounds nest inside the node's. */
  lemma ChildBoundsNest(n: Node, lo: Option<Elem>, hi: Option<Elem>, j: nat, e: Elem)
    requires Ordered(n, lo, hi) && j <= |n.keys|
    requires Within(e, LowerOf(n, lo, j), UpperOf(n, hi, j))
    ensures Within(e, lo, hi)
  {
    if 0 < j { assert Within(n.keys[j - 1], lo, hi); }
    if j < |n.keys| { assert Within(n.keys[j], lo, hi); }
  }

  /** Everything stored under an ordered node lies strictly between its
      bounds. */
  lemma {:induction false} OrderedWithin(n: Node, lo: Option<Elem>, hi: Option<Elem>, e: Elem)
    requires WellFormed(n) && Ordered(n, lo, hi) && e in Elements(n)
    ensures Within(e, lo, hi)
  {
    if e !in multiset(n.keys) {
      var j := ElementsAllMember(n.children, e);
      OrderedWithin(n.children[j], LowerOf(n, lo, j), UpperOf(n, hi, j), e);
      ChildBoundsNest(n, lo, hi, j, e);
    }
  }

  /** A search that comes back empty-handed missed nothing: no stored element
      is equivalent to `x`. */
  lemma {:induction false} FindComplete(n: Node, lo: Option<Elem>, hi: Option<Elem>, x: Elem, e: Elem)
    requires WellFormed(n) && Ordered(n, lo, hi) && e in Elements(n)
    requires Find(n, x).None?
    ensures !Equiv(e, x)
  {
    var i := FindIndex(n.keys, x);
    assert i < |n.keys| ==> Less(x, n.keys[i]);
    if e in multiset(n.keys) {
      KeysMiss(n.keys, x, e);
    } else {
      var j := ElementsAllMember(n.children, e);
      if j == i {
        FindComplete(n.children[j], LowerOf(n, lo, j), UpperOf(n, hi, j), x, e);
      } else {
        OtherChildMiss(n, lo, hi, x, j, e);
      }
    }
  }

  /** When the key where the search stops is above `x`, no key is
      equivalent to it. */
  lemma KeysMiss(keys: seq<Elem>, x: Elem, e: Elem)
    requires Ascending(keys) && e in keys
    requires FindIndex(keys, x) < |keys| ==> Less(x, keys[FindIndex(keys, x)])
    ensures !Equiv(e, x)
  {
    var i := FindIndex(keys, x);
    var k :| 0 <= k < |keys| && keys[k] == e;
    if k > i { assert Less(keys[i], keys[k]); }
  }

  /** The children the search passes over hold nothing equivalent to `x`. */
  lemma OtherChildMiss(n: Node, lo: Option<Elem>, hi: Option<Elem>, x: Elem, j: nat, e: Elem)
    requires WellFormed(n) && Ordered(n, lo, hi) && j < |n.children|
    requires e in Elements(n.children[j]) && j != FindIndex(n.keys, x)
    requires FindIndex(n.keys, x) < |n.keys| ==> Less(x, n.keys[FindIndex(n.keys, x)])
    ensures !Equiv(e, x)
  {
    var i := FindIndex(n.keys, x);
    OrderedWithin(n.children[j], LowerOf(n, lo, j), UpperOf(n, hi, j), e);
    if j > i + 1 { assert Less(n.keys[i], n.keys[j - 1]); }
  }

  /** set_contains, stated both ways (set.h:22-25): the search finds an
      element exactly when an equivalent one is stored, and what it finds is
      stored and equivalent to `x`. */
  lemma FindExact(n: Node, lo: Option<Elem>, hi: Option<Elem>, x: Elem)
    requires WellFormed(n) && Ordered(n, lo, hi)
    ensures Find(n, x).Some? <==> exists e :: e in Elements(n) && Equiv(e, x)
    ensures Find(n, x).Some? ==> Find(n, x).value in Elements(n) && Equiv(Find(n, x).value, x)
  {
    if Find(n, x).None? {
      forall e | e in Elements(n) ensures !Equiv(e, x) {
        FindComplete(n, lo, hi, x, e);
      }
    }
  }
}
