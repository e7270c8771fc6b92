/** The search-tree order under insertion: every step of `TreeInsertion`
    keeps each node's keys ascending and each subtree inside the interval its
    parent's keys leave for it. */
module Ordering {
  import opened Order
  import opened Tree

  /** `FindIndex` returns the one position whose neighbours bracket `x`. */
  lemma {:induction false} FindIndexBetween(keys: seq<Elem>, x: Elem, i: nat)
    requires Ascending(keys) && i <= |keys|
    requires i > 0 ==> Less(keys[i - 1], x)
    requires i < |keys| ==> Less(x, keys[i])
    ensures FindIndex(keys, x) == i
  {
    if i > 0 {
      assert Less(keys[0], x) by {
        if i > 1 { assert Less(keys[0], keys[i - 1]); }
      }
      var t := keys[1..];
      assert Ascending(t);
      assert i - 1 > 0 ==> Less(t[i - 2], x);
      FindIndexBetween(t, x, i - 1);
    }
  }

  /** Where the search stops, `x` lies between the key bounds of that
      position, unless the key there is equivalent to it. */
  lemma FindIndexBrackets(n: Node, lo: Option<Elem>, hi: Option<Elem>, x: Elem)
    requires Within(x, lo, hi)
    requires FindIndex(n.keys, x) < |n.keys| ==> Less(x, n.keys[FindIndex(n.keys, x)])
    ensures Within(x, LowerOf(n, lo, FindIndex(n.keys, x)), UpperOf(n, hi, FindIndex(n.keys, x)))
  {
  }

  /** A node of keys `ks` and children `cs` is ready to take in `x` at `i`
      with right-hand child `rc`: the keys ascend inside the bounds, `x` fits
      between its neighbours, child `i` already lies left of `x`, `rc` lies
      right of it, and every other child lies in its own interval. */
  ghost predicate ReadyFor(n: Node, lo: Option<Elem>, hi: Option<Elem>, x: Elem, i: nat, rc: Option<Node>) {
    Ascending(n.keys) &&
    (forall k :: 0 <= k < |n.keys| ==> Within(n.keys[k], lo, hi)) &&
    i <= |n.keys| &&
    Within(x, LowerOf(n, lo, i), UpperOf(n, hi, i)) &&
    (forall j :: 0 <= j < |n.children| && j != i ==> Ordered(n.children[j], LowerOf(n, lo, j), UpperOf(n, hi, j))) &&
    (n.children != [] ==>
      |n.children| == |n.keys| + 1 && rc.Some? &&
      Ordered(n.children[i], LowerOf(n, lo, i), Some(x)) &&
      Ordered(rc.value, Some(x), UpperOf(n, hi, i)))
  }

  /** A fit lies inside the bounds; a split has its pivot inside them and
      each half on its own side of the pivot. */
  ghost predicate GrownOrdered(g: Grown, lo: Option<Elem>, hi: Option<Elem>) {
    match g
    case Fit(n) => Ordered(n, lo, hi)
    case Split(l, p, r) => Within(p, lo, hi) && Ordered(l, lo, Some(p)) && Ordered(r, Some(p), hi)
  }

  /** Placing `x` at `i` with `rc` right of it keeps the node ordered within
      the same bounds. */
  lemma SimpleInsertionOrdered(n: Node, lo: Option<Elem>, hi: Option<Elem>, x: Elem, i: nat, rc: Option<Node>)
    requires ReadyFor(n, lo, hi, x, i, rc)
    ensures Ordered(SimpleInsertion(n, x, i, rc), lo, hi)
  {
    var m := SimpleInsertion(n, x, i, rc);
    InsertedKeysOrdered(n, lo, hi, x, i, rc);
    if n.children != [] {
      InsertedChildrenOrdered(n, lo, hi, x, i, rc);
    }
    OrderedIntro(m, lo, hi);
  }

  /** The three parts of `Ordered` together give it. */
  lemma OrderedIntro(n: Node, lo: Option<Elem>, hi: Option<Elem>)
    requires Ascending(n.keys)
    requires forall k :: 0 <= k < |n.keys| ==> Within(n.keys[k], lo, hi)
    requires forall j :: 0 <= j < |n.children| ==> Ordered(n.children[j], LowerOf(n, lo, j), UpperOf(n, hi, j))
    ensures Ordered(n, lo, hi)
  {
  }

  /** The keys with `x` placed at `i` ascend inside the bounds. */
  lemma InsertedKeysOrdered(n: Node, lo: Option<Elem>, hi: Option<Elem>, x: Elem, i: nat, rc: Option<Node>)
    requires ReadyFor(n, lo, hi, x, i, rc)
    ensures Ascending(SimpleInsertion(n, x, i, rc).keys)
    ensures forall k :: 0 <= k < |SimpleInsertion(n, x, i, rc).keys| ==> Within(SimpleInsertion(n, x, i, rc).keys[k], lo, hi)
  {
    var keys := InsertAt(n.keys, i, x);
    assert SimpleInsertion(n, x, i, rc).keys == keys;
    InsertAtIndex(n.keys, i, x);
    assert Within(x, lo, hi) by {
      if i > 0 { assert Within(n.keys[i - 1], lo, hi); }
      if i < |n.keys| { assert Within(n.keys[i], lo, hi); }
    }
    assert i > 0 ==> Less(n.keys[i - 1], x);
    assert i < |n.keys| ==> Less(x, n.keys[i]);
    AscendingInsertAt(n.keys, i, x);
    forall k | 0 <= k < |keys| ensures Within(keys[k], lo, hi) {
      if k < i { assert keys[k] == n.keys[k]; } else if k > i { assert keys[k] == n.keys[k - 1]; }
    }
  }

  /** With `x` at `i` and `rc` right of it, every child lies between the keys
      either side of it. */
  lemma InsertedChildrenOrdered(n: Node, lo: Option<Elem>, hi: Option<Elem>, x: Elem, i: nat, rc: Option<Node>)
    requires ReadyFor(n, lo, hi, x, i, rc) && n.children != []
    ensures var m := SimpleInsertion(n, x, i, rc);
      forall j :: 0 <= j < |m.children| ==> Ordered(m.children[j], LowerOf(m, lo, j), UpperOf(m, hi, j))
  {
    var m := SimpleInsertion(n, x, i, rc);
    var kids := m.children;
    assert m.keys == InsertAt(n.keys, i, x);
    assert kids == InsertAt(n.children, i + 1, rc.value);
    InsertAtIndex(n.keys, i, x);
    InsertAtIndex(n.children, i + 1, rc.value);
    forall j | 0 <= j < |kids| ensures Ordered(kids[j], LowerOf(m, lo, j), UpperOf(m, hi, j)) {
      if j <= i {
        assert kids[j] == n.children[j];
        assert LowerOf(m, lo, j) == LowerOf(n, lo, j);
        assert j < i ==> UpperOf(m, hi, j) == UpperOf(n, hi, j);
      } else if j == i + 1 {
        assert UpperOf(m, hi, j) == UpperOf(n, hi, i);
      } else {
        assert kids[j] == n.children[j - 1];
        assert LowerOf(m, lo, j) == LowerOf(n, lo, j - 1);
        assert UpperOf(m, hi, j) == UpperOf(n, hi, j - 1);
      }
    }
  }

  /** Cutting an ordered node around key `m` gives two ordered halves on
      either side of that key. */
  lemma HalvesOrdered(w: Node, m: nat, lo: Option<Elem>, hi: Option<Elem>)
    requires m < |w.keys|
    requires w.children == [] || |w.children| == |w.keys| + 1
    requires Ordered(w, lo, hi)
    ensures GrownOrdered(Halves(w, m), lo, hi)
  {
    var l := Node(w.keys[..m], if w.children == [] then [] else w.children[..m + 1]);
    var r := Node(w.keys[m + 1..], if w.children == [] then [] else w.children[m + 1..]);
    assert Halves(w, m) == Split(l, w.keys[m], r);
    LeftHalfOrdered(w, m, lo, hi);
    RightHalfOrdered(w, m, lo, hi);
  }

  lemma LeftHalfOrdered(w: Node, m: nat, lo: Option<Elem>, hi: Option<Elem>)
    requires m < |w.keys|
    requires w.children == [] || |w.children| == |w.keys| + 1
    requires Ordered(w, lo, hi)
    ensures Ordered(Node(w.keys[..m], if w.children == [] then [] else w.children[..m + 1]), lo, Some(w.keys[m]))
  {
    var l := Node(w.keys[..m], if w.children == [] then [] else w.children[..m + 1]);
    var p := Some(w.keys[m]);
    forall k | 0 <= k < |l.keys| ensures Within(l.keys[k], lo, p) {
      assert l.keys[k] == w.keys[k];
    }
    forall j | 0 <= j < |l.children| ensures Ordered(l.children[j], LowerOf(l, lo, j), UpperOf(l, p, j)) {
      assert l.children[j] == w.children[j];
      assert LowerOf(l, lo, j) == LowerOf(w, lo, j);
      assert UpperOf(l, p, j) == UpperOf(w, hi, j);
    }
    OrderedIntro(l, lo, p);
  }

  lemma RightHalfOrdered(w: Node, m: nat, lo: Option<Elem>, hi: Option<Elem>)
    requires m < |w.keys|
    requires w.children == [] || |w.children| == |w.keys| + 1
    requires Ordered(w, lo, hi)
    ensures Within(w.keys[m], lo, hi)
    ensures Ordered(Node(w.keys[m + 1..], if w.children == [] then [] else w.children[m + 1..]), Some(w.keys[m]), hi)
  {
    var r := Node(w.keys[m + 1..], if w.children == [] then [] else w.children[m + 1..]);
    var p := Some(w.keys[m]);
    forall k | 0 <= k < |r.keys| ensures Within(r.keys[k], p, hi) {
      assert r.keys[k] == w.keys[m + 1 + k];
    }
    forall j | 0 <= j < |r.children| ensures Ordered(r.children[j], LowerOf(r, p, j), UpperOf(r, hi, j)) {
      assert r.children[j] == w.children[m + 1 + j];
      assert LowerOf(r, p, j) == LowerOf(w, lo, m + 1 + j);
      assert UpperOf(r, hi, j) == UpperOf(w, hi, m + 1 + j);
    }
    OrderedIntro(r, p, hi);
  }

  /** Node-level insertion at the index the search picks keeps the order. */
  lemma NodeInsertionOrdered(n: Node, lo: Option<Elem>, hi: Option<Elem>, x: Elem, rc: Option<Node>, order: TreeOrder)
    requires n.children == [] || |n.children| == |n.keys| + 1
    requires rc.Some? <==> n.children != []
    requires ReadyFor(n, lo, hi, x, FindIndex(n.keys, x), rc)
    ensures GrownOrdered(NodeInsertion(n, x, rc, order), lo, hi)
  {
    var i := FindIndex(n.keys, x);
    var w := SimpleInsertion(n, x, i, rc);
    SimpleInsertionOrdered(n, lo, hi, x, i, rc);
    if |n.keys| < MaxKeys(order) {
      assert NodeInsertion(n, x, rc, order) == Fit(w);
    } else {
      var m := (|n.keys| - 1) / 2 + 1;
      assert NodeInsertion(n, x, rc, order) == Halves(w, m);
      HalvesOrdered(w, m, lo, hi);
    }
  }

  /** Replacing a child by one inside the same interval keeps the node ordered. */
  lemma ReplaceChildOrdered(n: Node, lo: Option<Elem>, hi: Option<Elem>, i: nat, c: Node)
    requires Ordered(n, lo, hi) && i < |n.children|
    requires Ordered(c, LowerOf(n, lo, i), UpperOf(n, hi, i))
    ensures Ordered(n.(children := n.children[i := c]), lo, hi)
  {
    var n1 := n.(children := n.children[i := c]);
    forall j | 0 <= j < |n1.children| ensures Ordered(n1.children[j], LowerOf(n1, lo, j), UpperOf(n1, hi, j)) {
      assert LowerOf(n1, lo, j) == LowerOf(n, lo, j) && UpperOf(n1, hi, j) == UpperOf(n, hi, j);
    }
  }

  /** Tree insertion keeps the search-tree order: the result fits in the
      same bounds, or splits into a pivot inside them with each half on its
      side of the pivot. */
  lemma {:induction false} TreeInsertionOrdered(n: Node, lo: Option<Elem>, hi: Option<Elem>, x: Elem, order: TreeOrder)
    requires WellFormed(n) && Ordered(n, lo, hi) && Within(x, lo, hi)
    ensures GrownOrdered(TreeInsertion(n, x, order), lo, hi)
  {
    var i := FindIndex(n.keys, x);
    if i < |n.keys| && !Less(x, n.keys[i]) {
      assert TreeInsertion(n, x, order) == Fit(n);
      return;
    }
    FindIndexBrackets(n, lo, hi, x);
    if n.children == [] {
      assert TreeInsertion(n, x, order) == NodeInsertion(n, x, None, order);
      NodeInsertionOrdered(n, lo, hi, x, None, order);
    } else {
      var c := n.children[i];
      TreeInsertionOrdered(c, LowerOf(n, lo, i), UpperOf(n, hi, i), x, order);
      match TreeInsertion(c, x, order)
      case Fit(c') =>
        assert TreeInsertion(n, x, order) == Fit(n.(children := n.children[i := c']));
        ReplaceChildOrdered(n, lo, hi, i, c');
      case Split(l, p, r) =>
        var n1 := n.(children := n.children[i := l]);
        assert TreeInsertion(n, x, order) == NodeInsertion(n1, p, Some(r), order);
        FindIndexBetween(n.keys, p, i);
        assert LowerOf(n1, lo, i) == LowerOf(n, lo, i) && UpperOf(n1, hi, i) == UpperOf(n, hi, i);
        forall j | 0 <= j < |n1.children| && j != i
          ensures Ordered(n1.children[j], LowerOf(n1, lo, j), UpperOf(n1, hi, j))
        {
          assert LowerOf(n1, lo, j) == LowerOf(n, lo, j) && UpperOf(n1, hi, j) == UpperOf(n, hi, j);
        }
        assert ReadyFor(n1, lo, hi, p, FindIndex(n1.keys, p), Some(r));
        NodeInsertionOrdered(n1, lo, hi, p, Some(r), order);
    }
  }
}
