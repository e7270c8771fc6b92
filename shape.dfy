/** The B-tree shape under insertion: every node keeps between MinKeys and
    MaxKeys keys (the root at least one), an internal node keeps one child
    more than it has keys, and all leaves stay at the same depth. */
module Shape {
  import opened Order
  import opened Tree

  /** The layout of `w` and everything below it, leaving out the key count of
      `w` itself: its children are shaped non-root nodes whose leaves lie
      `h - 1` levels down. */
  ghost predicate Subtrees(w: Node, order: TreeOrder, h: nat) {
    (w.children == [] || |w.children| == |w.keys| + 1) &&
    (w.children == [] <==> h == 0) &&
    forall j :: 0 <= j < |w.children| ==> Shaped(w.children[j], order, false) && LeavesAt(w.children[j], h - 1)
  }

  /** The key count a node of the given kind may hold. */
  ghost predicate KeyCount(n: Node, order: TreeOrder, isRoot: bool) {
    |n.keys| <= MaxKeys(order) && (if isRoot then 1 <= |n.keys| else MinKeys(order) <= |n.keys|)
  }

  /** A shaped node whose leaves lie `h` levels down is exactly a node with a
      fitting key count over shaped subtrees. */
  lemma ShapedSplitUp(n: Node, order: TreeOrder, isRoot: bool, h: nat)
    ensures Shaped(n, order, isRoot) && LeavesAt(n, h) <==> KeyCount(n, order, isRoot) && Subtrees(n, order, h)
  {
  }

  /** What insertion at one level leaves behind: a node of the same kind at
      the same height, or two non-root halves at that height. */
  ghost predicate GrownShaped(g: Grown, order: TreeOrder, isRoot: bool, h: nat) {
    match g
    case Fit(n) => Shaped(n, order, isRoot) && LeavesAt(n, h)
    case Split(l, _, r) =>
      Shaped(l, order, false) && LeavesAt(l, h) && Shaped(r, order, false) && LeavesAt(r, h)
  }

  /** The layout of set.c:14-16 follows from the shape. */
  lemma {:induction false} ShapedWellFormed(n: Node, order: TreeOrder, isRoot: bool)
    requires Shaped(n, order, isRoot)
    ensures WellFormed(n)
  {
    forall j | 0 <= j < |n.children| ensures WellFormed(n.children[j]) {
      ShapedWellFormed(n.children[j], order, false);
    }
  }

  /** All leaves at depth `h` means the height is `h`. */
  lemma {:induction false} LeavesAtHeight(n: Node, h: nat)
    requires LeavesAt(n, h)
    ensures Height(n) == h
  {
    if n.children != [] {
      LeavesAtHeight(n.children[0], h - 1);
    }
  }

  /** Placing a key (and, in an internal node, a right-hand child of the
      right height) adds one key and keeps the subtrees shaped. */
  lemma SimpleInsertionSubtrees(n: Node, x: Elem, i: nat, rc: Option<Node>, order: TreeOrder, h: nat)
    requires Subtrees(n, order, h) && i <= |n.keys|
    requires rc.Some? <==> n.children != []
    requires rc.Some? ==> Shaped(rc.value, order, false) && LeavesAt(rc.value, h - 1)
    ensures |SimpleInsertion(n, x, i, rc).keys| == |n.keys| + 1
    ensures Subtrees(SimpleInsertion(n, x, i, rc), order, h)
  {
    var w := SimpleInsertion(n, x, i, rc);
    if n.children != [] {
      assert w.children == InsertAt(n.children, i + 1, rc.value);
      InsertAtIndex(n.children, i + 1, rc.value);
      forall j | 0 <= j < |w.children| ensures Shaped(w.children[j], order, false) && LeavesAt(w.children[j], h - 1) {
        if j < i + 1 {
          assert w.children[j] == n.children[j];
        } else if j > i + 1 {
          assert w.children[j] == n.children[j - 1];
        }
      }
    }
  }

  /** Cutting a node with shaped subtrees gives two halves with shaped
      subtrees: `m` keys on the left and the rest but the pivot on the right. */
  lemma HalvesSubtrees(w: Node, m: nat, order: TreeOrder, h: nat)
    requires m < |w.keys| && Subtrees(w, order, h)
    ensures |Halves(w, m).left.keys| == m
    ensures |Halves(w, m).right.keys| == |w.keys| - m - 1
    ensures Subtrees(Halves(w, m).left, order, h)
    ensures Subtrees(Halves(w, m).right, order, h)
  {
    var g := Halves(w, m);
    if w.children != [] {
      assert g.left.children == w.children[..m + 1];
      assert g.right.children == w.children[m + 1..];
      forall j | 0 <= j < |g.right.children|
        ensures Shaped(g.right.children[j], order, false) && LeavesAt(g.right.children[j], h - 1)
      {
        assert g.right.children[j] == w.children[m + 1 + j];
      }
    }
  }

  /** The split sizes of set.c:162-164: of a full node with one key added,
      the left half keeps ceil((order - 1) / 2) keys and the right half the
      floor, so the left never holds fewer and both meet the minimum. */
  lemma SplitSizes(order: TreeOrder)
    ensures var m := (MaxKeys(order) - 1) / 2 + 1;
      m + 1 + (MaxKeys(order) - m) == MaxKeys(order) + 1 &&
      m == MaxKeys(order) - MaxKeys(order) / 2 &&
      MaxKeys(order) - m == MaxKeys(order) / 2 &&
      MaxKeys(order) - m <= m <= MaxKeys(order) &&
      MinKeys(order) == MaxKeys(order) - m
  {
  }

  /** set_insert_in_node_simple places `x` at `i`, keeps every other key in
      its order around it, and in an internal node places `rc` right of `x`
      with every other child in its order around it. */
  lemma SimpleInsertionPlaces(n: Node, x: Elem, i: nat, rc: Option<Node>)
    requires i <= |n.keys|
    requires n.children == [] || |n.children| == |n.keys| + 1
    requires rc.Some? <==> n.children != []
    ensures var w := SimpleInsertion(n, x, i, rc);
      |w.keys| == |n.keys| + 1 && w.keys[i] == x &&
      w.keys[..i] == n.keys[..i] && w.keys[i + 1..] == n.keys[i..]
    ensures var w := SimpleInsertion(n, x, i, rc);
      rc.None? ==> w.children == []
    ensures var w := SimpleInsertion(n, x, i, rc);
      rc.Some? ==>
        |w.children| == |n.children| + 1 && w.children[i + 1] == rc.value &&
        w.children[..i + 1] == n.children[..i + 1] && w.children[i + 2..] == n.children[i + 1..]
  {
    var w := SimpleInsertion(n, x, i, rc);
    assert w.keys == n.keys[..i] + [x] + n.keys[i..];
    assert w.keys[..i] == n.keys[..i];
    assert w.keys[i + 1..] == n.keys[i..];
    if rc.Some? {
      assert w.children == n.children[..i + 1] + [rc.value] + n.children[i + 1..];
      assert w.children[..i + 1] == n.children[..i + 1];
      assert w.children[i + 2..] == n.children[i + 1..];
    }
  }

  /** set_insert_in_node_complex on a full node: of the order keys it would
      hold, ceil((order - 1) / 2) stay left, the next is the pivot and the
      floor((order - 1) / 2) after it go right, so the left half never holds
      fewer than the right and the right holds exactly the minimum; keys and
      children keep their order across the two halves. */
  lemma SplitInsertionLayout(n: Node, x: Elem, i: nat, rc: Option<Node>, order: TreeOrder)
    requires i <= |n.keys| == MaxKeys(order)
    requires n.children == [] || |n.children| == |n.keys| + 1
    requires rc.Some? <==> n.children != []
    ensures var g := SplitInsertion(n, x, i, rc);
      g.Split? &&
      |g.left.keys| == MaxKeys(order) - MaxKeys(order) / 2 &&
      |g.right.keys| == MaxKeys(order) / 2 == MinKeys(order) &&
      |g.right.keys| <= |g.left.keys| &&
      g.left.keys + [g.pivot] + g.right.keys == InsertAt(n.keys, i, x)
    ensures var g := SplitInsertion(n, x, i, rc);
      rc.Some? ==> g.left.children + g.right.children == InsertAt(n.children, i + 1, rc.value)
    ensures var g := SplitInsertion(n, x, i, rc);
      rc.None? ==> g.left.children == [] && g.right.children == []
  {
    var w := SimpleInsertion(n, x, i, rc);
    var m := (|n.keys| - 1) / 2 + 1;
    assert SplitInsertion(n, x, i, rc) == Halves(w, m);
    assert w.keys == w.keys[..m] + [w.keys[m]] + w.keys[m + 1..];
    if rc.Some? {
      assert w.children == w.children[..m + 1] + w.children[m + 1..];
    }
  }

  /** Node-level insertion keeps the shape: a node with room stays a node of
      its kind with one more key; a full node splits into two halves that
      each meet the minimum. */
  lemma NodeInsertionShape(n: Node, x: Elem, rc: Option<Node>, order: TreeOrder, isRoot: bool, h: nat)
    requires KeyCount(n, order, isRoot) && Subtrees(n, order, h)
    requires rc.Some? <==> n.children != []
    requires rc.Some? ==> Shaped(rc.value, order, false) && LeavesAt(rc.value, h - 1)
    ensures NodeInsertion(n, x, rc, order).Split? <==> |n.keys| == MaxKeys(order)
    ensures GrownShaped(NodeInsertion(n, x, rc, order), order, isRoot, h)
  {
    var i := FindIndex(n.keys, x);
    var w := SimpleInsertion(n, x, i, rc);
    SimpleInsertionSubtrees(n, x, i, rc, order, h);
    if |n.keys| < MaxKeys(order) {
      assert NodeInsertion(n, x, rc, order) == Fit(w);
      ShapedSplitUp(w, order, isRoot, h);
    } else {
      var m := (|n.keys| - 1) / 2 + 1;
      assert NodeInsertion(n, x, rc, order) == Halves(w, m);
      HalvesSubtrees(w, m, order, h);
      SplitSizes(order);
      ShapedSplitUp(Halves(w, m).left, order, false, h);
      ShapedSplitUp(Halves(w, m).right, order, false, h);
    }
  }

  /** Swapping a child for one of the same shape and height keeps the node's
      shape. */
  lemma ReplaceChildSubtrees(n: Node, i: nat, c: Node, order: TreeOrder, h: nat)
    requires Subtrees(n, order, h) && i < |n.children|
    requires Shaped(c, order, false) && LeavesAt(c, h - 1)
    ensures Subtrees(n.(children := n.children[i := c]), order, h)
  {
  }

  /** Tree insertion keeps the shape at every level: the subtree keeps its
      height and either still fits or splits into two shaped halves. */
  lemma {:induction false} TreeInsertionShape(n: Node, x: Elem, order: TreeOrder, isRoot: bool, h: nat)
    requires Shaped(n, order, isRoot) && LeavesAt(n, h)
    ensures WellFormed(n)
    ensures GrownShaped(TreeInsertion(n, x, order), order, isRoot, h)
  {
    ShapedWellFormed(n, order, isRoot);
    ShapedSplitUp(n, order, isRoot, h);
    var i := FindIndex(n.keys, x);
    if i < |n.keys| && !Less(x, n.keys[i]) {
      assert TreeInsertion(n, x, order) == Fit(n);
    } else if n.children == [] {
      assert TreeInsertion(n, x, order) == NodeInsertion(n, x, None, order);
      NodeInsertionShape(n, x, None, order, isRoot, h);
    } else {
      var c := n.children[i];
      TreeInsertionShape(c, x, order, false, h - 1);
      match TreeInsertion(c, x, order)
      case Fit(c') =>
        var n1 := n.(children := n.children[i := c']);
        assert TreeInsertion(n, x, order) == Fit(n1);
        ReplaceChildSubtrees(n, i, c', order, h);
        ShapedSplitUp(n1, order, isRoot, h);
      case Split(l, p, r) =>
        var n1 := n.(children := n.children[i := l]);
        assert TreeInsertion(n, x, order) == NodeInsertion(n1, p, Some(r), order);
        ReplaceChildSubtrees(n, i, l, order, h);
        NodeInsertionShape(n1, p, Some(r), order, isRoot, h);
    }
  }
}
