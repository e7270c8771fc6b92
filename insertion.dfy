/** set_insert on the whole tree: it keeps the tree valid, grows it by one
    level exactly when the root splits, adds the element exactly once unless
    an equivalent one is stored, and leaves the new element findable with
    every earlier one still stored. */
module Insertion {
  import opened Order
  import opened Tree
  import opened Multisets
  import opened Ordering
  import opened Shape
  import opened Search

  /** Some stored element is equivalent to `x`. */
  ghost predicate Holds(root: Option<Node>, x: Elem) {
    root.Some? && exists e :: e in Elements(root.value) && Equiv(e, x)
  }

  /** The stored elements of a possibly empty set. */
  function Stored(root: Option<Node>): multiset<Elem> {
    if root.Some? then Elements(root.value) else multiset{}
  }

  /** A fresh root over the two halves of a split is ordered. */
  lemma NewRootOrdered(l: Node, p: Elem, r: Node)
    requires Ordered(l, None, Some(p)) && Ordered(r, Some(p), None)
    ensures Ordered(Node([p], [l, r]), None, None)
  {
    var n := Node([p], [l, r]);
    assert LowerOf(n, None, 0) == None && UpperOf(n, None, 0) == Some(p);
    assert LowerOf(n, None, 1) == Some(p) && UpperOf(n, None, 1) == None;
  }

  /** A fresh root over two shaped halves of height `h` is a shaped root of
      height `h + 1`. */
  lemma NewRootShaped(l: Node, p: Elem, r: Node, order: TreeOrder, h: nat)
    requires Shaped(l, order, false) && LeavesAt(l, h) && Shaped(r, order, false) && LeavesAt(r, h)
    ensures Shaped(Node([p], [l, r]), order, true) && LeavesAt(Node([p], [l, r]), h + 1)
  {
  }

  /** set_insert keeps every invariant: the key counts and child counts, all
      leaves at one depth and the search-tree order. The first insertion
      gives a one-key leaf root; afterwards the height grows by one exactly
      when the root splits, and the new root then holds the pivot alone. */
  lemma SetInsertionValid(root: Option<Node>, x: Elem, order: TreeOrder)
    requires root.Some? ==> ValidTree(root.value, order)
    ensures root.Some? ==> WellFormed(root.value)
    ensures ValidTree(SetInsertion(root, x, order), order)
    ensures root.None? ==> SetInsertion(root, x, order) == Node([x], [])
    ensures root.Some? && TreeInsertion(root.value, x, order).Fit? ==>
      Height(SetInsertion(root, x, order)) == Height(root.value)
    ensures root.Some? && TreeInsertion(root.value, x, order).Split? ==>
      Height(SetInsertion(root, x, order)) == Height(root.value) + 1 &&
      |SetInsertion(root, x, order).keys| == 1 && |SetInsertion(root, x, order).children| == 2
  {
    if root.None? {
      assert LeavesAt(Node([x], []), 0);
    } else {
      var n := root.value;
      var h := Height(n);
      TreeInsertionShape(n, x, order, true, h);
      TreeInsertionOrdered(n, None, None, x, order);
      match TreeInsertion(n, x, order)
      case Fit(m) =>
        assert SetInsertion(root, x, order) == m;
        LeavesAtHeight(m, h);
      case Split(l, p, r) =>
        var m := Node([p], [l, r]);
        assert SetInsertion(root, x, order) == m;
        NewRootOrdered(l, p, r);
        NewRootShaped(l, p, r, order, h);
        LeavesAtHeight(m, h + 1);
    }
  }

  /** Inserting an element equivalent to a stored one changes nothing
      (set.c:211-214, set.h:29-31). */
  lemma InsertDuplicate(root: Option<Node>, x: Elem, order: TreeOrder)
    requires root.Some? ==> ValidTree(root.value, order)
    requires Holds(root, x)
    ensures root.Some? && WellFormed(root.value)
    ensures SetInsertion(root, x, order) == root.value
  {
    var n := root.value;
    TreeInsertionShape(n, x, order, true, Height(n));
    FindExact(n, None, None, x);
    SetInsertionElements(root, x, order);
  }

  /** Inserting an element with no equivalent stored adds it exactly once and
      nothing else. */
  lemma InsertFresh(root: Option<Node>, x: Elem, order: TreeOrder)
    requires root.Some? ==> ValidTree(root.value, order)
    requires !Holds(root, x)
    ensures root.Some? ==> WellFormed(root.value)
    ensures Elements(SetInsertion(root, x, order)) == Stored(root) + multiset{x}
  {
    if root.Some? {
      var n := root.value;
      TreeInsertionShape(n, x, order, true, Height(n));
      FindExact(n, None, None, x);
    }
    SetInsertionElements(root, x, order);
  }

  /** After set_insert(s, elem), set_contains(s, elem) holds and every
      earlier member is still stored (set.h:22-31). */
  lemma InsertThenContains(root: Option<Node>, x: Elem, order: TreeOrder)
    requires root.Some? ==> ValidTree(root.value, order)
    ensures root.Some? ==> WellFormed(root.value)
    ensures WellFormed(SetInsertion(root, x, order))
    ensures Find(SetInsertion(root, x, order), x).Some?
    ensures forall e :: e in Stored(root) ==> e in Elements(SetInsertion(root, x, order))
  {
    if root.Some? {
      ShapedWellFormed(root.value, order, true);
    }
    SetInsertionValid(root, x, order);
    var m := SetInsertion(root, x, order);
    ShapedWellFormed(m, order, true);
    if Holds(root, x) {
      InsertDuplicate(root, x, order);
    } else {
      InsertFresh(root, x, order);
      assert x in Elements(m);
    }
    FindExact(m, None, None, x);
  }
}
