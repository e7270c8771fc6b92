/** The public interface of set.h: a set object holding the tree order and
    the root, which set_init empties and set_insert updates in place, with
    set_contains and set_map as queries over it. */
module Sets {
  import opened Order
  import opened Tree
  import opened Multisets
  import opened Search
  import opened Shape
  import opened Traversal
  import opened Insertion
  import opened TreeInsert

  /** set_tree_map: hand each key of `n` to the visitor left to right, then
      walk each child in turn. The visitor's calls are returned as the
      sequence of elements it receives. */
  method VisitTree(n: Node) returns (visited: seq<Elem>)
    ensures visited == Visit(n)
    decreases n
  {
    visited := [];
    for k := 0 to |n.keys|
      invariant visited == n.keys[..k]
    {
      visited := visited + [n.keys[k]];
    }
    for j := 0 to |n.children|
      invariant visited == n.keys + VisitAll(n.children[..j])
    {
      var sub := VisitTree(n.children[j]);
      assert n.children[..j + 1] == n.children[..j] + [n.children[j]];
      VisitAllAppend(n.children[..j], [n.children[j]]);
      assert VisitAll([n.children[j]]) == Visit(n.children[j]) + VisitAll([]);
      visited := visited + sub;
    }
    assert n.children[..|n.children|] == n.children;
  }

  /** What the search of a valid tree finds is the one stored element
      equivalent to `x`, and it finds one whenever there is one. */
  lemma FindStored(n: Node, x: Elem)
    requires WellFormed(n) && Ordered(n, None, None)
    ensures Find(n, x).Some? <==> exists e :: e in Elements(n) && Equiv(e, x)
    ensures Find(n, x).Some? ==>
      Find(n, x).value in Elements(n) && Equiv(Find(n, x).value, x) &&
      forall e :: e in Elements(n) && Equiv(e, x) ==> e == Find(n, x).value
  {
    FindExact(n, None, None, x);
    StoredOnce(n, None, None);
  }

  /** The set: its Knuth order and its root, absent while the set is empty.
      The C's element size and comparator are fixed by `Elem` and `Less`. */
  class Set {
    var order: TreeOrder
    var root: Option<Node>

    /** Every invariant of the tree holds at the root. */
    ghost predicate Valid()
      reads this
    {
      root.Some? ==> WellFormed(root.value) && ValidTree(root.value, order)
    }

    /** The stored elements, counted with multiplicity. */
    function Elements(): multiset<Elem>
      reads this
    {
      Stored(root)
    }

    /** set_init: an empty set of the given order. */
    constructor(order: TreeOrder)
      ensures Valid()
      ensures this.order == order && root == None
      ensures Elements() == multiset{}
    {
      this.order := order;
      root := None;
    }

    /** set_contains. `copyOut` is the caller's buffer (absent for NULL) and
        `copied` what it holds afterwards: the stored element equivalent to
        `x` when one is found and a buffer was given, and otherwise whatever
        it held before. */
    method Contains(x: Elem, copyOut: Option<Elem>) returns (found: bool, copied: Option<Elem>)
      requires Valid()
      ensures found <==> exists e :: e in Elements() && Equiv(e, x)
      ensures !found || copyOut.None? ==> copied == copyOut
      ensures found && copyOut.Some? ==>
        copied.Some? && copied.value in Elements() && Equiv(copied.value, x) &&
        forall e :: e in Elements() && Equiv(e, x) ==> e == copied.value
    {
      if root.None? {
        found, copied := false, copyOut;
        return;
      }
      var n := root.value;
      FindStored(n, x);
      var r := Find(n, x);
      found := r.Some?;
      copied := if found && copyOut.Some? then r else copyOut;
    }

    /** set_insert: an empty set gets a one-key leaf root; otherwise the
        element goes down the tree and a split of the root puts a new root
        above the two halves. An element equivalent to a stored one leaves
        the set as it was; any other is added exactly once. */
    method Insert(x: Elem)
      requires Valid()
      modifies this
      ensures Valid() && order == old(order)
      ensures root == Some(SetInsertion(old(root), x, order))
      ensures old(root).None? ==> root == Some(Node([x], []))
      ensures Holds(old(root), x) ==> root == old(root)
      ensures !Holds(old(root), x) ==> Elements() == old(Elements()) + multiset{x}
      ensures exists e :: e in Elements() && Equiv(e, x)
    {
      ghost var before := root;
      if root.Some? {
        ShapedWellFormed(root.value, order, true);
      }
      SetInsertionValid(root, x, order);
      InsertThenContains(root, x, order);
      if Holds(root, x) {
        InsertDuplicate(root, x, order);
      } else {
        InsertFresh(root, x, order);
      }
      if root.None? {
        root := Some(Node([x], []));
      } else {
        var g := InsertInTree(root.value, x, order, true);
        match g
        case Fit(m) =>
          root := Some(m);
        case Split(l, p, r) =>
          root := Some(Node([p], [l, r]));
      }
      assert root.value == SetInsertion(before, x, order);
      ShapedWellFormed(root.value, order, true);
      FindExact(root.value, None, None, x);
    }

    /** set_map: the visitor sees every stored element exactly once, in the
        C's keys-before-children order. */
    method Map() returns (visited: seq<Elem>)
      requires Valid()
      ensures visited == if root.Some? then Visit(root.value) else []
      ensures multiset(visited) == Elements()
      ensures forall e :: multiset(visited)[e] == if e in Elements() then 1 else 0
    {
      if root.None? {
        visited := [];
      } else {
        ShapedWellFormed(root.value, order, true);
        VisitOnce(root.value, None, None);
        VisitElements(root.value);
        visited := VisitTree(root.value);
      }
    }
  }
}
