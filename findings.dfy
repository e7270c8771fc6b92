/** Four places where set.c does not do what its comments say, each written
    out as the code has it, with an input that shows the difference. The rest
    of the model uses the corrected behaviour. */
module Findings {
  import opened Order
  import opened Tree
  import opened Ordering

  /** set.c:184-188 as written: the scan stops at the first key LESS than
      `x`, not at the first key not less than it. */
  function ScanAsWritten(keys: seq<Elem>, x: Elem): (i: nat)
    ensures i <= |keys|
    ensures i < |keys| ==> Less(keys[i], x)
    ensures forall j :: 0 <= j < i ==> !Less(keys[j], x)
  {
    if keys == [] || Less(keys[0], x) then 0 else 1 + ScanAsWritten(keys[1..], x)
  }

  /** In a node holding 1 and 3, the scan as written places 2 before 1,
      where the intended scan places it between them; the keys stop
      ascending. */
  lemma ScanAsWrittenMisplaces()
    ensures var keys, x := [Elem(1, 0), Elem(3, 0)], Elem(2, 0);
      ScanAsWritten(keys, x) == 0 && FindIndex(keys, x) == 1 &&
      !Ascending(InsertAt(keys, ScanAsWritten(keys, x), x)) &&
      Ascending(InsertAt(keys, FindIndex(keys, x), x))
  {
    var keys, x := [Elem(1, 0), Elem(3, 0)], Elem(2, 0);
    assert FindIndex(keys[1..], x) == 0;
    var bad := InsertAt(keys, 0, x);
    assert bad == [x, Elem(1, 0), Elem(3, 0)];
    assert !Less(bad[0], bad[1]);
    var good := InsertAt(keys, 1, x);
    assert good == [Elem(1, 0), x, Elem(3, 0)];
  }

  /** set.c:210-213 as written: the test meant to catch an equivalent key
      asks that each be less than the other. */
  predicate DuplicateTestAsWritten(x: Elem, stored: Elem) {
    Less(x, stored) && Less(stored, x)
  }

  /** set.c:208-218 as written: the descent stops at the first key that `x`
      is less than, and only there asks the test of set.c:212; past every key
      it goes to the last child without asking it. */
  function DescentAsWritten(keys: seq<Elem>, x: Elem): (k: nat)
    ensures k <= |keys|
    ensures k < |keys| ==> Less(x, keys[k])
    ensures forall j :: 0 <= j < k ==> !Less(x, keys[j])
  {
    if keys == [] || Less(x, keys[0]) then 0 else 1 + DescentAsWritten(keys[1..], x)
  }

  /** The test as written never fires. A root holding (5,0) over leaves
      holding 1 and 7, taking in (5,1): no key is greater than (5,1), so the
      descent passes (5,0) without any test and reaches the leaf holding 7,
      which takes (5,1) in; afterwards two equivalent elements are stored.
      The leaf insertion shown uses the intended scan; with the scan as
      coded (ScanAsWritten) the leaf would hold 7 before (5,1), and both
      equivalent elements are stored either way. The intended insertion
      leaves the root as it was. */
  lemma DuplicateTestNeverFires(x: Elem, stored: Elem)
    ensures !DuplicateTestAsWritten(x, stored)
    ensures var a, b := Elem(5, 0), Elem(5, 1);
      var root := Node([a], [Leaf(1), Leaf(7)]);
      var leaf := Node([b, Elem(7, 0)], []);
      var after := Node([a], [Leaf(1), leaf]);
      Equiv(a, b) &&
      DescentAsWritten(root.keys, b) == 1 && root.children[1] == Leaf(7) &&
      NodeInsertion(Leaf(7), b, None, 4) == Fit(leaf) &&
      a in Elements(after) && b in Elements(after) &&
      TreeInsertion(root, b, 4) == Fit(root)
  {
    var a, b := Elem(5, 0), Elem(5, 1);
    var root := Node([a], [Leaf(1), Leaf(7)]);
    var leaf := Node([b, Elem(7, 0)], []);
    var after := Node([a], [Leaf(1), leaf]);
    assert DescentAsWritten([a][1..], b) == 0;
    assert FindIndex(Leaf(7).keys, b) == 0;
    assert FindIndex(root.keys, b) == 0;
    assert b in Elements(leaf) by {
      assert Elements(leaf) == multiset(leaf.keys) + ElementsAll([]);
    }
    ElementsAllHasChild(after.children, 1, b);
  }

  /** set.c:110-112 as written: the keys shift, but the children do not, and
      the new right-hand child goes into the last slot rather than right of
      the new key. */
  function SimpleInsertionAsWritten(n: Node, x: Elem, i: nat, rc: Option<Node>): (w: Node)
    requires i <= |n.keys|
    requires rc.Some? || n.children == []
    ensures |w.keys| == |n.keys| + 1
    ensures n.children == [] ==> w.children == []
    ensures n.children != [] ==>
      |w.children| == |n.children| + 1 && w.children[..|n.children|] == n.children && w.children[|n.children|] == rc.value
  {
    Node(InsertAt(n.keys, i, x), if n.children == [] then [] else n.children + [rc.value])
  }

  function Leaf(k: int): Node { Node([Elem(k, 0)], []) }

  /** A one-key leaf is ordered exactly when its key lies within the bounds. */
  lemma LeafOrdered(k: int, lo: Option<Elem>, hi: Option<Elem>)
    ensures Ordered(Leaf(k), lo, hi) <==> Within(Elem(k, 0), lo, hi)
  {
    assert Leaf(k).keys[0] == Elem(k, 0);
  }

  /** A root holding 10 whose left leaf held 1 and 7 and split around 5
      when 5 came in: as written, the half holding 7 ends up right of 10 and
      the tree is no longer a search tree; placed right of 5, it is. */
  lemma SimpleInsertionAsWrittenDisorders()
    ensures var n := Node([Elem(10, 0)], [Leaf(1), Leaf(20)]);
      Ordered(n, None, None) &&
      !Ordered(SimpleInsertionAsWritten(n, Elem(5, 0), 0, Some(Leaf(7))), None, None) &&
      Ordered(SimpleInsertion(n, Elem(5, 0), 0, Some(Leaf(7))), None, None)
  {
    BeforeOrdered();
    AsWrittenDisordered();
    CorrectedOrdered();
  }

  lemma BeforeOrdered()
    ensures Ordered(Node([Elem(10, 0)], [Leaf(1), Leaf(20)]), None, None)
  {
    var n := Node([Elem(10, 0)], [Leaf(1), Leaf(20)]);
    LeafOrdered(1, None, Some(Elem(10, 0)));
    LeafOrdered(20, Some(Elem(10, 0)), None);
    assert LowerOf(n, None, 0) == None && UpperOf(n, None, 0) == Some(Elem(10, 0));
    assert LowerOf(n, None, 1) == Some(Elem(10, 0)) && UpperOf(n, None, 1) == None;
    OrderedIntro(n, None, None);
  }

  lemma AsWrittenDisordered()
    ensures !Ordered(SimpleInsertionAsWritten(Node([Elem(10, 0)], [Leaf(1), Leaf(20)]), Elem(5, 0), 0, Some(Leaf(7))), None, None)
  {
    var n := Node([Elem(10, 0)], [Leaf(1), Leaf(20)]);
    var bad := SimpleInsertionAsWritten(n, Elem(5, 0), 0, Some(Leaf(7)));
    assert bad.keys == [Elem(5, 0), Elem(10, 0)];
    assert bad.children[1] == Leaf(20);
    assert LowerOf(bad, None, 1) == Some(Elem(5, 0)) && UpperOf(bad, None, 1) == Some(Elem(10, 0));
    LeafOrdered(20, Some(Elem(5, 0)), Some(Elem(10, 0)));
  }

  lemma CorrectedOrdered()
    ensures Ordered(SimpleInsertion(Node([Elem(10, 0)], [Leaf(1), Leaf(20)]), Elem(5, 0), 0, Some(Leaf(7))), None, None)
  {
    var n := Node([Elem(10, 0)], [Leaf(1), Leaf(20)]);
    var good := SimpleInsertion(n, Elem(5, 0), 0, Some(Leaf(7)));
    assert good.keys == [Elem(5, 0), Elem(10, 0)];
    assert good.children == [Leaf(1), Leaf(7), Leaf(20)];
    LeafOrdered(1, None, Some(Elem(5, 0)));
    LeafOrdered(7, Some(Elem(5, 0)), Some(Elem(10, 0)));
    LeafOrdered(20, Some(Elem(10, 0)), None);
    assert LowerOf(good, None, 0) == None && UpperOf(good, None, 0) == Some(Elem(5, 0));
    assert LowerOf(good, None, 1) == Some(Elem(5, 0)) && UpperOf(good, None, 1) == Some(Elem(10, 0));
    assert LowerOf(good, None, 2) == Some(Elem(10, 0)) && UpperOf(good, None, 2) == None;
    assert Ascending(good.keys);
    OrderedIntro(good, None, None);
  }

  /** set.c:156-160 as written: a splitting internal node keeps its first
      `m + 1` children and copies the children from `m` on to the new node;
      the handed-up right-hand child is never placed. */
  function SplitChildrenAsWritten(cs: seq<Node>, m: nat): (halves: (seq<Node>, seq<Node>))
    requires m < |cs|
    ensures |halves.0| == m + 1 && |halves.1| == |cs| - m
    ensures halves.0[m] == halves.1[0] == cs[m]
  {
    (cs[..m + 1], cs[m..])
  }

  /** Order 3, a root holding 10 and 20 over leaves 1, 15 and 25: when its
      first leaf splits around 2 with 3 as its right half, the split as
      written loses 3 and stores 15 twice. */
  lemma SplitChildrenAsWrittenLoses()
    ensures var halves := SplitChildrenAsWritten([Leaf(1), Leaf(15), Leaf(25)], 1);
      var stored := ElementsAll(halves.0) + ElementsAll(halves.1);
      stored[Elem(15, 0)] == 2 && Elem(3, 0) !in stored
  {
    var halves := SplitChildrenAsWritten([Leaf(1), Leaf(15), Leaf(25)], 1);
    ThreeChildren(Leaf(1), Leaf(15), Leaf(25));
    PairElements(Leaf(1), Leaf(15));
    PairElements(Leaf(15), Leaf(25));
    LeafElements(1);
    LeafElements(15);
    LeafElements(25);
    Counts(ElementsAll(halves.0) + ElementsAll(halves.1));
  }

  lemma ThreeChildren(a: Node, b: Node, c: Node)
    ensures SplitChildrenAsWritten([a, b, c], 1) == ([a, b], [b, c])
  {
    assert [a, b, c][..2] == [a, b] && [a, b, c][1..] == [b, c];
  }

  lemma PairElements(a: Node, b: Node)
    ensures ElementsAll([a, b]) == Elements(a) + Elements(b)
  {
    assert [a, b][1..] == [b];
    assert [b][1..] == [];
    assert ElementsAll([b]) == Elements(b) + ElementsAll([]);
  }

  lemma LeafElements(k: int)
    ensures Elements(Leaf(k)) == multiset{Elem(k, 0)}
  {
    assert Elements(Leaf(k)) == multiset([Elem(k, 0)]) + ElementsAll([]);
  }

  lemma Counts(stored: multiset<Elem>)
    requires stored == multiset{Elem(1, 0)} + multiset{Elem(15, 0)} + (multiset{Elem(15, 0)} + multiset{Elem(25, 0)})
    ensures stored[Elem(15, 0)] == 2 && Elem(3, 0) !in stored
  {
  }

  /** In the same case the intended split places 3 right of 2 and shares
      out the four children two and two around the pivot 10. */
  lemma SplitChildrenCorrected()
    ensures var g := SplitInsertion(Node([Elem(10, 0), Elem(20, 0)], [Leaf(1), Leaf(15), Leaf(25)]), Elem(2, 0), 0, Some(Leaf(3)));
      g.left.children == [Leaf(1), Leaf(3)] && g.pivot == Elem(10, 0) && g.right.children == [Leaf(15), Leaf(25)]
  {
    var n := Node([Elem(10, 0), Elem(20, 0)], [Leaf(1), Leaf(15), Leaf(25)]);
    var w := SimpleInsertion(n, Elem(2, 0), 0, Some(Leaf(3)));
    assert SplitInsertion(n, Elem(2, 0), 0, Some(Leaf(3))) == Halves(w, 1);
    assert w.keys == [Elem(2, 0), Elem(10, 0), Elem(20, 0)];
    assert w.children == [Leaf(1), Leaf(3), Leaf(15), Leaf(25)];
  }
}
