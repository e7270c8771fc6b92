/** What insertion does to the multiset of stored elements: it adds the new
    element exactly once when no equivalent one is stored, and leaves the tree
    untouched when one is. None of this depends on the search-tree order.
    SameKeys, Regroup and SwapPart are solver aids: they do the multiset
    bookkeeping over plain multiset parameters, so that the solver does not
    unfold the tree functions while it adds up counts. */
module Multisets {
  import opened Order
  import opened Tree

  lemma {:induction false} ElementsAllAppend(a: seq<Node>, b: seq<Node>)
    ensures ElementsAll(a + b) == ElementsAll(a) + ElementsAll(b)
  {
    if a != [] {
      assert (a + b)[0] == a[0];
      assert (a + b)[1..] == a[1..] + b;
      ElementsAllAppend(a[1..], b);
    } else {
      assert a + b == b;
    }
  }

  /** Cutting the children anywhere cuts their elements at the same place. */
  lemma ElementsAllSplit(cs: seq<Node>, k: nat)
    requires k <= |cs|
    ensures ElementsAll(cs) == ElementsAll(cs[..k]) + ElementsAll(cs[k..])
  {
    assert cs == cs[..k] + cs[k..];
    ElementsAllAppend(cs[..k], cs[k..]);
  }

  /** Adding a child adds exactly its elements. */
  lemma ElementsAllInsertAt(cs: seq<Node>, k: nat, c: Node)
    requires k <= |cs|
    ensures ElementsAll(InsertAt(cs, k, c)) == ElementsAll(cs) + Elements(c)
  {
    assert InsertAt(cs, k, c) == cs[..k] + ([c] + cs[k..]);
    ElementsAllAppend(cs[..k], [c] + cs[k..]);
    ElementsAllAppend([c], cs[k..]);
    assert [c][1..] == [];
    ElementsAllSplit(cs, k);
  }

  /** Replacing one child swaps its elements for those of the replacement. */
  lemma ReplaceChildElements(n: Node, i: nat, c: Node)
    requires i < |n.children|
    ensures Elements(n.(children := n.children[i := c])) + Elements(n.children[i]) == Elements(n) + Elements(c)
  {
    var n1 := n.(children := n.children[i := c]);
    ElementsAllReplace(n.children, i, c);
    assert Elements(n1) == multiset(n.keys) + ElementsAll(n.children[i := c]);
    assert Elements(n) == multiset(n.keys) + ElementsAll(n.children);
    SameKeys(Elements(n1), Elements(n), multiset(n.keys), ElementsAll(n.children[i := c]), ElementsAll(n.children),
      Elements(n.children[i]), Elements(c));
  }

  /** Multiset bookkeeping for two nodes with the same keys. */
  lemma SameKeys<T>(v1: multiset<T>, v: multiset<T>, k: multiset<T>, a1: multiset<T>, a: multiset<T>,
                    out: multiset<T>, into: multiset<T>)
    requires v1 == k + a1 && v == k + a && a1 + out == a + into
    ensures v1 + out == v + into
  {
    forall e ensures (v1 + out)[e] == (v + into)[e] {
      assert (a1 + out)[e] == (a + into)[e];
    }
  }

  lemma ElementsAllReplace(cs: seq<Node>, i: nat, c: Node)
    requires i < |cs|
    ensures ElementsAll(cs[i := c]) + Elements(cs[i]) == ElementsAll(cs) + Elements(c)
  {
    var ds := cs[i := c];
    ElementsAllSplit(cs, i);
    ElementsAllSplit(ds, i);
    assert cs[i..] == [cs[i]] + cs[i + 1..];
    assert ds[i..] == [c] + cs[i + 1..];
    assert ds[..i] == cs[..i];
    ElementsAllAppend([cs[i]], cs[i + 1..]);
    ElementsAllAppend([c], cs[i + 1..]);
    assert [cs[i]][1..] == [] && [c][1..] == [];
  }

  lemma MultisetInsertAt<T>(s: seq<T>, i: nat, x: T)
    requires i <= |s|
    ensures multiset(InsertAt(s, i, x)) == multiset(s) + multiset{x}
  {
    assert s == s[..i] + s[i..];
  }

  /** Cutting a sequence around position `m` keeps every entry once. */
  lemma CutMultiset<T>(s: seq<T>, m: nat)
    requires m < |s|
    ensures multiset(s) == multiset(s[..m]) + multiset{s[m]} + multiset(s[m + 1..])
  {
    assert s == s[..m] + [s[m]] + s[m + 1..];
  }

  /** Placing `x` in a node adds `x` and the handed-up right half. */
  lemma SimpleInsertionElements(n: Node, x: Elem, i: nat, rc: Option<Node>)
    requires i <= |n.keys|
    requires n.children == [] || |n.children| == |n.keys| + 1
    requires rc.Some? <==> n.children != []
    ensures Elements(SimpleInsertion(n, x, i, rc))
         == Elements(n) + multiset{x} + (if rc.Some? then Elements(rc.value) else multiset{})
  {
    var keys := InsertAt(n.keys, i, x);
    var kids := if n.children == [] then [] else InsertAt(n.children, i + 1, rc.value);
    var extra := if rc.Some? then Elements(rc.value) else multiset{};
    assert SimpleInsertion(n, x, i, rc) == Node(keys, kids);
    MultisetInsertAt(n.keys, i, x);
    if n.children != [] {
      ElementsAllInsertAt(n.children, i + 1, rc.value);
    } else {
      assert ElementsAll(kids) == ElementsAll(n.children) + extra;
    }
    Regroup(Elements(Node(keys, kids)), multiset(keys), ElementsAll(kids), multiset(n.keys), ElementsAll(n.children),
      multiset{x}, extra, Elements(n));
  }

  /** Multiset bookkeeping for a node that gains keys and children. */
  lemma Regroup<T>(a: multiset<T>, k': multiset<T>, c': multiset<T>, k: multiset<T>, c: multiset<T>,
                   x: multiset<T>, e: multiset<T>, v: multiset<T>)
    requires a == k' + c' && k' == k + x && c' == c + e && v == k + c
    ensures a == v + x + e
  {
  }

  /** Cutting a node in two around a key keeps every element exactly once. */
  lemma HalvesElements(w: Node, m: nat)
    requires m < |w.keys|
    requires w.children == [] || |w.children| == |w.keys| + 1
    ensures Contents(Halves(w, m)) == Elements(w)
  {
    CutMultiset(w.keys, m);
    if w.children != [] {
      ElementsAllSplit(w.children, m + 1);
    }
  }

  /** Splitting loses and duplicates nothing: the two halves and the pivot
      hold the node's elements, `x` and the handed-up right half. */
  lemma SplitInsertionElements(n: Node, x: Elem, i: nat, rc: Option<Node>)
    requires 1 <= |n.keys| && i <= |n.keys|
    requires n.children == [] || |n.children| == |n.keys| + 1
    requires rc.Some? <==> n.children != []
    ensures Contents(SplitInsertion(n, x, i, rc))
         == Elements(n) + multiset{x} + (if rc.Some? then Elements(rc.value) else multiset{})
  {
    var w := SimpleInsertion(n, x, i, rc);
    var m := (|n.keys| - 1) / 2 + 1;
    assert SplitInsertion(n, x, i, rc) == Halves(w, m);
    HalvesElements(w, m);
    SimpleInsertionElements(n, x, i, rc);
    calc {
      Contents(SplitInsertion(n, x, i, rc));
      Contents(Halves(w, m));
      Elements(w);
      Elements(n) + multiset{x} + (if rc.Some? then Elements(rc.value) else multiset{});
    }
  }

  /** Node-level insertion adds `x` and, when a split child hands one up,
      the right half's elements; nothing is lost or duplicated by a split. */
  lemma NodeInsertionElements(n: Node, x: Elem, rc: Option<Node>, order: TreeOrder)
    requires n.children == [] || |n.children| == |n.keys| + 1
    requires rc.Some? <==> n.children != []
    ensures Contents(NodeInsertion(n, x, rc, order))
         == Elements(n) + multiset{x} + (if rc.Some? then Elements(rc.value) else multiset{})
  {
    var i := FindIndex(n.keys, x);
    if |n.keys| < MaxKeys(order) {
      SimpleInsertionElements(n, x, i, rc);
    } else {
      SplitInsertionElements(n, x, i, rc);
    }
  }

  /** An insertion whose search meets an equivalent stored key changes nothing. */
  lemma {:induction false} TreeInsertionPresent(n: Node, x: Elem, order: TreeOrder)
    requires WellFormed(n) && Find(n, x).Some?
    ensures TreeInsertion(n, x, order) == Fit(n)
  {
    var i := FindIndex(n.keys, x);
    if !(i < |n.keys| && !Less(x, n.keys[i])) {
      TreeInsertionPresent(n.children[i], x, order);
      assert n.children[i := n.children[i]] == n.children;
    }
  }

  /** An insertion whose search finds no equivalent key adds `x` exactly once. */
  lemma {:induction false} TreeInsertionElements(n: Node, x: Elem, order: TreeOrder)
    requires WellFormed(n) && Find(n, x).None?
    ensures Contents(TreeInsertion(n, x, order)) == Elements(n) + multiset{x}
  {
    var i := FindIndex(n.keys, x);
    if n.children == [] {
      assert TreeInsertion(n, x, order) == NodeInsertion(n, x, None, order);
      NodeInsertionElements(n, x, None, order);
    } else {
      var c := n.children[i];
      assert Find(c, x).None?;
      TreeInsertionElements(c, x, order);
      match TreeInsertion(c, x, order)
      case Fit(c') =>
        DescendFit(n, x, order, c');
        ReplaceChildElements(n, i, c');
        SwapPart(Elements(n.(children := n.children[i := c'])), Elements(n), Elements(c),
          Elements(c'), multiset{x}, multiset{});
      case Split(l, p, r) =>
        var n1 := n.(children := n.children[i := l]);
        DescendSplit(n, x, order, l, p, r);
        ReplaceChildElements(n, i, l);
        NodeInsertionElements(n1, p, Some(r), order);
        SwapPart(Elements(n1), Elements(n), Elements(c), Elements(l), multiset{x}, multiset{p} + Elements(r));
    }
  }

  /** One level of `TreeInsertion` when the child the search enters still fits. */
  lemma DescendFit(n: Node, x: Elem, order: TreeOrder, c: Node)
    requires WellFormed(n) && Find(n, x).None? && n.children != []
    requires TreeInsertion(n.children[FindIndex(n.keys, x)], x, order) == Fit(c)
    ensures TreeInsertion(n, x, order) == Fit(n.(children := n.children[FindIndex(n.keys, x) := c]))
  {
  }

  /** One level of `TreeInsertion` when the child the search enters splits. */
  lemma DescendSplit(n: Node, x: Elem, order: TreeOrder, l: Node, p: Elem, r: Node)
    requires WellFormed(n) && Find(n, x).None? && n.children != []
    requires TreeInsertion(n.children[FindIndex(n.keys, x)], x, order) == Split(l, p, r)
    ensures TreeInsertion(n, x, order) == NodeInsertion(n.(children := n.children[FindIndex(n.keys, x) := l]), p, Some(r), order)
  {
  }

  /** Multiset bookkeeping for one level: the node traded child contents `c`
      for `l`, and `l` plus what was handed up (`extra`) is `c` plus `x`. */
  lemma SwapPart<T>(n1: multiset<T>, v: multiset<T>, c: multiset<T>, l: multiset<T>, x: multiset<T>, extra: multiset<T>)
    requires n1 + c == v + l
    requires l + extra == c + x
    ensures n1 + extra == v + x
  {
    forall e ensures (n1 + extra)[e] == (v + x)[e] {
      assert (n1 + c)[e] == (v + l)[e];
      assert (l + extra)[e] == (c + x)[e];
    }
  }

  /** Set-level insertion: the stored elements gain `x` exactly once, unless an
      equivalent element is already stored, in which case the tree is the same. */
  lemma SetInsertionElements(root: Option<Node>, x: Elem, order: TreeOrder)
    requires root.Some? ==> WellFormed(root.value)
    ensures root.Some? && Find(root.value, x).Some? ==> SetInsertion(root, x, order) == root.value
    ensures root.None? || Find(root.value, x).None? ==>
      Elements(SetInsertion(root, x, order)) == (if root.Some? then Elements(root.value) else multiset{}) + multiset{x}
  {
    if root.Some? {
      var n := root.value;
      if Find(n, x).Some? {
        TreeInsertionPresent(n, x, order);
      } else {
        TreeInsertionElements(n, x, order);
        match TreeInsertion(n, x, order)
        case Fit(m) =>
          assert SetInsertion(root, x, order) == m;
        case Split(l, p, r) =>
          assert SetInsertion(root, x, order) == Node([p], [l, r]);
          NewRootElements(l, p, r);
      }
    } else {
      assert SetInsertion(root, x, order) == Node([x], []);
      assert ElementsAll([]) == multiset{};
    }
  }

  /** A fresh root over a split holds the two halves and the pivot. */
  lemma NewRootElements(l: Node, p: Elem, r: Node)
    ensures Elements(Node([p], [l, r])) == Elements(l) + multiset{p} + Elements(r)
  {
    assert [l, r][1..] == [r];
    assert [r][1..] == [];
    assert ElementsAll([r]) == Elements(r) + ElementsAll([]);
    assert ElementsAll([l, r]) == Elements(l) + ElementsAll([r]);
  }

  /** The walk of two runs of siblings is the walk of the first, then of the
      second. */
  lemma {:induction false} VisitAllAppend(a: seq<Node>, b: seq<Node>)
    ensures VisitAll(a + b) == VisitAll(a) + VisitAll(b)
  {
    if a != [] {
      assert (a + b)[0] == a[0];
      assert (a + b)[1..] == a[1..] + b;
      VisitAllAppend(a[1..], b);
    } else {
      assert a + b == b;
    }
  }

  /** The traversal visits exactly the stored elements. */
  lemma {:induction false} VisitElements(n: Node)
    ensures multiset(Visit(n)) == Elements(n)
    decreases n, 1
  {
    VisitAllElements(n.children);
  }

  lemma {:induction false} VisitAllElements(cs: seq<Node>)
    ensures multiset(VisitAll(cs)) == ElementsAll(cs)
    decreases cs, 0
  {
    if cs != [] {
      VisitElements(cs[0]);
      VisitAllElements(cs[1..]);
    }
  }
}
