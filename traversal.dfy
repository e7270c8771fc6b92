/** What set_map hands to the visitor. The C walks each node's keys before
    its children, so the order is not ascending; what it does promise is that
    every stored element is visited exactly once. The symmetric (in-order)
    walk is proved ascending as a strengthening, and it is what shows that no
    element is stored twice. Interleaved is a solver aid: multiset
    bookkeeping over plain multiset parameters. */
module Traversal {
  import opened Order
  import opened Tree
  import opened Multisets
  import opened Ordering
  import opened Search

  /** The symmetric walk holds exactly the stored elements. */
  lemma {:induction false} InOrderElements(n: Node)
    requires WellFormed(n)
    ensures multiset(InOrder(n)) == Elements(n)
    decreases n, 1
  {
    if n.children == [] {
      assert ElementsAll(n.children) == multiset{};
    } else {
      InterleaveElements(n.children, n.keys);
    }
  }

  lemma {:induction false} InterleaveElements(cs: seq<Node>, ks: seq<Elem>)
    requires |cs| == |ks| + 1
    requires forall j :: 0 <= j < |cs| ==> WellFormed(cs[j])
    ensures multiset(Interleave(cs, ks)) == multiset(ks) + ElementsAll(cs)
    decreases cs, 0
  {
    InOrderElements(cs[0]);
    if ks == [] {
      assert cs[1..] == [];
      assert ElementsAll(cs) == Elements(cs[0]) + ElementsAll([]);
    } else {
      InterleaveElements(cs[1..], ks[1..]);
      InterleaveStep(cs, ks);
      HeadAndTail(cs, ks);
      Interleaved(multiset(Interleave(cs, ks)), multiset(InOrder(cs[0])), multiset{ks[0]},
        multiset(Interleave(cs[1..], ks[1..])), multiset(ks), multiset(ks[1..]),
        ElementsAll(cs), Elements(cs[0]), ElementsAll(cs[1..]));
    }
  }

  /** One step of the symmetric walk, and of the sequences it walks. */
  lemma InterleaveStep(cs: seq<Node>, ks: seq<Elem>)
    requires |cs| == |ks| + 1 && ks != []
    ensures multiset(Interleave(cs, ks))
         == multiset(InOrder(cs[0])) + multiset{ks[0]} + multiset(Interleave(cs[1..], ks[1..]))
  {
    var a, b := InOrder(cs[0]), Interleave(cs[1..], ks[1..]);
    assert Interleave(cs, ks) == a + [ks[0]] + b;
  }

  lemma HeadAndTail(cs: seq<Node>, ks: seq<Elem>)
    requires cs != [] && ks != []
    ensures multiset(ks) == multiset{ks[0]} + multiset(ks[1..])
    ensures ElementsAll(cs) == Elements(cs[0]) + ElementsAll(cs[1..])
  {
    assert ks == [ks[0]] + ks[1..];
  }

  /** Multiset bookkeeping for one step of the symmetric walk. */
  lemma Interleaved<T>(w: multiset<T>, a: multiset<T>, k: multiset<T>, b: multiset<T>, ks: multiset<T>,
                       ks': multiset<T>, all: multiset<T>, first: multiset<T>, rest: multiset<T>)
    requires w == a + k + b && a == first && b == ks' + rest
    requires ks == k + ks' && all == first + rest
    ensures w == ks + all
  {
    forall e ensures w[e] == (ks + all)[e] {
    }
  }

  /** Everything the symmetric walk of an ordered node yields lies within
      its bounds. */
  lemma InOrderWithin(n: Node, lo: Option<Elem>, hi: Option<Elem>)
    requires WellFormed(n) && Ordered(n, lo, hi)
    ensures forall e :: e in InOrder(n) ==> Within(e, lo, hi)
  {
    InOrderElements(n);
    forall e | e in InOrder(n) ensures Within(e, lo, hi) {
      assert e in multiset(InOrder(n));
      OrderedWithin(n, lo, hi, e);
    }
  }

  /** The symmetric walk of an ordered tree is strictly ascending. */
  lemma {:induction false} InOrderAscending(n: Node, lo: Option<Elem>, hi: Option<Elem>)
    requires WellFormed(n) && Ordered(n, lo, hi)
    ensures Ascending(InOrder(n))
    decreases n, 1
  {
    if n.children != [] {
      InterleaveAscending(n.children, n.keys, lo, hi);
    }
  }

  lemma {:induction false} InterleaveAscending(cs: seq<Node>, ks: seq<Elem>, lo: Option<Elem>, hi: Option<Elem>)
    requires |cs| == |ks| + 1
    requires WellFormed(Node(ks, cs)) && Ordered(Node(ks, cs), lo, hi)
    ensures Ascending(Interleave(cs, ks))
    decreases cs, 0
  {
    var w := Node(ks, cs);
    assert Ordered(cs[0], LowerOf(w, lo, 0), UpperOf(w, hi, 0));
    InOrderAscending(cs[0], LowerOf(w, lo, 0), UpperOf(w, hi, 0));
    if ks != [] {
      var tail := Node(ks[1..], cs[1..]);
      RightHalfOrdered(w, 0, lo, hi);
      assert tail.children == cs[1..] && tail.keys == ks[1..];
      InterleaveAscending(cs[1..], ks[1..], Some(ks[0]), hi);
      InOrderWithin(cs[0], LowerOf(w, lo, 0), Some(ks[0]));
      InterleaveWithin(tail, Some(ks[0]), hi);
      AscendingJoin(InOrder(cs[0]), ks[0], Interleave(cs[1..], ks[1..]));
    }
  }

  /** The walk of an ordered internal node lies within the node's bounds. */
  lemma InterleaveWithin(w: Node, lo: Option<Elem>, hi: Option<Elem>)
    requires |w.children| == |w.keys| + 1
    requires WellFormed(w) && Ordered(w, lo, hi)
    ensures forall e :: e in Interleave(w.children, w.keys) ==> Within(e, lo, hi)
  {
    assert InOrder(w) == Interleave(w.children, w.keys);
    InOrderWithin(w, lo, hi);
  }

  /** No two stored elements of a valid tree are equivalent, and each is
      stored once. */
  lemma StoredOnce(n: Node, lo: Option<Elem>, hi: Option<Elem>)
    requires WellFormed(n) && Ordered(n, lo, hi)
    ensures forall e :: Elements(n)[e] == if e in Elements(n) then 1 else 0
    ensures forall e1, e2 :: e1 in Elements(n) && e2 in Elements(n) && Equiv(e1, e2) ==> e1 == e2
  {
    InOrderElements(n);
    InOrderAscending(n, lo, hi);
    AscendingOccursOnce(InOrder(n));
    var s := InOrder(n);
    forall e1, e2 | e1 in Elements(n) && e2 in Elements(n) && Equiv(e1, e2) ensures e1 == e2 {
      assert e1 in multiset(s) && e2 in multiset(s);
      var p :| 0 <= p < |s| && s[p] == e1;
      var q :| 0 <= q < |s| && s[q] == e2;
      assert p == q;
    }
  }

  /** set_map visits every stored element of an ordered tree exactly once
      (set.h:33-39), in the C's keys-then-children order. */
  lemma VisitOnce(n: Node, lo: Option<Elem>, hi: Option<Elem>)
    requires WellFormed(n) && Ordered(n, lo, hi)
    ensures multiset(Visit(n)) == multiset(InOrder(n))
    ensures forall e :: multiset(Visit(n))[e] == if e in Elements(n) then 1 else 0
  {
    VisitElements(n);
    InOrderElements(n);
    StoredOnce(n, lo, hi);
  }
}
