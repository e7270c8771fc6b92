/** The B-tree as a value: the node layout of set.c, the invariants a tree of
    a given order keeps, and the search, insertion and traversal it performs,
    stated as functions. Split propagation, which the C drives through each
    node's parent pointer, is the recursion handing a `Split` back to the
    caller one level up. */
module Tree {
  import opened Order

  /** A node: its keys and, for an internal node, its children. A leaf has
      no children (the C's NULL `children`). */
  datatype Node = Node(keys: seq<Elem>, children: seq<Node>)

  /** What inserting into a node leaves behind: the node still fits, or it
      split into two halves around a pivot that the level above must take in. */
  datatype Grown = Fit(node: Node) | Split(left: Node, pivot: Elem, right: Node)

  /** The node layout of set.c:14-16: an internal node has exactly one more
      child than it has keys, all the way down. */
  ghost predicate WellFormed(n: Node) {
    (n.children == [] || |n.children| == |n.keys| + 1) &&
    forall j :: 0 <= j < |n.children| ==> WellFormed(n.children[j])
  }

  /** Key-count bounds on top of the layout: at most order - 1 keys in every
      node; at least one in the root and at least ceil(order/2) - 1 in every
      other node. */
  ghost predicate Shaped(n: Node, order: TreeOrder, isRoot: bool) {
    |n.keys| <= MaxKeys(order) &&
    (if isRoot then 1 <= |n.keys| else MinKeys(order) <= |n.keys|) &&
    (n.children == [] || |n.children| == |n.keys| + 1) &&
    forall j :: 0 <= j < |n.children| ==> Shaped(n.children[j], order, false)
  }

  /** Every leaf under `n` lies exactly `h` levels below it. */
  ghost predicate LeavesAt(n: Node, h: nat) {
    (n.children == [] <==> h == 0) &&
    forall j :: 0 <= j < |n.children| ==> LeavesAt(n.children[j], h - 1)
  }

  /** Levels from `n` down to its leftmost leaf. */
  function Height(n: Node): nat {
    if n.children == [] then 0 else 1 + Height(n.children[0])
  }

  /** Bound below child `j` of `n`: the key to its left, or the node's own. */
  function LowerOf(n: Node, lo: Option<Elem>, j: nat): Option<Elem> {
    if 0 < j <= |n.keys| then Some(n.keys[j - 1]) else lo
  }

  /** Bound above child `j` of `n`: the key to its right, or the node's own. */
  function UpperOf(n: Node, hi: Option<Elem>, j: nat): Option<Elem> {
    if j < |n.keys| then Some(n.keys[j]) else hi
  }

  /** The search-tree order: a node's keys ascend and lie strictly between
      the bounds, and child `j` holds only elements strictly between the keys
      either side of it. */
  ghost predicate Ordered(n: Node, lo: Option<Elem>, hi: Option<Elem>) {
    Ascending(n.keys) &&
    (forall k :: 0 <= k < |n.keys| ==> Within(n.keys[k], lo, hi)) &&
    forall j :: 0 <= j < |n.children| ==> Ordered(n.children[j], LowerOf(n, lo, j), UpperOf(n, hi, j))
  }

  /** Everything a root must satisfy between two operations. */
  ghost predicate ValidTree(n: Node, order: TreeOrder) {
    Shaped(n, order, true) && LeavesAt(n, Height(n)) && Ordered(n, None, None)
  }

  /** The elements in the order set_tree_map hands them to the visitor: a
      node's keys left to right, then each child's elements in turn. */
  function Visit(n: Node): (s: seq<Elem>)
    ensures n.keys <= s
  {
    n.keys + VisitAll(n.children)
  }

  function VisitAll(cs: seq<Node>): seq<Elem> {
    if cs == [] then [] else Visit(cs[0]) + VisitAll(cs[1..])
  }

  /** The elements in symmetric order: child 0, key 0, child 1, key 1, ...,
      last child. */
  function InOrder(n: Node): seq<Elem> {
    if n.children == [] then n.keys else Interleave(n.children, n.keys)
  }

  function Interleave(cs: seq<Node>, ks: seq<Elem>): seq<Elem> {
    if cs == [] then []
    else if ks == [] then InOrder(cs[0])
    else InOrder(cs[0]) + [ks[0]] + Interleave(cs[1..], ks[1..])
  }

  /** The elements stored under `n`, counted with multiplicity. */
  function Elements(n: Node): multiset<Elem> {
    multiset(n.keys) + ElementsAll(n.children)
  }

  function ElementsAll(cs: seq<Node>): multiset<Elem> {
    if cs == [] then multiset{} else Elements(cs[0]) + ElementsAll(cs[1..])
  }

  /** What a split or a fit holds, counted with multiplicity. */
  function Contents(g: Grown): multiset<Elem> {
    match g
    case Fit(n) => Elements(n)
    case Split(l, p, r) => Elements(l) + multiset{p} + Elements(r)
  }

  /** Position of the first key not less than `x`: where `x` belongs among the
      keys, and where an equivalent key would be if there is one. */
  function FindIndex(keys: seq<Elem>, x: Elem): (i: nat)
    ensures i <= |keys|
    ensures forall j :: 0 <= j < i ==> Less(keys[j], x)
    ensures i < |keys| ==> !Less(keys[i], x)
  {
    if keys == [] || !Less(keys[0], x) then 0 else 1 + FindIndex(keys[1..], x)
  }

  /** The elements of child `j` are among those of the whole sequence. */
  lemma {:induction false} ElementsAllHasChild(cs: seq<Node>, j: nat, e: Elem)
    requires j < |cs| && e in Elements(cs[j])
    ensures e in ElementsAll(cs)
  {
    if j > 0 {
      ElementsAllHasChild(cs[1..], j - 1, e);
    }
  }

  /** set_tree_contains: descend from `n` to the stored element equivalent to
      `x`, if the search meets one. */
  function Find(n: Node, x: Elem): (r: Option<Elem>)
    requires WellFormed(n)
    ensures r.Some? ==> Equiv(r.value, x) && r.value in Elements(n)
  {
    var i := FindIndex(n.keys, x);
    if i < |n.keys| && !Less(x, n.keys[i]) then Some(n.keys[i])
    else if n.children == [] then None
    else
      var r := Find(n.children[i], x);
      if r.Some? then ElementsAllHasChild(n.children, i, r.value); r else r
  }

  /** set_insert_in_node_simple: `x` goes in at `i` and its right-hand child
      `rc`, when there is one, goes immediately right of it. In a node with
      room this is the whole insertion; in a full node it is the overfull
      node that the split then cuts in two. */
  function SimpleInsertion(n: Node, x: Elem, i: nat, rc: Option<Node>): (w: Node)
    requires i <= |n.keys|
    requires n.children == [] || |n.children| == |n.keys| + 1
    requires rc.Some? || n.children == []
    ensures |w.keys| == |n.keys| + 1 && w.keys[i] == x
    ensures w.children == [] <==> n.children == []
    ensures w.children == [] || |w.children| == |w.keys| + 1
  {
    Node(InsertAt(n.keys, i, x), if n.children == [] then [] else InsertAt(n.children, i + 1, rc.value))
  }

  /** Cut a node that holds one key too many around key `m`: the keys before
      it (with the children around them) stay, key `m` is promoted, and the
      rest form the right half. */
  function Halves(w: Node, m: nat): (g: Grown)
    requires m < |w.keys|
    requires w.children == [] || |w.children| == |w.keys| + 1
    ensures g.Split? && |g.left.keys| == m && |g.left.keys| + 1 + |g.right.keys| == |w.keys|
  {
    if w.children == [] then Split(Node(w.keys[..m], []), w.keys[m], Node(w.keys[m + 1..], []))
    else Split(Node(w.keys[..m], w.children[..m + 1]), w.keys[m], Node(w.keys[m + 1..], w.children[m + 1..]))
  }

  /** set_insert_in_node_complex: the node is full. Of the keys it would hold
      with `x` at `i`, the first ceil(|keys| / 2) stay in the node (the left
      half), the next is promoted, and the rest form a new right sibling;
      children are shared out the same way. */
  function SplitInsertion(n: Node, x: Elem, i: nat, rc: Option<Node>): (g: Grown)
    requires 1 <= |n.keys| && i <= |n.keys|
    requires n.children == [] || |n.children| == |n.keys| + 1
    requires rc.Some? || n.children == []
    ensures g.Split? && |g.left.keys| + 1 + |g.right.keys| == |n.keys| + 1
    ensures |g.right.keys| <= |g.left.keys| <= |g.right.keys| + 1
  {
    Halves(SimpleInsertion(n, x, i, rc), (|n.keys| - 1) / 2 + 1)
  }

  /** set_insert_in_node: find where `x` belongs, then insert in place or split.
      `rc` is the right half of a split child, present exactly when the node
      is internal. */
  function NodeInsertion(n: Node, x: Elem, rc: Option<Node>, order: TreeOrder): (g: Grown)
    requires n.children == [] || |n.children| == |n.keys| + 1
    requires rc.Some? <==> n.children != []
    ensures g.Split? <==> |n.keys| >= MaxKeys(order)
    ensures g.Fit? ==> |g.node.keys| == |n.keys| + 1 && (g.node.children == [] <==> n.children == [])
  {
    var i := FindIndex(n.keys, x);
    if |n.keys| < MaxKeys(order) then Fit(SimpleInsertion(n, x, i, rc))
    else SplitInsertion(n, x, i, rc)
  }

  /** set_tree_insert: descend to the leaf where `x` belongs and insert it
      there, taking in any split on the way back up. An equivalent stored key
      met on the way stops the insertion with the tree unchanged. */
  function TreeInsertion(n: Node, x: Elem, order: TreeOrder): (g: Grown)
    requires WellFormed(n)
    ensures g.Fit? ==> |n.keys| <= |g.node.keys| <= |n.keys| + 1
    ensures g.Fit? ==> (g.node.children == [] <==> n.children == [])
  {
    var i := FindIndex(n.keys, x);
    if i < |n.keys| && !Less(x, n.keys[i]) then Fit(n)
    else if n.children == [] then NodeInsertion(n, x, None, order)
    else
      match TreeInsertion(n.children[i], x, order)
      case Fit(c) => Fit(n.(children := n.children[i := c]))
      case Split(l, p, r) => NodeInsertion(n.(children := n.children[i := l]), p, Some(r), order)
  }

  /** set_insert: an empty set gets a leaf root holding `x`; a root that
      splits is replaced by a new root holding only the pivot, with the two
      halves as its children. */
  function SetInsertion(root: Option<Node>, x: Elem, order: TreeOrder): (r: Node)
    requires root.Some? ==> WellFormed(root.value)
    ensures root.None? ==> x in r.keys && r.children == []
    ensures root.Some? ==> |root.value.keys| <= |r.keys| || (|r.keys| == 1 && |r.children| == 2)
  {
    match root
    case None => Node([x], [])
    case Some(n) =>
      match TreeInsertion(n, x, order)
      case Fit(m) => m
      case Split(l, p, r) => Node([p], [l, r])
  }
}
