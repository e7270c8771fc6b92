/** The insertion code of set.c as it runs: the scan for the insertion
    index, node-level insertion editing the node's key and child buffers in
    place, and the recursive descent that takes in splits on the way back up.
    Each method is proved to compute the function of the same name in
    module Tree, whose properties are proved in Multisets, Ordering and
    Shape. */
module TreeInsert {
  import opened Order
  import opened Tree
  import opened Buffer

  /** The scan of set.c:184-188 (as its comment intends) and of
      set.c:208-218: walk the keys left to right and stop at the first one
      not less than `x`. */
  method Scan(keys: seq<Elem>, x: Elem) returns (i: nat)
    ensures i == FindIndex(keys, x)
    ensures i <= |keys| && forall j :: 0 <= j < i ==> Less(keys[j], x)
    ensures i < |keys| ==> !Less(keys[i], x)
  {
    i := 0;
    while i < |keys| && Less(keys[i], x)
      invariant i <= FindIndex(keys, x)
      invariant forall j :: 0 <= j < i ==> Less(keys[j], x)
    {
      i := i + 1;
    }
  }

  /** A node buffer of capacity `cap` whose first `|s|` slots hold `s`; the
      rest hold `fill`, standing for the C's unused slots. */
  method Load<T>(s: seq<T>, cap: nat, fill: T) returns (a: array<T>)
    requires |s| <= cap
    ensures fresh(a) && a.Length == cap && a[..|s|] == s
  {
    a := new T[cap](j => if 0 <= j < |s| then s[j] else fill);
  }

  /** One node buffer of capacity `cap` holding `s` takes in `x` at `i`
      in place. */
  method ShiftBuffer<T>(s: seq<T>, cap: nat, i: nat, x: T) returns (r: seq<T>)
    requires i <= |s| < cap
    ensures r == InsertAt(s, i, x)
  {
    var a := Load(s, cap, x);
    ShiftInsert(a, |s|, i, x);
    r := a[..|s| + 1];
  }

  /** One full node buffer of capacity `cap` holding `s` takes in `x` at
      `i` by splitting: the first `keep` entries stay, entry `keep` is handed
      back, and the entries from `keep + skip` on move to a new buffer. */
  method SplitBuffer<T>(s: seq<T>, cap: nat, i: nat, x: T, keep: nat, skip: nat)
    returns (left: seq<T>, mid: T, right: seq<T>)
    requires i <= |s| <= cap
    requires keep <= |s| && 1 <= keep + skip <= |s| + 1
    ensures left == InsertAt(s, i, x)[..keep]
    ensures mid == InsertAt(s, i, x)[keep]
    ensures right == InsertAt(s, i, x)[keep + skip..]
  {
    var a := Load(s, cap, x);
    var b;
    mid, b := SplitInsert(a, |s|, i, x, keep, skip);
    left := a[..keep];
    right := b[..|s| + 1 - keep - skip];
  }

  /** set_insert_in_node_simple: the node has room, so the keys from `i` on
      move one slot right in the key buffer, `x` goes into slot `i`, and in an
      internal node `rc` goes into the child buffer right of `x`. */
  method InsertSimple(n: Node, x: Elem, i: nat, rc: Option<Node>, order: TreeOrder) returns (w: Node)
    requires i <= |n.keys| < MaxKeys(order)
    requires n.children == [] || |n.children| == |n.keys| + 1
    requires rc.Some? <==> n.children != []
    ensures w == SimpleInsertion(n, x, i, rc)
  {
    var keys := ShiftBuffer(n.keys, MaxKeys(order), i, x);
    if n.children == [] {
      w := Node(keys, []);
    } else {
      var kids := ShiftBuffer(n.children, order, i + 1, rc.value);
      w := Node(keys, kids);
    }
  }

  /** set_insert_in_node_complex: the node is full, so the first
      ceil((order - 1) / 2) of the keys it would hold stay in its buffer, the
      next one is handed back as the pivot, and the rest go to the buffer of a
      new right sibling; an internal node's children are shared out the same
      way. */
  method InsertSplit(n: Node, x: Elem, i: nat, rc: Option<Node>, order: TreeOrder) returns (g: Grown)
    requires i <= |n.keys| == MaxKeys(order)
    requires n.children == [] || |n.children| == |n.keys| + 1
    requires rc.Some? <==> n.children != []
    ensures g == SplitInsertion(n, x, i, rc)
  {
    var m := (|n.keys| - 1) / 2 + 1;
    var left, pivot, right := SplitBuffer(n.keys, MaxKeys(order), i, x, m, 1);
    if n.children == [] {
      g := Split(Node(left, []), pivot, Node(right, []));
    } else {
      var leftKids, _, rightKids := SplitBuffer(n.children, order, i + 1, rc.value, m + 1, 0);
      g := Split(Node(left, leftKids), pivot, Node(right, rightKids));
    }
  }

  /** set_insert_in_node: scan for the index, then insert in place or split. */
  method InsertInNode(n: Node, x: Elem, rc: Option<Node>, order: TreeOrder) returns (g: Grown)
    requires |n.keys| <= MaxKeys(order)
    requires n.children == [] || |n.children| == |n.keys| + 1
    requires rc.Some? <==> n.children != []
    ensures g == NodeInsertion(n, x, rc, order)
  {
    var i := Scan(n.keys, x);
    if |n.keys| < MaxKeys(order) {
      var w := InsertSimple(n, x, i, rc, order);
      g := Fit(w);
    } else {
      g := InsertSplit(n, x, i, rc, order);
    }
  }

  /** set_tree_insert: find where `x` belongs, stop at an equivalent key,
      insert at a leaf, and take in a child's split on the way back up. */
  method InsertInTree(n: Node, x: Elem, order: TreeOrder, isRoot: bool) returns (g: Grown)
    requires Shaped(n, order, isRoot)
    requires WellFormed(n)
    ensures g == TreeInsertion(n, x, order)
    decreases n
  {
    var i := Scan(n.keys, x);
    if i < |n.keys| && !Less(x, n.keys[i]) {
      g := Fit(n);
    } else if n.children == [] {
      g := InsertInNode(n, x, None, order);
    } else {
      var c := InsertInTree(n.children[i], x, order, false);
      match c
      case Fit(c') =>
        g := Fit(n.(children := n.children[i := c']));
      case Split(l, p, r) =>
        g := InsertInNode(n.(children := n.children[i := l]), p, Some(r), order);
    }
  }
}
