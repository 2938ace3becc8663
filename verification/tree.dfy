/**
  The decoded document tree and the value extractors defined on it (xml/node.go).

  A node is one element: its local name, its raw inner markup, its attributes in
  document order and its child elements in document order. A node is a leaf exactly
  when it has no child elements; leaf-ness alone decides whether a node's inner
  markup counts as a value.
 */
module Tree {

  /** One attribute: its local name (the namespace part is dropped) and its value. */
  datatype Attr = Attr(name: string, value: string)

  datatype Node = Node(name: string, content: string, attrs: seq<Attr>, children: seq<Node>)
  {
    predicate IsLeaf() {
      |children| == 0
    }
  }

  /** The number of leaves among `ns` themselves (their descendants are not looked at). */
  function LeafCount(ns: seq<Node>): nat
  {
    if |ns| == 0 then 0
    else (if ns[0].IsLeaf() then 1 else 0) + LeafCount(ns[1..])
  }

  /** The inner markup of each leaf among `ns`, in document order. */
  function LeafContents(ns: seq<Node>): (r: seq<string>)
    ensures |r| == LeafCount(ns)
  {
    if |ns| == 0 then []
    else (if ns[0].IsLeaf() then [ns[0].content] else []) + LeafContents(ns[1..])
  }

  /**
    The shallow values of a node: its own inner markup when it is a leaf, followed by
    the inner markup of every immediate leaf child.
   */
  function Values(n: Node): (r: seq<string>)
    ensures n.IsLeaf() ==> r == [n.content]
    ensures !n.IsLeaf() ==> r == LeafContents(n.children)
    ensures |r| == if n.IsLeaf() then 1 else LeafCount(n.children)
  {
    (if n.IsLeaf() then [n.content] else []) + LeafContents(n.children)
  }

  /** `attrs[i]` is the first attribute whose local name is `key`. */
  predicate FirstNamed(attrs: seq<Attr>, key: string, i: int)
  {
    && 0 <= i < |attrs|
    && attrs[i].name == key
    && forall j :: 0 <= j < i ==> attrs[j].name != key
  }

  /**
    The value of the first attribute whose local name is `key`, and the empty string
    when there is none. The lookup never fails.
   */
  function FindAttributeValue(attrs: seq<Attr>, key: string): (r: string)
    ensures forall i :: FirstNamed(attrs, key, i) ==> r == attrs[i].value
    ensures (forall i :: 0 <= i < |attrs| ==> attrs[i].name != key) ==> r == ""
  {
    if |attrs| == 0 then ""
    else if attrs[0].name == key then attrs[0].value
    else
      assert forall i :: FirstNamed(attrs, key, i) ==> FirstNamed(attrs[1..], key, i - 1);
      FindAttributeValue(attrs[1..], key)
  }

  /** `v` once for every leaf among `ns`. */
  function OnePerLeaf(ns: seq<Node>, v: string): (r: seq<string>)
    ensures |r| == LeafCount(ns)
    ensures forall i :: 0 <= i < |r| ==> r[i] == v
  {
    if |ns| == 0 then []
    else (if ns[0].IsLeaf() then [v] else []) + OnePerLeaf(ns[1..], v)
  }

  /**
    The attribute values of a node: one entry wherever `Values` has one, each holding
    the attribute `att` looked up on the node itself, never on the child that
    produced the entry. A missing attribute gives an empty string, not a missing entry.
   */
  function ValuesFromAttributes(n: Node, att: string): (r: seq<string>)
    ensures |r| == |Values(n)|
    ensures forall i :: 0 <= i < |r| ==> r[i] == FindAttributeValue(n.attrs, att)
  {
    var v := FindAttributeValue(n.attrs, att);
    (if n.IsLeaf() then [v] else []) + OnePerLeaf(n.children, v)
  }

  /** Leaf contents distribute over concatenation: the order is document order. */
  lemma {:induction false} LeafContentsAppend(xs: seq<Node>, ys: seq<Node>)
    ensures LeafContents(xs + ys) == LeafContents(xs) + LeafContents(ys)
    decreases |xs|
  {
    if |xs| == 0 {
      assert xs + ys == ys;
    } else {
      assert (xs + ys)[1..] == xs[1..] + ys;
      LeafContentsAppend(xs[1..], ys);
    }
  }

  /**
    A child that is not a leaf contributes nothing to its parent's values, whatever
    lies beneath it, as long as the parent keeps at least one other child.
   */
  lemma NonLeafChildIgnored(n: Node, xs: seq<Node>, k: Node, ys: seq<Node>)
    requires n.children == xs + [k] + ys
    requires !k.IsLeaf()
    requires |xs + ys| > 0
    ensures Values(n) == Values(n.(children := xs + ys))
  {
    LeafContentsAppend(xs + [k], ys);
    LeafContentsAppend(xs, [k]);
    LeafContentsAppend(xs, ys);
    assert LeafContents([k]) == [] by {
      assert [k][1..] == [];
    }
  }

  /** A leaf child contributes exactly its own inner markup, at its own position. */
  lemma LeafChildContributes(n: Node, xs: seq<Node>, k: Node, ys: seq<Node>)
    requires n.children == xs + [k] + ys
    requires k.IsLeaf()
    ensures Values(n) == LeafContents(xs) + [k.content] + LeafContents(ys)
  {
    LeafContentsAppend(xs + [k], ys);
    LeafContentsAppend(xs, [k]);
    assert LeafContents([k]) == [k.content] by {
      assert [k][1..] == [];
    }
  }

  /**
    The nodes of the forest `ns` in document order: a node, then the nodes below it,
    then its later siblings and the nodes below them.
   */
  function PreOrder(ns: seq<Node>): (r: seq<Node>)
    ensures |ns| <= |r|
    ensures |ns| > 0 ==> r[0] == ns[0]
    decreases ns
  {
    if |ns| == 0 then []
    else [ns[0]] + PreOrder(ns[0].children) + PreOrder(ns[1..])
  }

  /** No node of the forest is lost: each one appears in its document order. */
  lemma {:induction false} PreOrderKeeps(ns: seq<Node>, i: nat)
    requires i < |ns|
    ensures ns[i] in PreOrder(ns)
    decreases |ns|
  {
    if i > 0 {
      PreOrderKeeps(ns[1..], i - 1);
      assert ns[1..][i - 1] == ns[i];
    }
  }

  /** Every node below a node of the forest is itself in the forest's document order. */
  lemma {:induction false} PreOrderBelow(ns: seq<Node>, i: nat)
    requires i < |ns|
    ensures forall m :: m in PreOrder(ns[i].children) ==> m in PreOrder(ns)
    decreases |ns|
  {
    if i > 0 {
      PreOrderBelow(ns[1..], i - 1);
      assert ns[1..][i - 1] == ns[i];
    }
  }

  /** The document order of a forest is that of its parts, one after the other. */
  lemma {:induction false} PreOrderAppend(xs: seq<Node>, ys: seq<Node>)
    ensures PreOrder(xs + ys) == PreOrder(xs) + PreOrder(ys)
    decreases |xs|
  {
    if |xs| > 0 {
      assert (xs + ys)[0] == xs[0];
      assert (xs + ys)[1..] == xs[1..] + ys;
      PreOrderAppend(xs[1..], ys);
    } else {
      assert xs + ys == ys;
    }
  }

  /** A forest of leaves is its own document order. */
  lemma {:induction false} LeavesPreOrder(ls: seq<Node>)
    requires forall i :: 0 <= i < |ls| ==> ls[i].IsLeaf()
    ensures PreOrder(ls) == ls
  {
    if |ls| > 0 {
      assert ls[0].children == [];
      LeavesPreOrder(ls[1..]);
      assert [ls[0]] + ls[1..] == ls;
    }
  }

  /** The decoder never produces an element with an empty local name. */
  predicate NamedTree(root: Node)
  {
    forall m :: m in PreOrder([root]) ==> m.name != ""
  }
}
