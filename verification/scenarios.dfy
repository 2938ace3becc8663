/**
  The documents of xml/xml_test.go, built by hand, and the queries run on them.

  Each query is proved in three layers: the path's segments, a scan lemma over ANY
  sequence of nodes whose names have the shape the query needs, and the instance for
  the document at hand. Inner markup that no query reads is left empty, and so are
  the attributes no query reads.
 */
module Scenarios {
  import opened Wrappers
  import opened Tree
  import opened Segments
  import opened Engine

  function Leaf(name: string, content: string): Node
  {
    Node(name, content, [], [])
  }

  function Elem(name: string, children: seq<Node>): Node
  {
    Node(name, "", [], children)
  }

  // ---------------------------------------------------------------------------
  // Paths and segments

  lemma SplitTwo(a: string, b: string)
    requires '/' !in a && '/' !in b
    ensures Split(a + "/" + b) == [a, b]
  {
    var parts := [a, b];
    assert parts[1..] == [b];
    SplitJoin(parts);
  }

  lemma SplitThree(a: string, b: string, c: string)
    requires '/' !in a && '/' !in b && '/' !in c
    ensures Split(a + "/" + (b + "/" + c)) == [a, b, c]
  {
    var parts := [a, b, c];
    assert parts[1..] == [b, c];
    assert parts[1..][1..] == [c];
    assert Join(parts[1..]) == b + "/" + c;
    assert Join(parts) == a + "/" + (b + "/" + c);
    SplitJoin(parts);
  }

  /** A name or segment with neither an index nor a selector in it. */
  predicate Plain(s: string)
  {
    '[' !in s && '@' !in s
  }

  /** A segment without `[` has no index reading. */
  lemma NoBrackets(s: string)
    requires '[' !in s
    ensures !HasIndex(s) && ParseIndex(s).None?
  {
    assert forall i :: 0 <= i < |s| ==> !IndexAt(s, i);
  }

  /** A segment without `@` has no attribute reading. */
  lemma NoSelector(s: string)
    requires '@' !in s
    ensures ParseAttr(s).None?
  {
    assert forall j :: 0 <= j < |s| ==> !AttrAt(s, j);
  }

  /** `pre[k]` followed by a suffix without `[` reads back as its parts. */
  lemma IndexSegment(s: string, pre: string, k: nat, post: string)
    requires k < 10 && '[' !in post && s == FormatIndex(pre, k, post)
    ensures ParseIndex(s) == Some(Indexed(pre, k, post))
  {
    NoBrackets(post);
    ParseFormatIndex(pre, k, post);
  }

  /**
    An indexed segment whose name part holds no `@` selects an attribute for no name
    without `[`: every `@` in it lies after the bracket.
   */
  lemma IndexedSelectsNone(name: string, pre: string, k: nat, post: string)
    requires k < 10 && '@' !in pre && '[' !in name
    ensures AttrMatch(name, [FormatIndex(pre, k, post)]).None?
  {
    var s := FormatIndex(pre, k, post);
    assert forall j :: 0 <= j < |pre| ==> s[j] == pre[j];
    assert forall j :: 0 <= j < |pre| + 3 ==> !AttrAt(s, j);
    match ParseAttr(s)
    case None =>
    case Some(sel) =>
      assert |sel.pre| >= |pre| + 3;
      assert sel.pre[|pre|] == '[';
  }

  // ---------------------------------------------------------------------------
  // Single visits

  /** A node whose name neither the countdown, descent nor a match can use is inert. */
  predicate Unrelated(name: string, stack: seq<string>)
  {
    && |stack| > 0
    && name != stack[0]
    && (ParseIndex(stack[0]).None? || ParseIndex(stack[0]).value.pre != name)
    && AttrMatch(name, stack).None?
  }

  lemma UnrelatedPlain(name: string, s: string)
    requires Plain(s) && name != s
    ensures Unrelated(name, [s])
  {
    NoBrackets(s);
    NoSelector(s);
  }

  lemma UnrelatedAbove(name: string, stack: seq<string>)
    requires |stack| > 1 && '[' !in stack[0] && name != stack[0]
    ensures Unrelated(name, stack)
  {
    NoBrackets(stack[0]);
  }

  lemma UnrelatedIndexed(name: string, pre: string, k: nat, post: string, rest: seq<string>)
    requires k < 10 && '[' !in post && '@' !in pre && '[' !in name && name != pre
    ensures Unrelated(name, [FormatIndex(pre, k, post)] + rest)
  {
    var s := FormatIndex(pre, k, post);
    IndexSegment(s, pre, k, post);
    assert s[|pre|] == '[';
    if |rest| == 0 {
      assert [s] + rest == [s];
      IndexedSelectsNone(name, pre, k, post);
    }
  }

  /** Plain descent through a node whose name is the head, with no match after it. */
  lemma Descend(n: Node, stack: seq<string>)
    requires |stack| > 1 && n.name == stack[0] && ParseIndex(stack[0]).None?
    requires |stack| > 2 || (stack[1] != n.name && AttrMatch(n.name, stack[1..]).None?)
    ensures Visit(n, stack) == Search(stack[1..], None)
  {
  }

  /** A node that meets the head `name[0]` for its own name above further segments pops it. */
  lemma IndexHitPops(n: Node, stack: seq<string>)
    requires |stack| > 1 && stack[0] == FormatIndex(n.name, 0, "")
    requires !TextMatch(n.name, stack[1..]) && AttrMatch(n.name, stack[1..]).None?
    ensures Visit(n, stack) == Search(stack[1..], None)
  {
    IndexSegment(stack[0], n.name, 0, "");
    TrimHit(n.name, stack, "");
  }

  /** A node named `name` that meets the last segment `name[0]` is the match. */
  lemma IndexHitMatches(n: Node, name: string)
    requires n.name == name
    ensures Visit(n, [FormatIndex(name, 0, "")]) == Search([], Some(Text(n)))
  {
    IndexSegment(FormatIndex(name, 0, ""), name, 0, "");
    TrimHit(name, [FormatIndex(name, 0, "")], "");
    assert name + "" == name;
  }

  /** A node named `name` that meets the last segment `name[0]post` is selected by `post`. */
  lemma IndexHitSelects(n: Node, name: string, post: string, att: string)
    requires n.name == name && '[' !in post
    requires AttrMatch(name, [name + post]) == Some(att)
    ensures Visit(n, [FormatIndex(name, 0, post)]) == Search([], Some(Attribute(n, att)))
  {
    IndexSegment(FormatIndex(name, 0, post), name, 0, post);
    TrimHit(name, [FormatIndex(name, 0, post)], post);
  }

  /** The last segment, equal to the node's name, is a text match. */
  lemma TextHit(n: Node, s: string)
    requires n.name == s && ParseIndex(s).None?
    ensures Visit(n, [s]) == Search([], Some(Text(n)))
  {
  }

  /** The last segment, read as `name@att` for the node's name, is an attribute match. */
  lemma AttrHit(n: Node, s: string, att: string)
    requires ParseIndex(s).None? && AttrMatch(n.name, [s]) == Some(att)
    ensures Visit(n, [s]) == Search([], Some(Attribute(n, att)))
  {
  }

  // ---------------------------------------------------------------------------
  // Stretches of a scan

  /** A scan from position `i` visits the node there first. */
  lemma ScanOne(ns: seq<Node>, i: nat, stack: seq<string>)
    requires i < |ns|
    ensures Locate(ns[i..], stack) ==
      var v := Visit(ns[i], stack); if v.found.Some? then v else Locate(ns[i + 1..], v.stack)
  {
    assert ns[i..][0] == ns[i];
    assert ns[i..][1..] == ns[i + 1..];
  }

  /** A scan passes over a run of unrelated nodes without any effect. */
  lemma {:induction false} SkipRange(ns: seq<Node>, i: nat, j: nat, stack: seq<string>)
    requires i <= j <= |ns|
    requires forall m :: i <= m < j ==> Unrelated(ns[m].name, stack)
    ensures Locate(ns[i..], stack) == Locate(ns[j..], stack)
    decreases j - i
  {
    if i < j {
      ScanOne(ns, i, stack);
      SkipRange(ns, i + 1, j, stack);
    }
  }

  /** Between positions `i` and `j` no node is named `pre` and no name holds a `[`. */
  predicate Avoids(ns: seq<Node>, i: nat, j: nat, pre: string)
  {
    forall m :: i <= m < j && m < |ns| ==> ns[m].name != pre && '[' !in ns[m].name
  }

  /** Nodes named neither `pre` nor with a `[` pass under an indexed head `pre[k]post`. */
  lemma SkipToIndexed(ns: seq<Node>, i: nat, j: nat, pre: string, k: nat, post: string, rest: seq<string>)
    requires i <= j <= |ns| && k < 10 && '[' !in post && '@' !in pre && Avoids(ns, i, j, pre)
    ensures Locate(ns[i..], [FormatIndex(pre, k, post)] + rest) == Locate(ns[j..], [FormatIndex(pre, k, post)] + rest)
  {
    var stack := [FormatIndex(pre, k, post)] + rest;
    forall m | i <= m < j
      ensures Unrelated(ns[m].name, stack)
    {
      UnrelatedIndexed(ns[m].name, pre, k, post, rest);
    }
    SkipRange(ns, i, j, stack);
  }

  /** A node that heads the stack and is not the last segment is descended through. */
  lemma DescendAt(ns: seq<Node>, i: nat, a: string, rest: seq<string>)
    requires i < |ns| && ns[i].name == a && '[' !in a && |rest| > 0
    requires |rest| > 1 || (rest[0] != a && AttrMatch(a, rest).None?)
    ensures Locate(ns[i..], [a] + rest) == Locate(ns[i + 1..], rest)
  {
    NoBrackets(a);
    assert ([a] + rest)[1..] == rest;
    Descend(ns[i], [a] + rest);
    ScanOne(ns, i, [a] + rest);
  }

  /** `pre[1]post` over further segments counts down at the next node named `pre`. */
  lemma CountAt(ns: seq<Node>, i: nat, j: nat, pre: string, post: string, rest: seq<string>)
    requires i <= j < |ns| && ns[j].name == pre && '[' !in post && '@' !in pre && Avoids(ns, i, j, pre)
    ensures Locate(ns[i..], [FormatIndex(pre, 1, post)] + rest)
      == Locate(ns[j + 1..], [FormatIndex(pre, 0, post)] + rest)
  {
    SkipToIndexed(ns, i, j, pre, 1, post, rest);
    ScanOne(ns, j, [FormatIndex(pre, 1, post)] + rest);
    NoBrackets(post);
    CountdownStep(ns[j], pre, 1, post, rest);
  }

  /** `pre[0]` over further segments is popped at the next node named `pre`. */
  lemma PopAt(ns: seq<Node>, i: nat, j: nat, pre: string, rest: seq<string>)
    requires i <= j < |ns| && ns[j].name == pre && '@' !in pre && |rest| > 0 && Avoids(ns, i, j, pre)
    requires !TextMatch(pre, rest) && AttrMatch(pre, rest).None?
    ensures Locate(ns[i..], [FormatIndex(pre, 0, "")] + rest) == Locate(ns[j + 1..], rest)
  {
    var stack := [FormatIndex(pre, 0, "")] + rest;
    SkipToIndexed(ns, i, j, pre, 0, "", rest);
    ScanOne(ns, j, stack);
    assert stack[1..] == rest;
    IndexHitPops(ns[j], stack);
  }

  /** The last segment `pre[0]` is met by the next node named `pre`. */
  lemma IndexTextAt(ns: seq<Node>, i: nat, k: nat, pre: string)
    requires i <= k < |ns| && ns[k].name == pre && '@' !in pre && Avoids(ns, i, k, pre)
    ensures Locate(ns[i..], [FormatIndex(pre, 0, "")] + []) == Search([], Some(Text(ns[k])))
  {
    var stack := [FormatIndex(pre, 0, "")];
    assert stack + [] == stack;
    SkipToIndexed(ns, i, k, pre, 0, "", []);
    ScanOne(ns, k, stack);
    IndexHitMatches(ns[k], pre);
  }

  /** The last plain segment `s` is met by the first node named `s`. */
  lemma TextAt(ns: seq<Node>, i: nat, k: nat, s: string)
    requires i <= k < |ns| && Plain(s) && ns[k].name == s
    requires forall m :: i <= m < k ==> ns[m].name != s
    ensures Locate(ns[i..], [s]) == Search([], Some(Text(ns[k])))
  {
    forall m | i <= m < k
      ensures Unrelated(ns[m].name, [s])
    {
      UnrelatedPlain(ns[m].name, s);
    }
    SkipRange(ns, i, k, [s]);
    ScanOne(ns, k, [s]);
    NoBrackets(s);
    TextHit(ns[k], s);
  }

  // ---------------------------------------------------------------------------
  // Scans of the shapes the queries take

  /** `a/s`: descend at the node at `i`, then stop at the next node named `s`. */
  lemma PlainPair(ns: seq<Node>, i: nat, a: string, s: string, k: nat)
    requires i < k < |ns| && Plain(a) && Plain(s) && a != s
    requires ns[i].name == a && ns[k].name == s
    requires forall m :: i < m < k ==> ns[m].name != s
    ensures Locate(ns[i..], [a, s]) == Search([], Some(Text(ns[k])))
  {
    NoSelector(s);
    assert [a, s] == [a] + [s];
    DescendAt(ns, i, a, [s]);
    TextAt(ns, i + 1, k, s);
  }

  /** `a/s` where `a` first names the node at `i`: every node before it is passed over. */
  lemma LaterPair(ns: seq<Node>, a: string, s: string, i: nat, k: nat)
    requires i < k < |ns| && Plain(a) && Plain(s) && a != s
    requires ns[i].name == a && ns[k].name == s
    requires forall m :: 0 <= m < i ==> ns[m].name != a
    requires forall m :: i < m < k ==> ns[m].name != s
    ensures Locate(ns, [a, s]) == Search([], Some(Text(ns[k])))
  {
    forall m | 0 <= m < i
      ensures Unrelated(ns[m].name, [a, s])
    {
      UnrelatedAbove(ns[m].name, [a, s]);
    }
    SkipRange(ns, 0, i, [a, s]);
    assert ns[0..] == ns;
    PlainPair(ns, i, a, s, k);
  }

  /** `a/pre[k]post` as the whole path: descend at the first node, named `a`. */
  lemma DescendToIndexed(ns: seq<Node>, a: string, pre: string, k: nat, post: string)
    requires 0 < |ns| && ns[0].name == a && Plain(a) && Plain(pre) && k < 10
    ensures Locate(ns, [a, FormatIndex(pre, k, post)]) == Locate(ns[1..], [FormatIndex(pre, k, post)] + [])
  {
    var s := FormatIndex(pre, k, post);
    assert s[|pre|] == '[';
    IndexedSelectsNone(a, pre, k, post);
    assert ns[0..] == ns;
    assert [a, s] == [a] + ([s] + []);
    DescendAt(ns, 0, a, [s] + []);
  }

  /** `a/pre[1]`: descend at the first node, then take the second node named `pre`. */
  lemma SecondOfName(ns: seq<Node>, a: string, pre: string, j: nat, k: nat)
    requires 0 < j < k < |ns| && Plain(a) && Plain(pre)
    requires ns[0].name == a && ns[j].name == pre && ns[k].name == pre
    requires Avoids(ns, 1, j, pre) && Avoids(ns, j + 1, k, pre)
    ensures Locate(ns, [a, FormatIndex(pre, 1, "")]) == Search([], Some(Text(ns[k])))
  {
    DescendToIndexed(ns, a, pre, 1, "");
    CountAt(ns, 1, j, pre, "", []);
    IndexTextAt(ns, j + 1, k, pre);
  }

  /** `a/pre[0]/s`: descend, pop at the first node named `pre`, then stop at the next `s`. */
  lemma FirstThenChild(ns: seq<Node>, a: string, pre: string, s: string, j: nat, k: nat)
    requires 0 < j < k < |ns| && Plain(a) && Plain(pre) && Plain(s) && s != pre
    requires ns[0].name == a && ns[j].name == pre && ns[k].name == s
    requires Avoids(ns, 1, j, pre)
    requires forall m :: j < m < k ==> ns[m].name != s
    ensures Locate(ns, [a, FormatIndex(pre, 0, ""), s]) == Search([], Some(Text(ns[k])))
  {
    var zero := FormatIndex(pre, 0, "");
    assert ns[0..] == ns;
    assert [a, zero, s] == [a] + ([zero] + [s]);
    DescendAt(ns, 0, a, [zero] + [s]);
    NoSelector(s);
    PopAt(ns, 1, j, pre, [s]);
    TextAt(ns, j + 1, k, s);
  }

  /** The last segment `s`, reading as `el@att`, is met by the next node named `el`. */
  lemma SelectAt(ns: seq<Node>, i: nat, k: nat, s: string, el: string, att: string)
    requires i <= k < |ns| && ns[k].name == el
    requires ParseIndex(s).None? && ParseAttr(s) == Some(Selector(el, att))
    requires forall m :: i <= m < k ==> ns[m].name != el && ns[m].name != s
    ensures Locate(ns[i..], [s]) == Search([], Some(Attribute(ns[k], att)))
  {
    SkipRange(ns, i, k, [s]);
    ScanOne(ns, k, [s]);
    AttrHit(ns[k], s, att);
  }

  /** `pre[0]` then `s` reading as `el@att`: pop at the next `pre`, then select on the next `el`. */
  lemma PopThenSelect(ns: seq<Node>, i: nat, j: nat, k: nat, pre: string, s: string, el: string, att: string)
    requires i <= j < k < |ns| && Plain(pre) && '[' !in s && pre != el && s != pre
    requires ParseAttr(s) == Some(Selector(el, att))
    requires ns[j].name == pre && ns[k].name == el && Avoids(ns, i, j, pre)
    requires forall m :: j < m < k ==> ns[m].name != el && ns[m].name != s
    ensures Locate(ns[i..], [FormatIndex(pre, 0, "")] + [s]) == Search([], Some(Attribute(ns[k], att)))
  {
    NoBrackets(s);
    PopAt(ns, i, j, pre, [s]);
    SelectAt(ns, j + 1, k, s, el, att);
  }

  /**
    `a/pre[1]/s` with `s` reading as `el@att`: descend, count down at the first node
    named `pre`, pop at the second, then select `att` on the next node named `el`.
   */
  lemma SecondThenSelect(ns: seq<Node>, a: string, pre: string, s: string, el: string, att: string,
                         j: nat, j': nat, k: nat)
    requires 0 < j < j' < k < |ns| && Plain(a) && Plain(pre) && '[' !in s && pre != el && s != pre
    requires ParseAttr(s) == Some(Selector(el, att))
    requires ns[0].name == a && ns[j].name == pre && ns[j'].name == pre && ns[k].name == el
    requires Avoids(ns, 1, j, pre) && Avoids(ns, j + 1, j', pre)
    requires forall m :: j' < m < k ==> ns[m].name != el && ns[m].name != s
    ensures Locate(ns, [a, FormatIndex(pre, 1, ""), s]) == Search([], Some(Attribute(ns[k], att)))
  {
    var one := FormatIndex(pre, 1, "");
    assert ns[0..] == ns;
    assert [a, one, s] == [a] + ([one] + [s]);
    DescendAt(ns, 0, a, [one] + [s]);
    CountAt(ns, 1, j, pre, "", [s]);
    PopThenSelect(ns, j + 1, j', k, pre, s, el, att);
  }

  /** The last segment `pre[0]post`, with `pre` then `post` selecting `att`, is met by the next `pre`. */
  lemma IndexSelectAt(ns: seq<Node>, i: nat, k: nat, pre: string, post: string, att: string)
    requires i <= k < |ns| && ns[k].name == pre && '@' !in pre && '[' !in post && Avoids(ns, i, k, pre)
    requires AttrMatch(pre, [pre + post]) == Some(att)
    ensures Locate(ns[i..], [FormatIndex(pre, 0, post)] + []) == Search([], Some(Attribute(ns[k], att)))
  {
    var stack := [FormatIndex(pre, 0, post)];
    assert stack + [] == stack;
    SkipToIndexed(ns, i, k, pre, 0, post, []);
    ScanOne(ns, k, stack);
    IndexHitSelects(ns[k], pre, post, att);
  }

  /**
    `a/pre[1]post` with `pre` followed by `post` selecting `att`: descend, count down at
    the first node named `pre`, then select `att` on the second.
   */
  lemma SecondSelected(ns: seq<Node>, a: string, pre: string, post: string, att: string, j: nat, k: nat)
    requires 0 < j < k < |ns| && Plain(a) && Plain(pre) && '[' !in post
    requires AttrMatch(pre, [pre + post]) == Some(att)
    requires ns[0].name == a && ns[j].name == pre && ns[k].name == pre
    requires Avoids(ns, 1, j, pre) && Avoids(ns, j + 1, k, pre)
    ensures Locate(ns, [a, FormatIndex(pre, 1, post)]) == Search([], Some(Attribute(ns[k], att)))
  {
    DescendToIndexed(ns, a, pre, 1, post);
    CountAt(ns, 1, j, pre, post, []);
    IndexSelectAt(ns, j + 1, k, pre, post, att);
  }

  // ---------------------------------------------------------------------------
  // From a scan to a query

  /**
    A query whose path splits into `parts` reads the node the scan of the tree finds:
    `v` shallowly and `w` with the recursive collector `rec`.
   */
  lemma Query(path: string, root: Node, parts: seq<string>, ns: seq<Node>, sel: Selection,
              rec: (Node, seq<string>) -> seq<string>, v: seq<string>, w: seq<string>)
    requires Split(path) == parts && PreOrder([root]) == ns
    requires Locate(ns, parts) == Search([], Some(sel))
    requires Extract(Some(sel), Shallow()) == v && Extract(Some(sel), Recursive(rec)) == w
    ensures Parse(path, root) == v
    ensures ParseRecursive(path, root, rec) == w
  {
  }

  /** A text selection reads the node's values; the recursive collector starts from nothing. */
  lemma ReadText(n: Node, rec: (Node, seq<string>) -> seq<string>)
    ensures Extract(Some(Text(n)), Shallow()) == Values(n)
    ensures Extract(Some(Text(n)), Recursive(rec)) == rec(n, [])
  {
  }

  /** An attribute selection reads the attribute once per value of the node. */
  lemma ReadAttribute(n: Node, att: string, rec: (Node, seq<string>) -> seq<string>)
    ensures Extract(Some(Attribute(n, att)), Shallow()) == ValuesFromAttributes(n, att)
    ensures Extract(Some(Attribute(n, att)), Recursive(rec)) == rec(n, ValuesFromAttributes(n, att))
  {
  }

  // ---------------------------------------------------------------------------
  // simpleXml

  function Foo0(): Node
  {
    Elem("foo", [Leaf("p", "foo content 0"), Bar()])
  }

  function Bar(): Node
  {
    Elem("bar", [Leaf("p", "john"), Leaf("p", "doe")])
  }

  function Baz(): Node
  {
    Elem("baz", [Node("p", "baz content 0", [Attr("class", "baz")], []), Leaf("p", "baz content 1")])
  }

  function Foo1(): Node
  {
    Elem("foo", [Leaf("p", "foo content 1")])
  }

  function Simple(): Node
  {
    Elem("root", [Leaf("p", "content 0"), Foo0(), Baz(), Foo1()])
  }

  function SimpleNodes(): seq<Node>
  {
    [ Simple(), Leaf("p", "content 0")
    , Foo0(), Leaf("p", "foo content 0"), Bar(), Leaf("p", "john"), Leaf("p", "doe")
    , Baz(), Baz().children[0], Leaf("p", "baz content 1")
    , Foo1(), Leaf("p", "foo content 1") ]
  }

  lemma SimplePreOrder()
    ensures PreOrder([Simple()]) == SimpleNodes()
  {
  }

  /** The element names of simpleXml in document order. */
  lemma SimpleNames()
    ensures var ns := SimpleNodes();
      && |ns| == 12
      && ns[0].name == "root" && ns[1].name == "p" && ns[2].name == "foo" && ns[3].name == "p"
      && ns[4].name == "bar" && ns[5].name == "p" && ns[6].name == "p" && ns[7].name == "baz"
      && ns[8].name == "p" && ns[9].name == "p" && ns[10].name == "foo" && ns[11].name == "p"
  {
  }

  lemma SimpleDepthZero(rec: (Node, seq<string>) -> seq<string>)
    ensures Parse("root", Simple()) == ["content 0"]
    ensures ParseRecursive("root", Simple(), rec) == rec(Simple(), [])
  {
    SplitJoin(["root"]);
  }

  lemma PathRootBaz()
    ensures Split("root/baz") == ["root", "baz"]
  {
    SplitTwo("root", "baz");
    assert "root" + "/" + "baz" == "root/baz";
  }

  lemma LocateRootBaz()
    ensures Locate(SimpleNodes(), ["root", "baz"]) == Search([], Some(Text(Baz())))
  {
    var ns := SimpleNodes();
    SimpleNames();
    assert ns[0..] == ns;
    PlainPair(ns, 0, "root", "baz", 7);
  }

  lemma BazValues()
    ensures Values(Baz()) == ["baz content 0", "baz content 1"]
  {
  }

  lemma SimpleDepthOne(rec: (Node, seq<string>) -> seq<string>)
    ensures Parse("root/baz", Simple()) == ["baz content 0", "baz content 1"]
    ensures ParseRecursive("root/baz", Simple(), rec) == rec(Baz(), [])
  {
    PathRootBaz();
    SimplePreOrder();
    LocateRootBaz();
    BazValues();
    ReadText(Baz(), rec);
    Query("root/baz", Simple(), ["root", "baz"], SimpleNodes(), Text(Baz()), rec,
      ["baz content 0", "baz content 1"], rec(Baz(), []));
  }

  lemma PathRootFoo1()
    ensures Split("root/foo[1]") == ["root", "foo[1]"]
  {
    SplitTwo("root", "foo[1]");
    assert "root" + "/" + "foo[1]" == "root/foo[1]";
  }

  lemma FooSegments()
    ensures FormatIndex("foo", 1, "") == "foo[1]" && FormatIndex("foo", 0, "") == "foo[0]"
  {
  }

  lemma LocateRootFoo1()
    ensures Locate(SimpleNodes(), ["root", "foo[1]"]) == Search([], Some(Text(Foo1())))
  {
    var ns := SimpleNodes();
    SimpleNames();
    SecondOfName(ns, "root", "foo", 2, 10);
    FooSegments();
  }

  lemma Foo1Values()
    ensures Values(Foo1()) == ["foo content 1"]
  {
  }

  lemma SimpleDepthOneIndexed(rec: (Node, seq<string>) -> seq<string>)
    ensures Parse("root/foo[1]", Simple()) == ["foo content 1"]
    ensures ParseRecursive("root/foo[1]", Simple(), rec) == rec(Foo1(), [])
  {
    PathRootFoo1();
    SimplePreOrder();
    LocateRootFoo1();
    Foo1Values();
    ReadText(Foo1(), rec);
    Query("root/foo[1]", Simple(), ["root", "foo[1]"], SimpleNodes(), Text(Foo1()), rec,
      ["foo content 1"], rec(Foo1(), []));
  }

  lemma PathRootFoo0Bar()
    ensures Split("root/foo[0]/bar") == ["root", "foo[0]", "bar"]
  {
    SplitThree("root", "foo[0]", "bar");
    assert "root" + "/" + ("foo[0]" + "/" + "bar") == "root/foo[0]/bar";
  }

  lemma LocateRootFoo0Bar()
    ensures Locate(SimpleNodes(), ["root", "foo[0]", "bar"]) == Search([], Some(Text(Bar())))
  {
    var ns := SimpleNodes();
    SimpleNames();
    FirstThenChild(ns, "root", "foo", "bar", 2, 4);
    FooSegments();
  }

  lemma BarValues()
    ensures Values(Bar()) == ["john", "doe"]
  {
  }

  lemma SimpleDepthTwo(rec: (Node, seq<string>) -> seq<string>)
    ensures Parse("root/foo[0]/bar", Simple()) == ["john", "doe"]
    ensures ParseRecursive("root/foo[0]/bar", Simple(), rec) == rec(Bar(), [])
  {
    PathRootFoo0Bar();
    SimplePreOrder();
    LocateRootFoo0Bar();
    BarValues();
    ReadText(Bar(), rec);
    Query("root/foo[0]/bar", Simple(), ["root", "foo[0]", "bar"], SimpleNodes(), Text(Bar()), rec,
      ["john", "doe"], rec(Bar(), []));
  }

  lemma SimpleNamed()
    ensures NamedTree(Simple())
  {
    SimplePreOrder();
    SimpleNames();
    var ns := SimpleNodes();
    assert forall m :: m in ns ==> exists i :: 0 <= i < |ns| && ns[i] == m;
  }

  /** A path with a trailing `/` is malformed and reads nothing. */
  lemma SimpleBadPath(rec: (Node, seq<string>) -> seq<string>)
    ensures Parse("root/foo[0]/", Simple()) == []
    ensures ParseRecursive("root/foo[0]/", Simple(), rec) == []
  {
    SimpleNamed();
    TrailingSlashFindsNothing("root/foo[0]/", Simple(), rec);
  }

  // ---------------------------------------------------------------------------
  // Where the walk departs from a sibling-scoped reading of paths

  lemma PathRootP1()
    ensures Split("root/p[1]") == ["root", "p[1]"]
  {
    SplitTwo("root", "p[1]");
    assert "root" + "/" + "p[1]" == "root/p[1]";
  }

  lemma PSegment()
    ensures FormatIndex("p", 1, "") == "p[1]"
  {
  }

  lemma LocateRootP1()
    ensures Locate(SimpleNodes(), ["root", "p[1]"]) == Search([], Some(Text(Leaf("p", "foo content 0"))))
  {
    var ns := SimpleNodes();
    SimpleNames();
    SecondOfName(ns, "root", "p", 1, 3);
    PSegment();
  }

  lemma LeafValues(name: string, content: string)
    ensures Values(Leaf(name, content)) == [content]
  {
  }

  /**
    The index counts every earlier element of that name met anywhere in the scan, not
    only siblings: the only `p` directly under `root` is the first, yet `p[1]` selects
    the `p` inside the first `foo`.
   */
  lemma IndexCountsAcrossLevels(rec: (Node, seq<string>) -> seq<string>)
    ensures Parse("root/p[1]", Simple()) == ["foo content 0"]
    ensures ParseRecursive("root/p[1]", Simple(), rec) == rec(Leaf("p", "foo content 0"), [])
  {
    var p := Leaf("p", "foo content 0");
    PathRootP1();
    SimplePreOrder();
    LocateRootP1();
    LeafValues("p", "foo content 0");
    ReadText(p, rec);
    Query("root/p[1]", Simple(), ["root", "p[1]"], SimpleNodes(), Text(p), rec, ["foo content 0"], rec(p, []));
  }

  lemma PathFooP()
    ensures Split("foo/p") == ["foo", "p"]
  {
    SplitTwo("foo", "p");
    assert "foo" + "/" + "p" == "foo/p";
  }

  lemma LocateFooP()
    ensures Locate(SimpleNodes(), ["foo", "p"]) == Search([], Some(Text(Leaf("p", "foo content 0"))))
  {
    var ns := SimpleNodes();
    SimpleNames();
    LaterPair(ns, "foo", "p", 2, 3);
  }

  /**
    The first segment is not anchored at the root: a path whose first segment names
    no root still descends at the first element of that name.
   */
  lemma FirstSegmentUnanchored(rec: (Node, seq<string>) -> seq<string>)
    ensures Parse("foo/p", Simple()) == ["foo content 0"]
    ensures ParseRecursive("foo/p", Simple(), rec) == rec(Leaf("p", "foo content 0"), [])
  {
    var p := Leaf("p", "foo content 0");
    PathFooP();
    SimplePreOrder();
    LocateFooP();
    LeafValues("p", "foo content 0");
    ReadText(p, rec);
    Query("foo/p", Simple(), ["foo", "p"], SimpleNodes(), Text(p), rec, ["foo content 0"], rec(p, []));
  }

  // ---------------------------------------------------------------------------
  // complexeXml, an Atom feed

  function Link(attrs: seq<Attr>): Node
  {
    Node("link", "", attrs, [])
  }

  /** The link of an entry: its target is its only `href`, after `rel` and `type`. */
  function EntryLink(href: string): Node
  {
    Link([Attr("rel", "alternate"), Attr("type", "text/html"), Attr("href", href)])
  }

  function Entry(id: string, updated: string, href: string): Node
  {
    Elem("entry",
      [ Leaf("id", id), Leaf("updated", updated), EntryLink(href)
      , Leaf("title", ""), Node("content", "", [Attr("type", "html")], [])
      , Elem("author", [Leaf("name", "NeverSinkDev")]), Leaf("thumbnail", "") ])
  }

  function Entry0(): Node
  {
    Entry("tag:github.com,2008:Repository/59748131/7.8.2", "2020-03-27T22:25:57+01:00",
      "https://github.com/NeverSinkDev/NeverSink-Filter/releases/tag/7.8.2")
  }

  function Entry1(): Node
  {
    Entry("tag:github.com,2008:Repository/59748131/7.8.1", "2020-03-20T16:51:25+01:00",
      "https://github.com/NeverSinkDev/NeverSink-Filter/releases/tag/7.8.1")
  }

  function FeedLink0(): Node
  {
    Link([ Attr("type", "text/html"), Attr("rel", "alternate")
         , Attr("href", "https://github.com/NeverSinkDev/NeverSink-Filter/releases") ])
  }

  function FeedLink1(): Node
  {
    Link([ Attr("type", "application/atom+xml"), Attr("rel", "self")
         , Attr("href", "https://github.com/NeverSinkDev/NeverSink-Filter/releases.atom") ])
  }

  /** The children of the feed before its entries, all of them leaves. */
  function FeedHead(): seq<Node>
  {
    [ Leaf("id", "tag:github.com,2008:https://github.com/NeverSinkDev/NeverSink-Filter/releases")
    , FeedLink0(), FeedLink1()
    , Leaf("title", "Release notes from NeverSink-Filter"), Leaf("updated", "2020-03-27T22:23:45+01:00") ]
  }

  function Feed(): Node
  {
    Elem("feed", FeedHead() + [Entry0(), Entry1()])
  }

  /** An entry and the nodes below it, in document order. */
  function EntryNodes(e: Node): seq<Node>
    requires |e.children| == 7 && |e.children[5].children| == 1
  {
    [e] + e.children[..6] + [e.children[5].children[0], e.children[6]]
  }

  lemma EntryPreOrder(id: string, updated: string, href: string)
    ensures PreOrder([Entry(id, updated, href)]) == EntryNodes(Entry(id, updated, href))
  {
    var e := Entry(id, updated, href);
    var cs := e.children;
    var author := cs[5];
    assert cs == cs[..5] + [author] + [cs[6]];
    PreOrderAppend(cs[..5] + [author], [cs[6]]);
    PreOrderAppend(cs[..5], [author]);
    LeavesPreOrder(cs[..5]);
    LeavesPreOrder([cs[6]]);
    LeavesPreOrder(author.children);
    assert PreOrder([author]) == [author] + author.children;
    assert [e][1..] == [];
  }

  /** The nodes of an entry by name, with the two that queries read. */
  lemma EntryNames(id: string, updated: string, href: string)
    ensures var ns := EntryNodes(Entry(id, updated, href));
      && |ns| == 9 && ns[0].name == "entry" && ns[1].name == "id" && ns[2] == Leaf("updated", updated)
      && ns[3] == EntryLink(href) && ns[4].name == "title" && ns[5].name == "content"
      && ns[6].name == "author" && ns[7].name == "name" && ns[8].name == "thumbnail"
  {
  }

  /** An element over leaves followed by two further elements, in document order. */
  lemma HeadThenTwo(name: string, head: seq<Node>, e0: Node, e1: Node)
    requires forall i :: 0 <= i < |head| ==> head[i].IsLeaf()
    ensures var f := Elem(name, head + [e0, e1]);
      PreOrder([f]) == [f] + head + PreOrder([e0]) + PreOrder([e1])
  {
    var f := Elem(name, head + [e0, e1]);
    assert f.children == head + [e0] + [e1];
    assert [f][1..] == [];
    assert PreOrder([f]) == [f] + PreOrder(f.children) + PreOrder([]);
    PreOrderAppend(head + [e0], [e1]);
    PreOrderAppend(head, [e0]);
    LeavesPreOrder(head);
  }

  function FeedNodes(): seq<Node>
  {
    [Feed()] + FeedHead() + EntryNodes(Entry0()) + EntryNodes(Entry1())
  }

  lemma FeedHeadLeaves()
    ensures forall i :: 0 <= i < |FeedHead()| ==> FeedHead()[i].IsLeaf()
  {
  }

  lemma FeedPreOrder()
    ensures PreOrder([Feed()]) == FeedNodes()
  {
    FeedHeadLeaves();
    HeadThenTwo("feed", FeedHead(), Entry0(), Entry1());
    EntryPreOrder("tag:github.com,2008:Repository/59748131/7.8.2", "2020-03-27T22:25:57+01:00",
      "https://github.com/NeverSinkDev/NeverSink-Filter/releases/tag/7.8.2");
    EntryPreOrder("tag:github.com,2008:Repository/59748131/7.8.1", "2020-03-20T16:51:25+01:00",
      "https://github.com/NeverSinkDev/NeverSink-Filter/releases/tag/7.8.1");
  }

  /** Where the parts of a node, five more nodes and a nine-node run land once put together. */
  lemma Positions(f: Node, head: seq<Node>, xs: seq<Node>, ys: seq<Node>)
    requires |head| == 5 && |xs| == 9
    ensures var ns := [f] + head + xs + ys;
      && |ns| == 15 + |ys| && ns[0] == f
      && (forall k :: 0 <= k < 5 ==> ns[1 + k] == head[k])
      && (forall k :: 0 <= k < 9 ==> ns[6 + k] == xs[k])
      && (forall k :: 0 <= k < |ys| ==> ns[15 + k] == ys[k])
  {
  }

  lemma FeedHeadNames()
    ensures var h := FeedHead();
      && |h| == 5 && h[0].name == "id" && h[1].name == "link" && h[2] == FeedLink1()
      && h[3].name == "title" && h[4].name == "updated"
  {
  }

  /** The element names of the feed in document order, up to the second entry's link. */
  predicate FeedNamed(ns: seq<Node>)
  {
    && |ns| > 18
    && ns[0].name == "feed" && ns[1].name == "id" && ns[2].name == "link" && ns[3].name == "link"
    && ns[4].name == "title" && ns[5].name == "updated" && ns[6].name == "entry"
    && ns[7].name == "id" && ns[8].name == "updated" && ns[9].name == "link"
    && ns[10].name == "title" && ns[11].name == "content" && ns[12].name == "author"
    && ns[13].name == "name" && ns[14].name == "thumbnail" && ns[15].name == "entry"
    && ns[16].name == "id" && ns[17].name == "updated" && ns[18].name == "link"
  }

  lemma FeedNames()
    ensures FeedNamed(FeedNodes())
    ensures var ns := FeedNodes();
      && ns[3] == FeedLink1() && ns[8] == Leaf("updated", "2020-03-27T22:25:57+01:00")
      && ns[18] == EntryLink("https://github.com/NeverSinkDev/NeverSink-Filter/releases/tag/7.8.1")
  {
    Positions(Feed(), FeedHead(), EntryNodes(Entry0()), EntryNodes(Entry1()));
    FeedHeadNames();
    EntryNames("tag:github.com,2008:Repository/59748131/7.8.2", "2020-03-27T22:25:57+01:00",
      "https://github.com/NeverSinkDev/NeverSink-Filter/releases/tag/7.8.2");
    EntryNames("tag:github.com,2008:Repository/59748131/7.8.1", "2020-03-20T16:51:25+01:00",
      "https://github.com/NeverSinkDev/NeverSink-Filter/releases/tag/7.8.1");
  }

  /** Before the first entry, and between the two entries, no node is an entry or holds a `[`. */
  lemma FeedAvoidsEntry(ns: seq<Node>)
    requires FeedNamed(ns)
    ensures Avoids(ns, 1, 6, "entry") && Avoids(ns, 7, 15, "entry")
  {
    forall m | 1 <= m < 6
      ensures ns[m].name != "entry" && '[' !in ns[m].name
    {
      assert m == 1 || m == 2 || m == 3 || m == 4 || m == 5;
    }
    forall m | 7 <= m < 15
      ensures ns[m].name != "entry" && '[' !in ns[m].name
    {
      assert m == 7 || m == 8 || m == 9 || m == 10 || m == 11 || m == 12 || m == 13 || m == 14;
    }
  }

  lemma EntrySegments()
    ensures FormatIndex("entry", 0, "") == "entry[0]" && FormatIndex("entry", 1, "") == "entry[1]"
  {
  }

  lemma LinkHref()
    ensures ParseAttr("link@href") == Some(Selector("link", "href"))
  {
    var s := "link@href";
    assert AttrAt(s, 4);
    assert forall k :: 4 < k ==> !AttrAt(s, k);
    assert LastSelectorBefore(s, 9) == Some(4);
    assert s[..4] == "link";
    assert s[5..] == "href";
    assert LetterRun("href") == "href";
  }

  lemma LinkSelectsHref()
    ensures AttrMatch("link", ["link" + "@href"]) == Some("href")
  {
    assert "link" + "@href" == "link@href";
    LinkHref();
  }

  lemma LinkOneHref()
    ensures FormatIndex("link", 1, "@href") == "link[1]@href"
  {
  }

  /** The `href` values of a link whose third attribute is the only `href`. */
  lemma HrefOfLink(k0: string, v0: string, k1: string, v1: string, h: string)
    requires k0 != "href" && k1 != "href"
    ensures ValuesFromAttributes(Link([Attr(k0, v0), Attr(k1, v1), Attr("href", h)]), "href") == [h]
  {
    var attrs := [Attr(k0, v0), Attr(k1, v1), Attr("href", h)];
    assert FirstNamed(attrs, "href", 2);
  }

  lemma EntryLinkReads(h: string, rec: (Node, seq<string>) -> seq<string>)
    ensures Extract(Some(Attribute(EntryLink(h), "href")), Shallow()) == [h]
    ensures Extract(Some(Attribute(EntryLink(h), "href")), Recursive(rec)) == rec(EntryLink(h), [h])
  {
    ReadAttribute(EntryLink(h), "href", rec);
    HrefOfLink("rel", "alternate", "type", "text/html", h);
  }

  lemma FeedLinkReads(rec: (Node, seq<string>) -> seq<string>)
    ensures var h := "https://github.com/NeverSinkDev/NeverSink-Filter/releases.atom";
      && Extract(Some(Attribute(FeedLink1(), "href")), Shallow()) == [h]
      && Extract(Some(Attribute(FeedLink1(), "href")), Recursive(rec)) == rec(FeedLink1(), [h])
  {
    ReadAttribute(FeedLink1(), "href", rec);
    HrefOfLink("type", "application/atom+xml", "rel", "self",
      "https://github.com/NeverSinkDev/NeverSink-Filter/releases.atom");
  }

  lemma PathEntry0Updated()
    ensures Split("feed/entry[0]/updated") == ["feed", "entry[0]", "updated"]
  {
    SplitThree("feed", "entry[0]", "updated");
    assert "feed" + "/" + ("entry[0]" + "/" + "updated") == "feed/entry[0]/updated";
  }

  lemma ScanEntry0Updated(ns: seq<Node>)
    requires FeedNamed(ns)
    ensures Locate(ns, ["feed", "entry[0]", "updated"]) == Search([], Some(Text(ns[8])))
  {
    FeedAvoidsEntry(ns);
    FirstThenChild(ns, "feed", "entry", "updated", 6, 8);
    EntrySegments();
  }

  lemma LocateEntry0Updated()
    ensures Locate(FeedNodes(), ["feed", "entry[0]", "updated"])
      == Search([], Some(Text(Leaf("updated", "2020-03-27T22:25:57+01:00"))))
  {
    FeedNames();
    ScanEntry0Updated(FeedNodes());
  }

  lemma FeedEntryText(rec: (Node, seq<string>) -> seq<string>)
    ensures Parse("feed/entry[0]/updated", Feed()) == ["2020-03-27T22:25:57+01:00"]
    ensures ParseRecursive("feed/entry[0]/updated", Feed(), rec)
      == rec(Leaf("updated", "2020-03-27T22:25:57+01:00"), [])
  {
    var u := Leaf("updated", "2020-03-27T22:25:57+01:00");
    PathEntry0Updated();
    FeedPreOrder();
    LocateEntry0Updated();
    LeafValues("updated", "2020-03-27T22:25:57+01:00");
    ReadText(u, rec);
    Query("feed/entry[0]/updated", Feed(), ["feed", "entry[0]", "updated"], FeedNodes(), Text(u), rec,
      ["2020-03-27T22:25:57+01:00"], rec(u, []));
  }

  lemma PathEntry1Link()
    ensures Split("feed/entry[1]/link@href") == ["feed", "entry[1]", "link@href"]
  {
    SplitThree("feed", "entry[1]", "link@href");
    assert "feed" + "/" + ("entry[1]" + "/" + "link@href") == "feed/entry[1]/link@href";
  }

  lemma ScanEntry1Link(ns: seq<Node>)
    requires FeedNamed(ns)
    ensures Locate(ns, ["feed", "entry[1]", "link@href"]) == Search([], Some(Attribute(ns[18], "href")))
  {
    FeedAvoidsEntry(ns);
    forall m | 15 < m < 18
      ensures ns[m].name != "link" && ns[m].name != "link@href"
    {
      assert m == 16 || m == 17;
    }
    LinkHref();
    SecondThenSelect(ns, "feed", "entry", "link@href", "link", "href", 6, 15, 18);
    EntrySegments();
  }

  lemma LocateEntry1Link()
    ensures Locate(FeedNodes(), ["feed", "entry[1]", "link@href"])
      == Search([], Some(Attribute(EntryLink("https://github.com/NeverSinkDev/NeverSink-Filter/releases/tag/7.8.1"), "href")))
  {
    FeedNames();
    ScanEntry1Link(FeedNodes());
  }

  lemma FeedEntryAttribute(rec: (Node, seq<string>) -> seq<string>)
    ensures Parse("feed/entry[1]/link@href", Feed())
      == ["https://github.com/NeverSinkDev/NeverSink-Filter/releases/tag/7.8.1"]
    ensures ParseRecursive("feed/entry[1]/link@href", Feed(), rec)
      == rec(EntryLink("https://github.com/NeverSinkDev/NeverSink-Filter/releases/tag/7.8.1"),
             ["https://github.com/NeverSinkDev/NeverSink-Filter/releases/tag/7.8.1"])
  {
    var h := "https://github.com/NeverSinkDev/NeverSink-Filter/releases/tag/7.8.1";
    PathEntry1Link();
    FeedPreOrder();
    LocateEntry1Link();
    EntryLinkReads(h, rec);
    Query("feed/entry[1]/link@href", Feed(), ["feed", "entry[1]", "link@href"], FeedNodes(),
      Attribute(EntryLink(h), "href"), rec, [h], rec(EntryLink(h), [h]));
  }

  lemma PathFeedLink1()
    ensures Split("feed/link[1]@href") == ["feed", "link[1]@href"]
  {
    SplitTwo("feed", "link[1]@href");
    assert "feed" + "/" + "link[1]@href" == "feed/link[1]@href";
  }

  lemma ScanFeedLink1(ns: seq<Node>)
    requires FeedNamed(ns)
    ensures Locate(ns, ["feed", "link[1]@href"]) == Search([], Some(Attribute(ns[3], "href")))
  {
    LinkSelectsHref();
    LinkOneHref();
    SecondSelected(ns, "feed", "link", "@href", "href", 2, 3);
  }

  lemma LocateFeedLink1()
    ensures Locate(FeedNodes(), ["feed", "link[1]@href"]) == Search([], Some(Attribute(FeedLink1(), "href")))
  {
    FeedNames();
    ScanFeedLink1(FeedNodes());
  }

  lemma FeedLinkAttribute(rec: (Node, seq<string>) -> seq<string>)
    ensures Parse("feed/link[1]@href", Feed())
      == ["https://github.com/NeverSinkDev/NeverSink-Filter/releases.atom"]
    ensures ParseRecursive("feed/link[1]@href", Feed(), rec)
      == rec(FeedLink1(), ["https://github.com/NeverSinkDev/NeverSink-Filter/releases.atom"])
  {
    var h := "https://github.com/NeverSinkDev/NeverSink-Filter/releases.atom";
    PathFeedLink1();
    FeedPreOrder();
    LocateFeedLink1();
    FeedLinkReads(rec);
    Query("feed/link[1]@href", Feed(), ["feed", "link[1]@href"], FeedNodes(),
      Attribute(FeedLink1(), "href"), rec, [h], rec(FeedLink1(), [h]));
  }
}
