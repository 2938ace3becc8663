/**
  The path-query engine (xml/xml.go).

  A query walks the tree depth first, in document order, threading a stack of path
  segments. Each visit of a node first runs the index countdown, then plain descent,
  then the two terminal-match tests; a terminal match empties the stack, after which
  every later visit does nothing. Neither descent nor the countdown is scoped to a
  sibling group or to the subtree of the previous step: any later node in document
  order with the right name advances the stack.

  `XmlReader` and `XmlReaderRecursive` model the two walks as written. `Locate` is the
  reference they are proved against: a first-match-wins scan over the document-order
  list of nodes, naming the one node (if any) whose values are extracted.
 */
module Engine {
  import opened Wrappers
  import opened Tree
  import opened Segments

  // ---------------------------------------------------------------------------
  // How the segment stack evolves

  /**
    `after` is a stack that `before` can turn into: it is no longer, and below its
    head it is a suffix of `before`. Only the head is ever rewritten in place.
   */
  predicate Descends(before: seq<string>, after: seq<string>)
  {
    && |after| <= |before|
    && (|after| > 0 ==> after[1..] == before[|before| - |after| + 1..])
  }

  lemma DescendsTransitive(a: seq<string>, b: seq<string>, c: seq<string>)
    requires Descends(a, b) && Descends(b, c)
    ensures Descends(a, c)
  {
    if |c| > 0 && |c| < |b| {
      assert b[|b| - |c| + 1..] == b[1..][|b| - |c|..];
    }
  }

  datatype Trimmed = Trimmed(consumed: bool, stack: seq<string>)

  /**
    The index countdown. When the head reads as `pre[k]post` and the node is named
    `pre`, the visit is consumed: with k > 0 the head becomes `pre[k-1]post`; with
    k = 0 the head is dropped, or, when it is the only segment left, rewritten to
    `pre` followed by `post`. Otherwise nothing changes. The index is a single digit,
    so the conversion error of the source cannot occur.
   */
  function TrimStackIndex(name: string, stack: seq<string>): (r: Trimmed)
    requires |stack| > 0
    ensures r.consumed <==> ParseIndex(stack[0]).Some? && ParseIndex(stack[0]).value.pre == name
    ensures !r.consumed ==> r.stack == stack
    ensures 0 < |r.stack| && Descends(stack, r.stack)
  {
    match ParseIndex(stack[0])
    case None => Trimmed(false, stack)
    case Some(seg) =>
      if name == seg.pre && seg.index == 0 then
        if |stack| == 1 then Trimmed(true, [seg.pre + seg.post]) else Trimmed(true, stack[1..])
      else if name == seg.pre && seg.index > 0 then
        Trimmed(true, [FormatIndex(seg.pre, seg.index - 1, seg.post)] + stack[1..])
      else
        Trimmed(false, stack)
  }

  /** A countdown step keeps the length and the tail and leaves an exact `pre[k-1]post` head. */
  lemma TrimCountdown(name: string, stack: seq<string>, k: nat, post: string)
    requires |stack| > 0
    requires ParseIndex(stack[0]) == Some(Indexed(name, k, post))
    requires k > 0
    ensures TrimStackIndex(name, stack) == Trimmed(true, [FormatIndex(name, k - 1, post)] + stack[1..])
    ensures ParseIndex(TrimStackIndex(name, stack).stack[0]) == Some(Indexed(name, k - 1, post))
  {
    ParseFormatIndex(name, k - 1, post);
  }

  /**
    The countdown reaching zero consumes the segment: it is dropped when more segments
    follow, and otherwise rewritten to `name` followed by `post`.
   */
  lemma TrimHit(name: string, stack: seq<string>, post: string)
    requires |stack| > 0
    requires ParseIndex(stack[0]) == Some(Indexed(name, 0, post))
    ensures TrimStackIndex(name, stack).consumed
    ensures |stack| > 1 ==> TrimStackIndex(name, stack).stack == stack[1..]
    ensures |stack| == 1 ==> TrimStackIndex(name, stack).stack == [name + post]
  {
  }

  /**
    One visit's stack update ahead of the match tests: the index countdown, then plain
    descent when the countdown did not apply.
   */
  function Advance(name: string, stack: seq<string>): (r: seq<string>)
    requires |stack| > 0
    ensures 0 < |r| && Descends(stack, r)
  {
    var t := TrimStackIndex(name, stack);
    if !t.consumed && |t.stack| > 1 && name == t.stack[0] then t.stack[1..] else t.stack
  }

  /**
    Plain descent removes exactly the head, and does so exactly when the countdown did
    not apply, at least two segments remain and the head equals the node's name.
   */
  lemma PlainDescent(name: string, stack: seq<string>)
    requires |stack| > 0
    requires !TrimStackIndex(name, stack).consumed
    ensures Advance(name, stack) == stack[1..] <==> |stack| > 1 && name == stack[0]
    ensures Advance(name, stack) == stack || Advance(name, stack) == stack[1..]
  {
    assert |stack[1..]| != |stack|;
  }

  // ---------------------------------------------------------------------------
  // Terminal matches

  /** A text match: exactly one segment left, equal to the node's name. */
  predicate TextMatch(name: string, stack: seq<string>)
  {
    |stack| == 1 && stack[0] == name
  }

  /**
    An attribute match: exactly one segment left, reading as `pre@attr` with `pre` the
    node's name; the result is the attribute name.
   */
  function AttrMatch(name: string, stack: seq<string>): (r: Option<string>)
    ensures r.Some? ==> |stack| == 1 && HasSelector(stack[0])
    ensures r.Some? ==> |name| < |stack[0]| && stack[0][..|name|] == name && AttrAt(stack[0], |name|)
    ensures r.Some? <==>
      |stack| == 1 && |name| < |stack[0]| && stack[0][..|name|] == name && AttrAt(stack[0], |name|)
      && forall k :: |name| < k ==> !AttrAt(stack[0], k)
    ensures r.Some? ==> r.value == LetterRun(stack[0][|name| + 1..]) && |r.value| > 0
  {
    if |stack| == 1 then
      match ParseAttr(stack[0])
      case Some(sel) =>
        assert AttrAt(stack[0], |name|) ==> |name| <= |sel.pre|;
        if sel.pre == name then Some(sel.attr) else None
      case None => None
    else
      None
  }

  /**
    The two terminal matches never both apply to one node and stack, so the order in
    which a walk tries them cannot change which one fires.
   */
  lemma MatchesExclusive(name: string, stack: seq<string>)
    ensures !(TextMatch(name, stack) && AttrMatch(name, stack).Some?)
  {
  }

  datatype Got = Got(stack: seq<string>, values: Option<seq<string>>)

  /** The text-match test: on a match the stack is cleared and `f` extracts the values. */
  function GetValues(n: Node, stack: seq<string>, f: Node -> seq<string>): (r: Got)
    ensures r.values.Some? <==> TextMatch(n.name, stack)
    ensures r.values.Some? ==> r.stack == [] && r.values.value == f(n)
    ensures r.values.None? ==> r.stack == stack
  {
    if TextMatch(n.name, stack) then Got([], Some(f(n))) else Got(stack, None)
  }

  /** The attribute-match test: on a match the stack is cleared and `f` extracts the values. */
  function GetValuesWithAttributes(n: Node, stack: seq<string>, f: (Node, string) -> seq<string>): (r: Got)
    ensures r.values.Some? <==> AttrMatch(n.name, stack).Some?
    ensures r.values.Some? ==> r.stack == [] && r.values.value == f(n, AttrMatch(n.name, stack).value)
    ensures r.values.None? ==> r.stack == stack
  {
    match AttrMatch(n.name, stack)
    case Some(att) => Got([], Some(f(n, att)))
    case None => Got(stack, None)
  }

  // ---------------------------------------------------------------------------
  // The reference: a first-match scan over the nodes in document order

  /** The node a query settled on, and how its values are to be read. */
  datatype Selection = Text(node: Node) | Attribute(node: Node, attr: string)

  datatype Search = Search(stack: seq<string>, found: Option<Selection>)

  /** One visit: nothing with an empty stack; otherwise advance, then test for a match. */
  function Visit(n: Node, stack: seq<string>): (r: Search)
    ensures r.found.Some? ==> r.stack == [] && |stack| > 0 && r.found.value.node == n
    ensures r.found.None? && |stack| > 0 ==> |r.stack| > 0
    ensures Descends(stack, r.stack)
    ensures |stack| > 0 ==>
      (r.found.Some? <==> TextMatch(n.name, Advance(n.name, stack)) || AttrMatch(n.name, Advance(n.name, stack)).Some?)
  {
    if |stack| == 0 then Search(stack, None)
    else
      var st := Advance(n.name, stack);
      if TextMatch(n.name, st) then Search([], Some(Text(n)))
      else
        match AttrMatch(n.name, st)
        case Some(att) => Search([], Some(Attribute(n, att)))
        case None => Search(st, None)
  }

  /**
    Each visit leaves the stack unchanged, rewrites only its head, drops only its
    head, or clears it; so the stack never grows.
   */
  lemma VisitShape(n: Node, stack: seq<string>)
    ensures var r := Visit(n, stack).stack;
      || r == stack
      || r == []
      || (|stack| > 0 && r == stack[1..])
      || (|stack| > 0 && |r| == |stack| && r[1..] == stack[1..])
  {
  }

  /**
    Scan `ns` in order, visiting each node, and stop at the first terminal match.
    A match is always a node of `ns` and leaves an empty stack; no match leaves a
    non-empty stack whose segments below the head are a suffix of the original ones.
   */
  function Locate(ns: seq<Node>, stack: seq<string>): (r: Search)
    ensures r.found.Some? ==> r.stack == [] && |stack| > 0 && r.found.value.node in ns
    ensures r.found.None? && |stack| > 0 ==> |r.stack| > 0
    ensures Descends(stack, r.stack)
  {
    if |ns| == 0 then Search(stack, None)
    else
      var v := Visit(ns[0], stack);
      if v.found.Some? then v
      else
        var r := Locate(ns[1..], v.stack);
        DescendsTransitive(stack, v.stack, r.stack);
        r
  }

  /** With an empty stack a scan finds nothing and the stack stays empty. */
  lemma LocateEmptyStack(ns: seq<Node>)
    ensures Locate(ns, []) == Search([], None)
  {
  }

  /** Scanning `xs + ys` is scanning `xs`, then, when nothing matched, scanning `ys`. */
  lemma {:induction false} LocateAppend(xs: seq<Node>, ys: seq<Node>, stack: seq<string>)
    ensures Locate(xs + ys, stack) ==
      var a := Locate(xs, stack); if a.found.Some? then a else Locate(ys, a.stack)
    decreases |xs|
  {
    if |xs| == 0 {
      assert xs + ys == ys;
    } else {
      assert (xs + ys)[0] == xs[0];
      assert (xs + ys)[1..] == xs[1..] + ys;
      LocateAppend(xs[1..], ys, Visit(xs[0], stack).stack);
    }
  }

  lemma LocateSingle(n: Node, stack: seq<string>)
    ensures Locate([n], stack) == (var v := Visit(n, stack); if v.found.Some? then v else Search(v.stack, None))
  {
    assert [n][1..] == [];
  }

  // ---------------------------------------------------------------------------
  // Extraction

  /** The two extractors of one extraction mode: for a text match and for an attribute match. */
  datatype Extractors = Extractors(text: Node -> seq<string>, attr: (Node, string) -> seq<string>)

  function Extract(found: Option<Selection>, x: Extractors): seq<string>
  {
    match found
    case None => []
    case Some(Text(m)) => x.text(m)
    case Some(Attribute(m, att)) => x.attr(m, att)
  }

  /** The extractors of the shallow walk. */
  function Shallow(): Extractors
  {
    Extractors(Values, ValuesFromAttributes)
  }

  /**
    The extractors of the recursive walk, in terms of `rec`, the recursive collector:
    `rec(m, v)` is the slice that collector leaves when handed node `m` and slice `v`.
   */
  function Recursive(rec: (Node, seq<string>) -> seq<string>): Extractors
  {
    Extractors(m => rec(m, []), (m, att) => rec(m, ValuesFromAttributes(m, att)))
  }

  /** An absent result appends nothing. */
  function OrEmpty(v: Option<seq<string>>): seq<string>
  {
    match v
    case None => []
    case Some(s) => s
  }

  // ---------------------------------------------------------------------------
  // The walks as written

  /** What a walk returns: the stack it leaves behind and the values it appended. */
  datatype Walk = Walk(stack: seq<string>, values: seq<string>)

  /**
    The shallow walk over the sibling list `nodes`. A text match is tried before an
    attribute match, and a match ends the loop over the current siblings.
   */
  function XmlReader(nodes: seq<Node>, stack: seq<string>): (r: Walk)
    ensures Descends(stack, r.stack)
    decreases nodes
  {
    if |nodes| == 0 then Walk(stack, [])
    else if |stack| == 0 then XmlReader(nodes[1..], stack)
    else
      var n := nodes[0];
      var st := Advance(n.name, stack);
      var t := GetValues(n, st, Shallow().text);
      if t.values.Some? then Walk(t.stack, t.values.value)
      else
        var a := GetValuesWithAttributes(n, st, Shallow().attr);
        if a.values.Some? then Walk(a.stack, a.values.value)
        else
          var inner := XmlReader(n.children, st);
          var rest := XmlReader(nodes[1..], inner.stack);
          DescendsTransitive(stack, st, inner.stack);
          DescendsTransitive(stack, inner.stack, rest.stack);
          Walk(rest.stack, inner.values + rest.values)
  }

  /**
    The two terminal tests of the recursive walk on one node, attribute match first:
    a match clears the stack and hands the node to the recursive collector.
   */
  function TerminalRecursive(n: Node, stack: seq<string>, rec: (Node, seq<string>) -> seq<string>): (r: Walk)
    ensures TextMatch(n.name, stack) ==> r == Walk([], rec(n, []))
    ensures AttrMatch(n.name, stack).Some? ==>
      r == Walk([], rec(n, ValuesFromAttributes(n, AttrMatch(n.name, stack).value)))
    ensures !TextMatch(n.name, stack) && AttrMatch(n.name, stack).None? ==> r == Walk(stack, [])
  {
    var a := GetValuesWithAttributes(n, stack, Recursive(rec).attr);
    var t := GetValues(n, a.stack, Recursive(rec).text);
    MatchesExclusive(n.name, stack);
    Walk(t.stack, OrEmpty(a.values) + OrEmpty(t.values))
  }

  /**
    The recursive walk over the sibling list `nodes`. An attribute match is tried
    before a text match, and the loop goes on after a match (with an empty stack).
   */
  function XmlReaderRecursive(nodes: seq<Node>, stack: seq<string>, rec: (Node, seq<string>) -> seq<string>): (r: Walk)
    ensures Descends(stack, r.stack)
    decreases nodes
  {
    if |nodes| == 0 then Walk(stack, [])
    else if |stack| == 0 then XmlReaderRecursive(nodes[1..], stack, rec)
    else
      var n := nodes[0];
      var st := Advance(n.name, stack);
      var m := TerminalRecursive(n, st, rec);
      var inner := XmlReaderRecursive(n.children, m.stack, rec);
      var rest := XmlReaderRecursive(nodes[1..], inner.stack, rec);
      DescendsTransitive(stack, st, m.stack);
      DescendsTransitive(stack, m.stack, inner.stack);
      DescendsTransitive(stack, inner.stack, rest.stack);
      Walk(rest.stack, m.values + inner.values + rest.values)
  }

  /** Visiting any nodes with an empty stack appends nothing and leaves the stack empty. */
  lemma {:induction false} XmlReaderEmptyStack(nodes: seq<Node>)
    ensures XmlReader(nodes, []) == Walk([], [])
  {
    if |nodes| > 0 {
      XmlReaderEmptyStack(nodes[1..]);
    }
  }

  /** Visiting any nodes with an empty stack appends nothing and leaves the stack empty. */
  lemma {:induction false} XmlReaderRecursiveEmptyStack(nodes: seq<Node>, rec: (Node, seq<string>) -> seq<string>)
    ensures XmlReaderRecursive(nodes, [], rec) == Walk([], [])
  {
    if |nodes| > 0 {
      XmlReaderRecursiveEmptyStack(nodes[1..], rec);
    }
  }

  /** One iteration of the shallow walk's loop, in terms of a visit. */
  lemma XmlReaderStep(nodes: seq<Node>, stack: seq<string>)
    requires |nodes| > 0 && |stack| > 0
    ensures XmlReader(nodes, stack) ==
      var v := Visit(nodes[0], stack);
      if v.found.Some? then Walk([], Extract(v.found, Shallow()))
      else
        var inner := XmlReader(nodes[0].children, v.stack);
        var rest := XmlReader(nodes[1..], inner.stack);
        Walk(rest.stack, inner.values + rest.values)
  {
  }

  /**
    The shallow walk is the reference scan over the nodes in document order, followed
    by shallow extraction from the one node found.
   */
  lemma {:induction false} XmlReaderLocates(nodes: seq<Node>, stack: seq<string>)
    ensures var l := Locate(PreOrder(nodes), stack);
      XmlReader(nodes, stack) == Walk(l.stack, Extract(l.found, Shallow()))
    decreases nodes
  {
    if |nodes| == 0 {
    } else if |stack| == 0 {
      XmlReaderEmptyStack(nodes);
      LocateEmptyStack(PreOrder(nodes));
    } else {
      var n := nodes[0];
      var below := PreOrder(n.children);
      var later := PreOrder(nodes[1..]);
      assert PreOrder(nodes) == [n] + (below + later);
      LocateAppend([n], below + later, stack);
      LocateSingle(n, stack);
      XmlReaderStep(nodes, stack);
      var v := Visit(n, stack);
      if v.found.None? {
        var st := v.stack;
        XmlReaderLocates(n.children, st);
        LocateAppend(below, later, st);
        var inner := Locate(below, st);
        if inner.found.Some? {
          XmlReaderEmptyStack(nodes[1..]);
        } else {
          XmlReaderLocates(nodes[1..], inner.stack);
        }
      }
    }
  }

  /**
    The recursive walk is the same reference scan followed by recursive extraction:
    both walks settle on the same node, whatever the recursive collector does.
   */
  lemma {:induction false} XmlReaderRecursiveLocates(nodes: seq<Node>, stack: seq<string>, rec: (Node, seq<string>) -> seq<string>)
    ensures var l := Locate(PreOrder(nodes), stack);
      XmlReaderRecursive(nodes, stack, rec) == Walk(l.stack, Extract(l.found, Recursive(rec)))
    decreases nodes
  {
    if |nodes| == 0 {
    } else if |stack| == 0 {
      XmlReaderRecursiveEmptyStack(nodes, rec);
      LocateEmptyStack(PreOrder(nodes));
    } else {
      var n := nodes[0];
      var below := PreOrder(n.children);
      var later := PreOrder(nodes[1..]);
      assert PreOrder(nodes) == [n] + (below + later);
      LocateAppend([n], below + later, stack);
      LocateSingle(n, stack);
      var v := Visit(n, stack);
      var st := v.stack;
      if v.found.Some? {
        XmlReaderRecursiveEmptyStack(n.children, rec);
        XmlReaderRecursiveEmptyStack(nodes[1..], rec);
        var m := TerminalRecursive(n, Advance(n.name, stack), rec);
        assert m == Walk([], Extract(v.found, Recursive(rec)));
        assert m.values + [] + [] == m.values;
      } else {
        XmlReaderRecursiveLocates(n.children, st, rec);
        LocateAppend(below, later, st);
        var inner := Locate(below, st);
        if inner.found.Some? {
          XmlReaderRecursiveEmptyStack(nodes[1..], rec);
        } else {
          XmlReaderRecursiveLocates(nodes[1..], inner.stack, rec);
        }
      }
    }
  }

  // ---------------------------------------------------------------------------
  // Entry points

  /**
    A shallow query: the path cut at every `/`, walked from the root. The result is
    empty when no node matched, and otherwise the shallow values of the single node
    the document-order scan settled on.
   */
  function Parse(path: string, root: Node): (r: seq<string>)
    ensures r == Extract(Locate(PreOrder([root]), Split(path)).found, Shallow())
  {
    XmlReaderLocates([root], Split(path));
    XmlReader([root], Split(path)).values
  }

  /** A recursive query: the same node as `Parse`, read with the recursive collector `rec`. */
  function ParseRecursive(path: string, root: Node, rec: (Node, seq<string>) -> seq<string>): (r: seq<string>)
    ensures r == Extract(Locate(PreOrder([root]), Split(path)).found, Recursive(rec))
  {
    XmlReaderRecursiveLocates([root], Split(path), rec);
    XmlReaderRecursive([root], Split(path), rec).values
  }

  // ---------------------------------------------------------------------------
  // Properties of queries

  /** One visit of a node named `pre` counts a head `pre[k]post`, k > 0, down by one. */
  lemma CountdownStep(n: Node, pre: string, k: nat, post: string, rest: seq<string>)
    requires 0 < k < 10 && !HasIndex(post)
    requires n.name == pre
    ensures Visit(n, [FormatIndex(pre, k, post)] + rest) == Search([FormatIndex(pre, k - 1, post)] + rest, None)
  {
    var stack := [FormatIndex(pre, k, post)] + rest;
    ParseFormatIndex(pre, k, post);
    TrimCountdown(pre, stack, k, post);
    assert stack[1..] == rest;
    var st := [FormatIndex(pre, k - 1, post)] + rest;
    assert Advance(pre, stack) == st;
    assert !TextMatch(pre, st);
    assert st[0][|pre|] == '[';
  }

  /**
    The index countdown is exact: a head `pre[k]post` passes through `pre[k-1]post`,
    ..., one step per visited node named `pre`, without matching or advancing further.
   */
  lemma {:induction false} CountdownExact(ns: seq<Node>, pre: string, k: nat, j: nat, post: string, rest: seq<string>)
    requires k < 10 && !HasIndex(post)
    requires j + |ns| == k
    requires forall i :: 0 <= i < |ns| ==> ns[i].name == pre
    ensures Locate(ns, [FormatIndex(pre, k, post)] + rest) == Search([FormatIndex(pre, j, post)] + rest, None)
    decreases |ns|
  {
    if |ns| > 0 {
      var head := FormatIndex(pre, k, post);
      var next := FormatIndex(pre, k - 1, post);
      CountdownStep(ns[0], pre, k, post, rest);
      assert Locate(ns, [head] + rest) == Locate(ns[1..], [next] + rest);
      CountdownExact(ns[1..], pre, k - 1, j, post, rest);
    }
  }

  /**
    While the last segment of the stack is empty and no node has an empty name, a
    visit never matches and the last segment stays the empty one.
   */
  lemma VisitKeepsEmptyLast(n: Node, stack: seq<string>)
    requires |stack| > 0 && stack[|stack| - 1] == ""
    requires n.name != ""
    ensures Visit(n, stack).found == None
    ensures var r := Visit(n, stack).stack; |r| > 0 && r[|r| - 1] == ""
  {
    assert !HasIndex("");
    var t := TrimStackIndex(n.name, stack);
    assert t.stack[|t.stack| - 1] == "";
    var st := Advance(n.name, stack);
    assert st[|st| - 1] == "";
    assert ParseAttr("").None?;
  }

  /** A scan with an empty last segment over nodes with non-empty names finds nothing. */
  lemma {:induction false} LocateEmptyLast(ns: seq<Node>, stack: seq<string>)
    requires |stack| > 0 && stack[|stack| - 1] == ""
    requires forall i :: 0 <= i < |ns| ==> ns[i].name != ""
    ensures Locate(ns, stack).found == None
  {
    if |ns| > 0 {
      VisitKeepsEmptyLast(ns[0], stack);
      LocateEmptyLast(ns[1..], Visit(ns[0], stack).stack);
    }
  }

  /**
    A path ending in `/` leaves an empty last segment, which no element name equals:
    both kinds of query return nothing.
   */
  lemma TrailingSlashFindsNothing(path: string, root: Node, rec: (Node, seq<string>) -> seq<string>)
    requires |path| > 0 && path[|path| - 1] == '/'
    requires NamedTree(root)
    ensures Parse(path, root) == []
    ensures ParseRecursive(path, root, rec) == []
  {
    SplitLastEmpty(path);
    var ns := PreOrder([root]);
    assert forall i :: 0 <= i < |ns| ==> ns[i] in ns;
    LocateEmptyLast(ns, Split(path));
  }

  /**
    A query reads at most one node: it returns nothing, or the values of one node of
    the tree read as text, or of one node read as attribute `att`.
   */
  lemma ParseReadsOneNode(path: string, root: Node)
    ensures var r := Parse(path, root);
      || r == []
      || (exists m :: m in PreOrder([root]) && r == Values(m))
      || (exists m, att :: m in PreOrder([root]) && r == ValuesFromAttributes(m, att))
  {
  }

  /**
    A recursive query hands at most one node to the collector: it returns nothing, or
    what the collector makes of one node of the tree, with an empty slice on a text
    match or the node's attribute values on an attribute match.
   */
  lemma ParseRecursiveReadsOneNode(path: string, root: Node, rec: (Node, seq<string>) -> seq<string>)
    ensures var r := ParseRecursive(path, root, rec);
      || r == []
      || (exists m :: m in PreOrder([root]) && r == rec(m, []))
      || (exists m, att :: m in PreOrder([root]) && r == rec(m, ValuesFromAttributes(m, att)))
  {
  }
}
