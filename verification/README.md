# A path-query engine over a decoded XML tree, in Dafny

This project models the query engine of a small Go package. The package pulls values out of an XML
document with a slash-separated path such as `feed/entry[1]/link@href`. The model covers the
engine (`xml/xml.go`) and the value extractors on the node type (`xml/node.go`). It takes the
decoded tree as given.

- `Tree` (`tree.dfy`): the node (local name, inner markup, attributes, child elements), the
  extractors `Values` (the source's `values`), `ValuesFromAttributes` and `FindAttributeValue`, and
  `PreOrder`, the nodes of a forest in document order.
- `Segments` (`segments.dfy`): `Split`, the cut of the path at every `/`, and the two segment
  readings the source gets from regular expressions. `ParseIndex` reads the last bracketed single
  digit, as in `pre[d]post`. `ParseAttr` reads the last `@` followed by letters, as in `pre@attr`.
  Both are hand-written recognisers with the greedy semantics of the source's patterns.
- `Engine` (`engine.dfy`): `TrimStackIndex` (the index countdown), plain descent (`Advance`), the
  two terminal tests `GetValues` and `GetValuesWithAttributes`, and the two walks as written,
  `XmlReader` and `XmlReaderRecursive`. It also holds the entry points `Parse` and `ParseRecursive`.
- `Scenarios` (`scenarios.dfy`): the test documents built by hand, and the shallow test cases proved
  on them.

The walks thread the segment stack through a depth-first, document-order traversal. Each walk is
proved equal to a reference, `Locate`: a first-match-wins scan over `PreOrder` of the tree, followed
by reading the one node it settles on. The reference shares the walks' per-node step (`Visit`, built
from `Advance`, `TextMatch` and `AttrMatch`); only its traversal is independent, a flat scan over the
nodes in document order in place of a nested loop with an early return. Both walks settle on the same node. They
differ only in how that node is read, shallowly or through the recursive collector. The recursive
collector `valuesRecursive` is not part of this model. `ParseRecursive` therefore takes it as a
parameter `rec`: `rec(m, v)` is the slice the collector leaves when handed node `m` and slice `v`.

Two behaviours of the code depart from a sibling-scoped, root-anchored reading of paths. The model
follows the code, and a lemma states each behaviour on the test document:

- An index counts every node of that name met anywhere later in document order, not only siblings.
  `root/p[1]` selects the `p` inside the first `foo`, though `root` has a single `p` child
  (`Scenarios.IndexCountsAcrossLevels`).
- The first segment is not anchored at the root. `foo/p` reads the first `p` under the first `foo`,
  though the root is named `root` (`Scenarios.FirstSegmentUnanchored`).

## Model

| member | source | states |
|---|---|---|
| Tree.Values | xml/node.go:21-35 | a leaf gives exactly its own content; any other node gives the contents of its leaf children in order; the length is 1 or the number of leaf children |
| Tree.LeafChildContributes | xml/node.go:28-32 | a leaf child contributes exactly its content, at its own position among the parent's values |
| Tree.NonLeafChildIgnored | xml/node.go:28-32 | a child with children of its own contributes nothing, whatever lies beneath it |
| Tree.LeafContentsAppend | xml/node.go:28-32 | leaf contents of a concatenation are the concatenation of leaf contents, so document order is kept |
| Tree.FindAttributeValue | xml/node.go:53-60 | the value of the first attribute with that local name, and "" when none has it; the lookup is total |
| Tree.ValuesFromAttributes | xml/node.go:37-51 | as many entries as `Values` has; each is the attribute looked up on the node itself, never on the child that produced the entry |
| Tree.OnePerLeaf | xml/node.go:44-48 | one copy of the value per leaf child, and nothing for other children |
| Tree.PreOrder | xml/xml.go:79-96 | the first node of the forest comes first, and the order is at least as long as the forest |
| Tree.PreOrderKeeps | xml/xml.go:79-96 | no node of the forest is lost: each one appears in its document order |
| Tree.PreOrderBelow | xml/xml.go:93 | every node of a child's subtree appears in the forest's document order, as the walk's descent into `n.Nodes` visits it |
| Tree.PreOrderAppend | xml/xml.go:80-95 | the walk's order over siblings followed by further siblings is one order after the other |
| Segments.Split | xml/xml.go:17 | one more piece than there are slashes, and no piece holds a slash |
| Segments.JoinSplit | xml/xml.go:17 | joining the pieces with `/` gives back the path |
| Segments.SplitJoin | xml/xml.go:17 | splitting slash-free pieces joined with `/` gives back the pieces, empty ones included |
| Segments.SplitLastEmpty | xml/xml.go:17 | the last piece is empty exactly when the path is empty or ends with `/` |
| Segments.FormatIndex | xml/xml.go:116 | the rewritten head `pre[d]post` has a bracketed digit right after `pre` |
| Segments.ParseIndex | xml/xml.go:99-104 | a reading exists exactly when the segment holds a bracketed digit; the segment is then `pre[index]post` with no bracketed digit in `post` |
| Segments.IndexReadingUnique | xml/xml.go:99-104 | two readings of one segment whose `post` holds no bracketed digit are the same reading |
| Segments.ParseFormatIndex | xml/xml.go:99-116 | reading back a head rewritten by the countdown gives its `pre`, digit and `post` |
| Segments.ParseAttr | xml/xml.go:135-137 | a reading exists exactly when some `@` is followed by a letter; `pre` ends at the last such `@` and `attr` is the whole letter run after it |
| Engine.TrimStackIndex | xml/xml.go:98-121 | consumed exactly when the head reads as `pre[d]post` with `pre` the node's name; otherwise the stack is unchanged; the stack never grows and never empties |
| Engine.TrimCountdown | xml/xml.go:115-117 | with a positive index the head becomes exactly `pre[k-1]post`, the tail is kept and the visit is consumed |
| Engine.TrimHit | xml/xml.go:108-114 | at index 0 the head is dropped when more segments follow, and otherwise rewritten to `pre` followed by `post` |
| Engine.Advance | xml/xml.go:82-84 | the stack update before the match tests keeps the stack non-empty and never longer |
| Engine.PlainDescent | xml/xml.go:82-84 | when the countdown did not apply, the head is dropped exactly when two or more segments remain and it equals the node's name; nothing else changes |
| Engine.AttrMatch | xml/xml.go:134-140 | a match happens exactly when one segment is left, it starts with the node's name, an `@` followed by a letter comes right after the name, and no later `@` is followed by a letter; the attribute is the letter run after that `@` |
| Engine.MatchesExclusive | xml/xml.go:57-71 | the text and attribute matches never both apply, so the two walks' different test order cannot matter |
| Engine.GetValues | xml/xml.go:123-130 | values come back exactly on a text match, which clears the stack; otherwise the stack is untouched |
| Engine.GetValuesWithAttributes | xml/xml.go:132-145 | values come back exactly on an attribute match, read with the matched attribute name, which clears the stack; otherwise the stack is untouched |
| Engine.Visit | xml/xml.go:81-92 | with a non-empty stack, a match happens exactly when the advanced stack passes the text or the attribute test; a match is the visited node and clears the stack; otherwise the stack stays non-empty; either way it never grows |
| Engine.VisitShape | xml/xml.go:82-92 | a visit leaves the stack unchanged, rewrites only its head, drops only its head, or clears it |
| Engine.DescendsTransitive | xml/xml.go:79-96 | `Descends` ("never grows, rewrites only the head") is transitive |
| Engine.Locate | xml/xml.go:79-96 | the scan's match is a node of the tree and clears the stack; no match leaves a non-empty stack whose lower segments are a suffix of the path's |
| Engine.LocateEmptyStack | xml/xml.go:81 | with an empty stack nothing is found and the stack stays empty |
| Engine.LocateAppend | xml/xml.go:80-95 | scanning two runs of nodes is scanning the first, then the second only when nothing matched |
| Engine.TerminalRecursive | xml/xml.go:57-71 | the recursive walk's two tests: an attribute match hands the attribute values to the collector, a text match hands it an empty slice, and no match changes nothing |
| Engine.XmlReader | xml/xml.go:79-96 | the shallow walk never grows the stack and only ever rewrites its head, across all the nodes it visits |
| Engine.XmlReaderRecursive | xml/xml.go:50-75 | the recursive walk never grows the stack and only ever rewrites its head, across all the nodes it visits |
| Engine.XmlReaderEmptyStack | xml/xml.go:81 | the shallow walk with an empty stack appends nothing and leaves the stack empty |
| Engine.XmlReaderRecursiveEmptyStack | xml/xml.go:52 | the recursive walk with an empty stack appends nothing and leaves the stack empty |
| Engine.XmlReaderStep | xml/xml.go:80-93 | one loop iteration of the shallow walk is a visit: a match reads that node and stops, otherwise the walk goes into the children and then on to the later siblings |
| Engine.XmlReaderLocates | xml/xml.go:79-96 | the shallow walk as written equals the reference scan over the nodes in document order, followed by shallow reading of the node found |
| Engine.XmlReaderRecursiveLocates | xml/xml.go:50-75 | the recursive walk as written settles on the same node as the reference scan and reads it with the collector, whatever the collector does |
| Engine.Parse | xml/xml.go:14-28 | the result is empty when no node matches, and otherwise the shallow reading of the one node the document-order scan of the split path settles on |
| Engine.ParseRecursive | xml/xml.go:32-46 | the same node as `Parse`, read with the recursive collector |
| Engine.CountdownStep | xml/xml.go:115-117 | visiting a node named `pre` turns a head `pre[k]post`, k > 0, into `pre[k-1]post` with no match and no descent |
| Engine.CountdownExact | xml/xml.go:115-117 | k nodes named `pre` count the head down exactly k steps, one per node |
| Engine.VisitKeepsEmptyLast | xml/xml.go:82-92 | an empty last segment never matches a named node and stays the last segment |
| Engine.LocateEmptyLast | xml/xml.go:79-96 | a scan whose last segment is empty finds nothing in a tree of named elements |
| Engine.TrailingSlashFindsNothing | xml/xml.go:17 | a path ending in `/` reads nothing in either mode |
| Engine.ParseReadsOneNode | xml/xml.go:85-91 | a shallow query returns nothing, or the values of a single node of the tree, read as text or as one attribute |
| Engine.ParseRecursiveReadsOneNode | xml/xml.go:57-71 | a recursive query returns nothing, or what the collector makes of a single node of the tree, handed an empty slice on a text match or that node's attribute values on an attribute match |
| Scenarios.SimpleDepthZero | xml/xml_test.go:81-86 | `root` gives `["content 0"]`; recursively it hands the root to the collector |
| Scenarios.SimpleDepthOne | xml/xml_test.go:87-92 | `root/baz` gives `["baz content 0", "baz content 1"]`; recursively it hands `baz` to the collector |
| Scenarios.SimpleDepthOneIndexed | xml/xml_test.go:93-98 | `root/foo[1]` gives `["foo content 1"]`; recursively it hands the second `foo` to the collector |
| Scenarios.SimpleDepthTwo | xml/xml_test.go:99-104 | `root/foo[0]/bar` gives `["john", "doe"]`; recursively it hands `bar` to the collector |
| Scenarios.SimpleBadPath | xml/xml_test.go:105-110 | `root/foo[0]/` gives `[]` in both modes |
| Scenarios.FeedEntryText | xml/xml_test.go:111-116 | `feed/entry[0]/updated` gives the first entry's timestamp |
| Scenarios.FeedEntryAttribute | xml/xml_test.go:117-122 | `feed/entry[1]/link@href` gives the second entry's link target |
| Scenarios.FeedLinkAttribute | xml/xml_test.go:123-128 | `feed/link[1]@href` gives the feed's second link target |
| Scenarios.IndexCountsAcrossLevels | xml/xml.go:115-117 | `root/p[1]` gives `["foo content 0"]`: the index counted the root's `p` and then the `p` one level further down |
| Scenarios.FirstSegmentUnanchored | xml/xml.go:82-84 | `foo/p` gives `["foo content 0"]`: descent waits for the first `foo` anywhere in document order |

## Left out

- The XML decoder is not part of this model: the byte buffer, `encoding/xml`, the custom `UnmarshalXML`, inner-markup capture and the stripping of namespace prefixes (xml/node.go:14-19, xml/xml.go:19-21). It is a foreign library, so queries take the decoded tree as input.
- The panic on a decode failure (xml/xml.go:22-24 in `Parse`, xml/xml.go:40-42 in `ParseRecursive`) is error plumbing of the decoder and is left out.
- The panic on a failed integer conversion (xml/xml.go:105-107) cannot happen, because the pattern admits one decimal digit only.
- Segments.ParseIndex: a newline is treated like any other character. In the source's patterns `.` does not match a newline, so a segment holding one can read differently there.
- Segments.ParseAttr: the same newline caveat as `ParseIndex`.
- Engine.ParseRecursive: the collector `valuesRecursive` is not part of this model, so it is a parameter. The recursive test expectations (xml/xml_test.go:137-199) depend on its body and are not proved. Only the node each recursive query hands to the collector is proved.
- Engine.TrailingSlashFindsNothing: it requires that no element has an empty local name. The decoder guarantees this, and the model does not include the decoder.
- The stack is a `*[]string` mutated in place in the source (Go slice aliasing). Each query owns one stack that is never shared, so the model threads it as a value.
- Scenarios: the hand-built test trees leave out what no query reads. That covers the inner markup of elements with children, the feed's attributes, the thumbnail's attributes, and the text of the entry titles and contents.
