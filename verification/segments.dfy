/**
  Path segments (xml/xml.go): the path is cut into segments at every `/`, and a
  segment is read in two ways by pattern, with greedy semantics on a line-free string:

  - index form `pre[d]post`: the LAST bracketed single decimal digit in the segment,
    with everything before it as `pre` and everything after it as `post`;
  - attribute form `pre@attr`: the LAST `@` followed by at least one ASCII letter,
    with `attr` the longest run of letters after it; anything after that run is ignored.
 */
module Segments {
  import opened Wrappers

  // ---------------------------------------------------------------------------
  // Splitting on `/`

  function SlashCount(s: string): nat
  {
    if |s| == 0 then 0 else (if s[0] == '/' then 1 else 0) + SlashCount(s[1..])
  }

  /** The pieces of `s` between the `/` separators, empty pieces included. */
  function Split(s: string): (r: seq<string>)
    ensures |r| == SlashCount(s) + 1
    ensures forall i :: 0 <= i < |r| ==> '/' !in r[i]
  {
    if |s| == 0 then [""]
    else
      var rest := Split(s[1..]);
      if s[0] == '/' then [""] + rest
      else [[s[0]] + rest[0]] + rest[1..]
  }

  /** The pieces glued back together with `/` between neighbours. */
  function Join(parts: seq<string>): string
    requires |parts| > 0
  {
    if |parts| == 1 then parts[0] else parts[0] + "/" + Join(parts[1..])
  }

  lemma {:induction false} JoinSplit(s: string)
    ensures Join(Split(s)) == s
  {
    if |s| > 0 {
      var rest := Split(s[1..]);
      JoinSplit(s[1..]);
      if s[0] == '/' {
        assert Split(s)[1..] == rest;
      } else if |rest| == 1 {
        assert Split(s) == [[s[0]] + rest[0]];
      } else {
        var r := Split(s);
        assert r[0] == [s[0]] + rest[0];
        assert r[1..] == rest[1..];
        assert Join(rest) == rest[0] + "/" + Join(rest[1..]);
      }
    }
  }

  lemma {:induction false} SplitJoin(parts: seq<string>)
    requires |parts| > 0
    requires forall i :: 0 <= i < |parts| ==> '/' !in parts[i]
    ensures Split(Join(parts)) == parts
    decreases |parts|, |parts[0]|
  {
    var p := parts[0];
    if |p| == 0 {
      if |parts| > 1 {
        var tail := parts[1..];
        SplitJoin(tail);
        assert Join(parts) == "/" + Join(tail);
        assert ("/" + Join(tail))[1..] == Join(tail);
      }
    } else {
      var shorter := [p[1..]] + parts[1..];
      assert forall i :: 1 <= i < |shorter| ==> shorter[i] == parts[i];
      assert '/' !in p[1..] by {
        assert forall c :: c in p[1..] ==> c in p;
      }
      SplitJoin(shorter);
      assert shorter[1..] == parts[1..];
      assert Join(parts) == [p[0]] + Join(shorter);
      assert Join(parts)[1..] == Join(shorter);
      assert [p[0]] + p[1..] == p;
    }
  }

  /** The last piece is empty exactly when the path is empty or ends with `/`. */
  lemma {:induction false} SplitLastEmpty(s: string)
    ensures var r := Split(s); r[|r| - 1] == "" <==> (|s| == 0 || s[|s| - 1] == '/')
  {
    if |s| > 0 {
      var rest := Split(s[1..]);
      SplitLastEmpty(s[1..]);
      var r := Split(s);
      assert r[|r| - 1] == (if |rest| == 1 && s[0] != '/' then [s[0]] + rest[0] else rest[|rest| - 1]);
      if |s| > 1 {
        assert s[1..][|s| - 2] == s[|s| - 1];
      }
    }
  }

  // ---------------------------------------------------------------------------
  // The index form `pre[d]post`

  predicate IsDigit(c: char)
  {
    '0' <= c <= '9'
  }

  predicate IsLetter(c: char)
  {
    ('a' <= c <= 'z') || ('A' <= c <= 'Z')
  }

  /** A bracketed single digit starts at position `i` of `s`. */
  predicate IndexAt(s: string, i: int)
  {
    0 <= i && i + 2 < |s| && s[i] == '[' && IsDigit(s[i + 1]) && s[i + 2] == ']'
  }

  predicate HasIndex(s: string)
  {
    exists i :: 0 <= i < |s| && IndexAt(s, i)
  }

  datatype Indexed = Indexed(pre: string, index: nat, post: string)

  function DigitChar(d: nat): (c: char)
    requires d < 10
    ensures IsDigit(c) && c as int - '0' as int == d
  {
    ('0' as int + d) as char
  }

  /** `pre[d]post` with `d` the decimal digit of `index`. */
  function FormatIndex(pre: string, index: nat, post: string): (s: string)
    requires index < 10
    ensures |s| == |pre| + 3 + |post|
    ensures IndexAt(s, |pre|)
  {
    pre + "[" + [DigitChar(index)] + "]" + post
  }

  /** The largest position below `hi` at which a bracketed digit starts. */
  function LastIndexBefore(s: string, hi: nat): (r: Option<nat>)
    requires hi <= |s|
    ensures r.Some? ==> r.value < hi && IndexAt(s, r.value)
    ensures r.Some? ==> forall k :: r.value < k < hi ==> !IndexAt(s, k)
    ensures r.None? ==> forall k :: 0 <= k < hi ==> !IndexAt(s, k)
  {
    if hi == 0 then None
    else if IndexAt(s, hi - 1) then Some(hi - 1)
    else LastIndexBefore(s, hi - 1)
  }

  /**
    The index reading of a segment. It exists exactly when the segment holds a
    bracketed digit; the segment is then `pre[index]post` and, the match being the
    last one, `post` holds none.
   */
  function ParseIndex(s: string): (r: Option<Indexed>)
    ensures r.None? <==> !HasIndex(s)
    ensures r.Some? ==> r.value.index < 10
    ensures r.Some? ==> s == FormatIndex(r.value.pre, r.value.index, r.value.post)
    ensures r.Some? ==> !HasIndex(r.value.post)
  {
    match LastIndexBefore(s, |s|)
    case None => None
    case Some(i) =>
      var post := s[i + 3..];
      assert forall j :: IndexAt(post, j) ==> IndexAt(s, i + 3 + j);
      assert s == s[..i] + "[" + [s[i + 1]] + "]" + post;
      Some(Indexed(s[..i], s[i + 1] as int - '0' as int, post))
  }

  /**
    Of two index readings of the same string whose `post` holds no bracketed digit,
    the second cannot have the shorter `pre`: its bracketed digit would lie in its `post`.
   */
  lemma IndexReadingNotShorter(p: string, k: nat, q: string, p': string, k': nat, q': string)
    requires k < 10 && k' < 10
    requires !HasIndex(q')
    requires FormatIndex(p, k, q) == FormatIndex(p', k', q')
    ensures |p'| >= |p|
  {
    var s := FormatIndex(p, k, q);
    if |p'| < |p| {
      var j := |p| - |p'| - 3;
      assert j >= 0 by {
        assert s[|p'| + 1] == DigitChar(k');
        assert s[|p'| + 2] == ']';
        assert s[|p|] == '[';
      }
      assert forall t :: 0 <= t < |q'| ==> q'[t] == s[|p'| + 3 + t];
      IndexWitness(q', j);
    }
  }

  lemma IndexWitness(s: string, i: int)
    requires 0 <= i && i + 2 < |s|
    requires s[i] == '[' && IsDigit(s[i + 1]) && s[i + 2] == ']'
    ensures HasIndex(s)
  {
    assert IndexAt(s, i);
  }

  /** Two index readings of the same string whose `post` holds no bracketed digit agree. */
  lemma IndexReadingUnique(p: string, k: nat, q: string, p': string, k': nat, q': string)
    requires k < 10 && k' < 10
    requires !HasIndex(q) && !HasIndex(q')
    requires FormatIndex(p, k, q) == FormatIndex(p', k', q')
    ensures p == p' && k == k' && q == q'
  {
    var s := FormatIndex(p, k, q);
    IndexReadingNotShorter(p, k, q, p', k', q');
    IndexReadingNotShorter(p', k', q', p, k, q);
    assert p == s[..|p|] == p';
    assert DigitChar(k) == s[|p| + 1] == DigitChar(k');
    assert q == s[|p| + 3..] == q';
  }

  /** Reading back a formatted index segment gives the parts it was made from. */
  lemma ParseFormatIndex(pre: string, index: nat, post: string)
    requires index < 10
    requires !HasIndex(post)
    ensures ParseIndex(FormatIndex(pre, index, post)) == Some(Indexed(pre, index, post))
  {
    var s := FormatIndex(pre, index, post);
    var r := ParseIndex(s);
    assert r.Some?;
    IndexReadingUnique(pre, index, post, r.value.pre, r.value.index, r.value.post);
  }

  // ---------------------------------------------------------------------------
  // The attribute form `pre@attr`

  /** An `@` followed by a letter starts at position `j` of `s`. */
  predicate AttrAt(s: string, j: int)
  {
    0 <= j && j + 1 < |s| && s[j] == '@' && IsLetter(s[j + 1])
  }

  predicate HasSelector(s: string)
  {
    exists j :: 0 <= j < |s| && AttrAt(s, j)
  }

  datatype Selector = Selector(pre: string, attr: string)

  /** The longest prefix of `s` made only of letters. */
  function LetterRun(s: string): (r: string)
    ensures |r| <= |s| && r == s[..|r|]
    ensures forall i :: 0 <= i < |r| ==> IsLetter(r[i])
    ensures |r| == |s| || !IsLetter(s[|r|])
  {
    if |s| == 0 || !IsLetter(s[0]) then ""
    else [s[0]] + LetterRun(s[1..])
  }

  /** The largest position below `hi` at which an `@` followed by a letter starts. */
  function LastSelectorBefore(s: string, hi: nat): (r: Option<nat>)
    requires hi <= |s|
    ensures r.Some? ==> r.value < hi && AttrAt(s, r.value)
    ensures r.Some? ==> forall k :: r.value < k < hi ==> !AttrAt(s, k)
    ensures r.None? ==> forall k :: 0 <= k < hi ==> !AttrAt(s, k)
  {
    if hi == 0 then None
    else if AttrAt(s, hi - 1) then Some(hi - 1)
    else LastSelectorBefore(s, hi - 1)
  }

  /**
    The attribute reading of a segment. It exists exactly when some `@` is followed
    by a letter; `pre` is everything before the last such `@`, and `attr` the whole
    run of letters after it.
   */
  function ParseAttr(s: string): (r: Option<Selector>)
    ensures r.None? <==> !HasSelector(s)
    ensures r.Some? ==> |r.value.pre| < |s| && s[..|r.value.pre|] == r.value.pre
    ensures r.Some? ==> AttrAt(s, |r.value.pre|)
    ensures r.Some? ==> forall k :: |r.value.pre| < k ==> !AttrAt(s, k)
    ensures r.Some? ==> r.value.attr == LetterRun(s[|r.value.pre| + 1..])
    ensures r.Some? ==> |r.value.attr| > 0
  {
    match LastSelectorBefore(s, |s|)
    case None => None
    case Some(j) =>
      Some(Selector(s[..j], LetterRun(s[j + 1..])))
  }
}
