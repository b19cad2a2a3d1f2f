/** `_clean_wikipedia_html` (src/wikipedia_utils.py): a fixed sequence of
    regular-expression deletions over the HTML of a Wikipedia section, two
    line filters and a final trim. Each pattern is a matcher for
    `Rewrite.SubAll`. */
module WikiClean {
  import opened Wrappers
  import opened PyStr
  import opened Rewrite

  // ---------------------------------------------------------------------
  // The patterns

  /** `<open[^>]*>.*?close` (DOTALL), deleted: the opening tag runs to its
      first `>`, and the block ends at the first `close` after that. */
  function BlockHit(open: string, close: string, s: string): (h: Option<Hit>)
    requires close != []
    ensures h.Some? ==> Usable(h, s) && h.value.repl == "" && StartsWith(s, open)
    ensures h.Some? ==> h.value.len >= |close| && OccursAt(s, close, h.value.len - |close|)
    ensures h.Some? ==> var j := Find(s, ">", |open|);
      j.Some? && j.value < h.value.len - |close|
      && forall i :: j.value < i < h.value.len - |close| ==> !OccursAt(s, close, i)
    ensures h.None? ==>
      (!StartsWith(s, open) || Find(s, ">", |open|).None?
       || Find(s, close, Find(s, ">", |open|).value + 1).None?)
  {
    if StartsWith(s, open) then
      match Find(s, ">", |open|)
      case None => None
      case Some(j) =>
        match Find(s, close, j + 1)
        case None => None
        case Some(k) => Some(Hit(k + |close|, ""))
    else None
  }

  /** `<style[^>]*>.*?</style>`. */
  function StyleHit(s: string): Option<Hit>
  {
    BlockHit("<style", "</style>", s)
  }

  /** `<sup[^>]*>.*?</sup>`. */
  function SupHit(s: string): Option<Hit>
  {
    BlockHit("<sup", "</sup>", s)
  }

  /** `<!--.*?-->` (DOTALL), deleted up to the first `-->`. */
  function CommentHit(s: string): (h: Option<Hit>)
    ensures h.Some? ==> Usable(h, s) && h.value.repl == "" && StartsWith(s, "<!--")
    ensures h.Some? ==>
      (h.value.len >= 7 && OccursAt(s, "-->", h.value.len - 3)
       && forall i :: 4 <= i < h.value.len - 3 ==> !OccursAt(s, "-->", i))
    ensures h.None? ==> !StartsWith(s, "<!--") || Find(s, "-->", 4).None?
  {
    if StartsWith(s, "<!--") then
      match Find(s, "-->", 4)
      case None => None
      case Some(k) => Some(Hit(k + 3, ""))
    else None
  }

  /** `<a [^>]+>(.*?)</a>` (DOTALL), replaced by the link text: the text
      between the end of the opening tag and the first `</a>`. */
  function AnchorHit(s: string): (h: Option<Hit>)
    ensures h.Some? ==> Usable(h, s) && StartsWith(s, "<a ") && h.value.len >= 4 && OccursAt(s, "</a>", h.value.len - 4)
    ensures h.Some? ==> var j := Find(s, ">", 3);
      j.Some? && j.value > 3 && j.value < h.value.len - 4
      && h.value.repl == s[j.value + 1..h.value.len - 4]
      && forall i :: j.value < i < h.value.len - 4 ==> !OccursAt(s, "</a>", i)
    ensures h.None? ==>
      (!StartsWith(s, "<a ") || Find(s, ">", 3).None? || Find(s, ">", 3).value == 3
       || Find(s, "</a>", Find(s, ">", 3).value + 1).None?)
  {
    if StartsWith(s, "<a ") then
      match Find(s, ">", 3)
      case None => None
      case Some(j) =>
        if j == 3 then None
        else
          match Find(s, "</a>", j + 1)
          case None => None
          case Some(k) => Some(Hit(k + 4, s[j + 1..k]))
    else None
  }

  /** `<[^<]+?>`, deleted: from a `<` to the first `>` after at least one
      character, with no `<` in between. */
  function TagHit(s: string): (h: Option<Hit>)
    ensures h.Some? ==> Usable(h, s) && h.value.repl == "" && h.value.len >= 3
    ensures h.Some? ==>
      (s[0] == '<' && s[h.value.len - 1] == '>'
       && (forall i :: 1 <= i < h.value.len - 1 ==> s[i] != '<')
       && (forall i :: 2 <= i < h.value.len - 1 ==> s[i] != '>'))
    ensures s != [] && s[0] == '<' && h.None? ==>
      Find(s, ">", 2).None? || exists i :: 1 <= i < Find(s, ">", 2).value && s[i] == '<'
  {
    if s != [] && s[0] == '<' then
      match Find(s, ">", 2)
      case None => None
      case Some(j) =>
        if forall i :: 1 <= i < j ==> s[i] != '<' then
          assert forall i :: 2 <= i < j ==> s[i] != '>' by {
            forall i | 2 <= i < j ensures s[i] != '>' {
              assert !OccursAt(s, ">", i);
              assert s[i..i + 1] == [s[i]];
            }
          }
          assert s[j..j + 1] == ">";
          Some(Hit(j + 1, ""))
        else None
    else None
  }

  /** `open[^close]*close` for single characters, deleted: from `open` to
      the first `close`. */
  function SpanHit(open: char, close: char, s: string): (h: Option<Hit>)
    ensures h.Some? ==> Usable(h, s) && h.value.repl == "" && h.value.len >= 2
    ensures h.Some? ==>
      (s[0] == open && s[h.value.len - 1] == close
       && forall i :: 1 <= i < h.value.len - 1 ==> s[i] != close)
    ensures h.None? ==> s == [] || s[0] != open || forall i :: 1 <= i < |s| ==> s[i] != close
  {
    if s != [] && s[0] == open then
      match Find(s, [close], 1)
      case None =>
        assert forall i :: 1 <= i < |s| ==> !OccursAt(s, [close], i);
        assert forall i :: 1 <= i < |s| ==> s[i] != close by {
          forall i | 1 <= i < |s| ensures s[i] != close {
            assert !OccursAt(s, [close], i);
            assert s[i..i + 1] == [s[i]];
          }
        }
        None
      case Some(j) =>
        assert forall i :: 1 <= i < j ==> s[i] != close by {
          forall i | 1 <= i < j ensures s[i] != close {
            assert !OccursAt(s, [close], i);
            assert s[i..i + 1] == [s[i]];
          }
        }
        assert s[j..j + 1] == [close];
        Some(Hit(j + 1, ""))
    else None
  }

  /** `\[[^\]]*\]`. */
  function BracketHit(s: string): Option<Hit>
  {
    SpanHit('[', ']', s)
  }

  /** `\{[^\}]*\}`. */
  function BraceHit(s: string): Option<Hit>
  {
    SpanHit('{', '}', s)
  }

  /** `/\*.*?\*\/` (DOTALL), deleted up to the first `*` `/` after the
      opening pair. */
  function CssCommentHit(s: string): (h: Option<Hit>)
    ensures h.Some? ==> Usable(h, s) && h.value.repl == "" && StartsWith(s, "/*")
    ensures h.Some? ==>
      (h.value.len >= 4 && OccursAt(s, "*/", h.value.len - 2)
       && forall i :: 2 <= i < h.value.len - 2 ==> !OccursAt(s, "*/", i))
    ensures h.None? ==> !StartsWith(s, "/*") || Find(s, "*/", 2).None?
  {
    if StartsWith(s, "/*") then
      match Find(s, "*/", 2)
      case None => None
      case Some(k) => Some(Hit(k + 2, ""))
    else None
  }

  // ---------------------------------------------------------------------
  // The line filters

  /** The lines that satisfy `p`, in order. */
  function Keep(p: string -> bool, ls: seq<string>): (r: seq<string>)
    ensures |r| <= |ls|
    ensures forall k :: 0 <= k < |r| ==> r[k] in ls && p(r[k])
    ensures (forall k :: 0 <= k < |ls| ==> p(ls[k])) ==> r == ls
    ensures forall k :: 0 <= k < |ls| && p(ls[k]) ==> ls[k] in r
  {
    if ls == [] then []
    else
      var rest := Keep(p, ls[1..]);
      assert forall x :: x in ls[1..] ==> x in ls;
      assert forall k :: 1 <= k < |ls| ==> ls[k] == ls[1..][k - 1];
      if p(ls[0]) then [ls[0]] + rest else rest
  }

  /** Filtering a concatenation filters each part and keeps their order. */
  lemma {:induction false} KeepAppend(p: string -> bool, a: seq<string>, b: seq<string>)
    ensures Keep(p, a + b) == Keep(p, a) + Keep(p, b)
  {
    if a != [] {
      var ab := a + b;
      assert ab[0] == a[0] && ab[1..] == a[1..] + b;
      KeepCons(p, ab);
      KeepCons(p, a);
      KeepAppend(p, a[1..], b);
    } else {
      assert a + b == b;
    }
  }

  lemma KeepCons(p: string -> bool, ls: seq<string>)
    requires ls != []
    ensures Keep(p, ls) == (if p(ls[0]) then [ls[0]] else []) + Keep(p, ls[1..])
  {
  }

  /** A single line is kept exactly when it satisfies `p`. */
  lemma KeepOne(p: string -> bool, l: string)
    ensures Keep(p, [l]) == if p(l) then [l] else []
  {
  }

  predicate NotCaret(l: string)
  {
    !StartsWith(Strip(l), "^")
  }

  predicate NotBlank(l: string)
  {
    !IsBlank(l)
  }

  /** The lines whose trimmed form does not start with `^`. */
  function DropCaretLines(ls: seq<string>): (r: seq<string>)
    ensures |r| <= |ls|
    ensures forall k :: 0 <= k < |r| ==> r[k] in ls && NotCaret(r[k])
    ensures (forall k :: 0 <= k < |ls| ==> NotCaret(ls[k])) ==> r == ls
    ensures forall k :: 0 <= k < |ls| && NotCaret(ls[k]) ==> ls[k] in r
  {
    Keep(NotCaret, ls)
  }

  /** The lines that are not blank. */
  function NonBlankLines(ls: seq<string>): (r: seq<string>)
    ensures |r| <= |ls|
    ensures forall k :: 0 <= k < |r| ==> r[k] in ls && NotBlank(r[k])
    ensures (forall k :: 0 <= k < |ls| ==> NotBlank(ls[k])) ==> r == ls
    ensures forall k :: 0 <= k < |ls| && NotBlank(ls[k]) ==> ls[k] in r
  {
    Keep(NotBlank, ls)
  }

  // ---------------------------------------------------------------------
  // The cleaner

  /** The text after the tag and bracket deletions, before the line
      filters. */
  function StripMarkup(html: string): string
  {
    var h1 := SubAll(StyleHit, html);
    var h2 := SubAll(CommentHit, h1);
    var h3 := SubAll(SupHit, h2);
    var h4 := SubAll(AnchorHit, h3);
    var t1 := SubAll(TagHit, h4);
    SubAll(BracketHit, t1)
  }

  /** The text after the caret-line filter and the comment and brace
      deletions. */
  function StripArtifacts(t: string): string
  {
    var t3 := Join("\n", DropCaretLines(SplitLines(t)));
    var t4 := SubAll(CssCommentHit, t3);
    SubAll(BraceHit, t4)
  }

  /** `_clean_wikipedia_html(html)`. */
  function CleanWikipediaHtml(html: string): string
  {
    Tidy(StripArtifacts(StripMarkup(html)))
  }

  /** The last two steps: drop blank lines, then trim the whole text. */
  function Tidy(t: string): (r: string)
    ensures r == [] || (!IsSpace(r[0]) && !IsSpace(r[|r| - 1]))
  {
    Strip(Join("\n", NonBlankLines(SplitLines(t))))
  }

  // ---------------------------------------------------------------------
  // No blank lines survive

  lemma LStripKeeps(x: string)
    requires !IsBlank(x) && NoLineBreak(x)
    ensures !IsBlank(LStrip(x)) && NoLineBreak(LStrip(x))
  {
    var l := LStrip(x);
    forall i | 0 <= i < |l| ensures !IsLineBreak(l[i]) {
      assert l[i] == x[i + (|x| - |l|)];
    }
  }

  lemma RStripKeeps(x: string)
    requires !IsBlank(x) && NoLineBreak(x)
    ensures !IsBlank(RStrip(x)) && NoLineBreak(RStrip(x))
  {
    var r := RStrip(x);
    forall i | 0 <= i < |r| ensures !IsLineBreak(r[i]) {
      assert r[i] == x[i];
    }
  }

  /** The list with its first line left-trimmed and its last line
      right-trimmed (a single line is trimmed on both sides). */
  function StripEnds(ks: seq<string>): (ys: seq<string>)
    requires ks != []
    ensures |ys| == |ks|
    ensures |ks| == 1 ==> ys[0] == Strip(ks[0])
    ensures |ks| > 1 ==> ys[0] == LStrip(ks[0]) && ys[|ks| - 1] == RStrip(ks[|ks| - 1])
    ensures forall k :: 0 < k < |ks| - 1 ==> ys[k] == ks[k]
  {
    if |ks| == 1 then [Strip(ks[0])]
    else [LStrip(ks[0])] + ks[1..|ks| - 1] + [RStrip(ks[|ks| - 1])]
  }

  /** A line of the cleaner's output: not blank, no line break. */
  predicate GoodLine(l: string)
  {
    !IsBlank(l) && NoLineBreak(l)
  }

  lemma StripKeeps(x: string)
    requires GoodLine(x)
    ensures GoodLine(LStrip(x)) && GoodLine(RStrip(x)) && GoodLine(Strip(x))
  {
    LStripKeeps(x);
    RStripKeeps(x);
    RStripKeeps(LStrip(x));
  }

  lemma StripEndsLines(ks: seq<string>)
    requires ks != []
    requires forall k :: 0 <= k < |ks| ==> GoodLine(ks[k])
    ensures forall k :: 0 <= k < |ks| ==> GoodLine(StripEnds(ks)[k])
  {
    var n := |ks|;
    var ys := StripEnds(ks);
    forall k | 0 <= k < n
      ensures GoodLine(ys[k])
    {
      if k == 0 {
        StripKeeps(ks[0]);
      } else if k == n - 1 {
        StripKeeps(ks[n - 1]);
      } else {
        assert ys[k] == ks[k];
      }
    }
  }

  /** Left-trimming a joined list trims its first line only. */
  lemma LStripJoin(ks: seq<string>)
    requires |ks| > 1 && !IsBlank(ks[0])
    ensures LStrip(Join("\n", ks)) == Join("\n", [LStrip(ks[0])] + ks[1..])
  {
    var first := LStrip(ks[0]);
    var tail := "\n" + Join("\n", ks[1..]);
    assert Join("\n", ks) == ks[0] + tail by {
      assert ks == [ks[0]] + ks[1..];
      JoinCons("\n", ks[0], ks[1..]);
    }
    LStripAppend(ks[0], tail);
    assert Join("\n", [first] + ks[1..]) == first + tail by {
      JoinCons("\n", first, ks[1..]);
    }
  }

  /** Right-trimming a joined list trims its last line only. */
  lemma RStripJoin(xs: seq<string>)
    requires |xs| > 1 && !IsBlank(xs[|xs| - 1])
    ensures RStrip(Join("\n", xs)) == Join("\n", xs[..|xs| - 1] + [RStrip(xs[|xs| - 1])])
  {
    var n := |xs|;
    var init := xs[..n - 1];
    assert xs == init + [xs[n - 1]];
    JoinSnoc("\n", init, xs[n - 1]);
    RStripAppend(Join("\n", init) + "\n", xs[n - 1]);
    JoinSnoc("\n", init, RStrip(xs[n - 1]));
  }

  lemma StripJoinLeft(ks: seq<string>)
    requires |ks| > 1 && !IsBlank(ks[0])
    ensures Strip(Join("\n", ks)) == RStrip(Join("\n", [LStrip(ks[0])] + ks[1..]))
  {
    LStripJoin(ks);
  }

  lemma StripJoinRight(ks: seq<string>)
    requires |ks| > 1 && !IsBlank(ks[|ks| - 1])
    ensures RStrip(Join("\n", [LStrip(ks[0])] + ks[1..])) == Join("\n", StripEnds(ks))
  {
    var n := |ks|;
    var xs := [LStrip(ks[0])] + ks[1..];
    assert xs[n - 1] == ks[n - 1];
    RStripJoin(xs);
    assert xs[..n - 1] + [RStrip(xs[n - 1])] == StripEnds(ks);
  }

  /** Trimming a "\n"-joined list of non-blank lines trims only the first
      and the last line. */
  lemma StripJoin(ks: seq<string>)
    requires ks != [] && !IsBlank(ks[0]) && !IsBlank(ks[|ks| - 1])
    ensures Strip(Join("\n", ks)) == Join("\n", StripEnds(ks))
  {
    if |ks| > 1 {
      StripJoinLeft(ks);
      StripJoinRight(ks);
    }
  }

  /** After `Tidy` no line is blank or whitespace-only. */
  lemma TidyNoBlankLines(t: string)
    ensures forall l :: l in SplitLines(Tidy(t)) ==> !IsBlank(l)
  {
    var ks := NonBlankLines(SplitLines(t));
    if ks != [] {
      forall k | 0 <= k < |ks|
        ensures GoodLine(ks[k])
      {
        assert ks[k] in SplitLines(t);
      }
      StripJoin(ks);
      StripEndsLines(ks);
      var ys := StripEnds(ks);
      assert ys[|ys| - 1] != [];
      SplitLinesOfJoin(ys);
    }
  }

  /** The cleaned text has no blank or whitespace-only line. */
  lemma CleanNoBlankLines(html: string)
    ensures forall l :: l in SplitLines(CleanWikipediaHtml(html)) ==> !IsBlank(l)
  {
    TidyNoBlankLines(StripArtifacts(StripMarkup(html)));
  }

  /** The cleaned text has nothing left to trim. */
  lemma CleanTrimmed(html: string)
    ensures Strip(CleanWikipediaHtml(html)) == CleanWikipediaHtml(html)
  {
    TidyTrimmed(StripArtifacts(StripMarkup(html)));
  }

  lemma TidyTrimmed(t: string)
    ensures Strip(Tidy(t)) == Tidy(t)
  {
    StripTwice(Join("\n", NonBlankLines(SplitLines(t))));
  }

  lemma StripTwice(s: string)
    ensures Strip(Strip(s)) == Strip(s)
  {
    StripNoSpace(Strip(s));
  }

  // ---------------------------------------------------------------------
  // Plain text passes through

  lemma StartsWithHead(t: string, p: string)
    requires p != [] && StartsWith(t, p)
    ensures t[0] == p[0]
  {
    assert t[..|p|][0] == t[0];
  }

  /** Without `<` none of the tag patterns can match. */
  lemma NoTagMatch(s: string)
    requires forall i :: 0 <= i < |s| ==> s[i] != '<'
    ensures NoMatch(StyleHit, s) && NoMatch(CommentHit, s) && NoMatch(SupHit, s)
    ensures NoMatch(AnchorHit, s) && NoMatch(TagHit, s)
  {
    forall i | 0 <= i < |s|
      ensures !StartsWith(s[i..], "<style") && !StartsWith(s[i..], "<!--")
      ensures !StartsWith(s[i..], "<sup") && !StartsWith(s[i..], "<a ")
      ensures s[i..][0] != '<'
    {
      assert s[i..][0] == s[i];
      if StartsWith(s[i..], "<style") { StartsWithHead(s[i..], "<style"); }
      if StartsWith(s[i..], "<!--") { StartsWithHead(s[i..], "<!--"); }
      if StartsWith(s[i..], "<sup") { StartsWithHead(s[i..], "<sup"); }
      if StartsWith(s[i..], "<a ") { StartsWithHead(s[i..], "<a "); }
    }
  }

  /** Without `[`, `{` or a comment opener none of the other patterns can match. */
  lemma NoSpanMatch(s: string)
    requires forall i :: 0 <= i < |s| ==> s[i] != '[' && s[i] != '{'
    requires forall i :: 0 <= i < |s| ==> !OccursAt(s, "/*", i)
    ensures NoMatch(BracketHit, s) && NoMatch(BraceHit, s) && NoMatch(CssCommentHit, s)
  {
    forall i | 0 <= i < |s|
      ensures s[i..][0] != '[' && s[i..][0] != '{' && !StartsWith(s[i..], "/*")
    {
      assert s[i..][0] == s[i];
      assert !OccursAt(s, "/*", i);
    }
  }

  /** Plain text: no markup character, only "\n" line breaks, no blank or
      `^` line, nothing to trim. */
  predicate PlainText(s: string)
  {
    (forall i :: 0 <= i < |s| ==> s[i] != '<' && s[i] != '[' && s[i] != '{')
    && (forall i :: 0 <= i < |s| ==> IsLineBreak(s[i]) ==> s[i] == '\n')
    && (forall i :: 0 <= i < |s| ==> !OccursAt(s, "/*", i))
    && (forall l :: l in SplitLines(s) ==> !IsBlank(l) && !StartsWith(Strip(l), "^"))
    && Strip(s) == s
  }

  /** Plain text comes out of the cleaner unchanged. */
  lemma PlainTextUnchanged(s: string)
    requires PlainText(s)
    ensures CleanWikipediaHtml(s) == s
  {
    MarkupPlain(s);
    ArtifactsPlain(s);
    TidyPlain(s);
  }

  lemma MarkupPlain(s: string)
    requires PlainText(s)
    ensures StripMarkup(s) == s
  {
    NoTagMatch(s);
    NoSpanMatch(s);
    SubAllNoMatch(StyleHit, s);
    SubAllNoMatch(CommentHit, s);
    SubAllNoMatch(SupHit, s);
    SubAllNoMatch(AnchorHit, s);
    SubAllNoMatch(TagHit, s);
    SubAllNoMatch(BracketHit, s);
  }

  /** Plain text is the "\n"-join of its own lines. */
  lemma LinesPlain(s: string)
    requires PlainText(s)
    ensures Join("\n", SplitLines(s)) == s
  {
    assert s == [] || s[|s| - 1] != '\n' by {
      if s != [] {
        assert !IsSpace(Strip(s)[|s| - 1]);
      }
    }
    JoinOfSplitLines(s);
  }

  lemma ArtifactsPlain(s: string)
    requires PlainText(s)
    ensures StripArtifacts(s) == s
  {
    LinesPlain(s);
    var ls := SplitLines(s);
    assert forall k :: 0 <= k < |ls| ==> ls[k] in ls;
    assert DropCaretLines(ls) == ls;
    NoSpanMatch(s);
    SubAllNoMatch(CssCommentHit, s);
    SubAllNoMatch(BraceHit, s);
  }

  lemma TidyPlain(s: string)
    requires PlainText(s)
    ensures Tidy(s) == s
  {
    LinesPlain(s);
    var ls := SplitLines(s);
    assert forall k :: 0 <= k < |ls| ==> ls[k] in ls;
    assert NonBlankLines(ls) == ls;
  }
}
