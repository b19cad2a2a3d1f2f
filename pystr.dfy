/** The behaviour of the Python `str` methods the modelled code calls:
    `isspace`, `strip`, `split()`, `splitlines`, `join`, `startswith`,
    `find`, `replace`, and `lower` restricted to ASCII letters. */
module PyStr {
  import opened Wrappers

  /** `c.isspace()`: the characters Python treats as whitespace in `strip`,
      `split()` and the regular-expression class `\s`. */
  predicate IsSpace(c: char)
  {
    var n := c as int;
    (9 <= n <= 13) || (0x1c <= n <= 0x20) || n == 0x85 || n == 0xa0 || n == 0x1680
    || (0x2000 <= n <= 0x200a) || n == 0x2028 || n == 0x2029 || n == 0x202f
    || n == 0x205f || n == 0x3000
  }

  /** The line boundaries of `str.splitlines`. */
  predicate IsLineBreak(c: char)
  {
    var n := c as int;
    (10 <= n <= 13) || (0x1c <= n <= 0x1e) || n == 0x85 || n == 0x2028 || n == 0x2029
  }

  lemma LineBreakIsSpace(c: char)
    ensures IsLineBreak(c) ==> IsSpace(c)
  {}

  predicate IsBlank(s: string)
  {
    forall i :: 0 <= i < |s| ==> IsSpace(s[i])
  }

  predicate NoLineBreak(s: string)
  {
    forall i :: 0 <= i < |s| ==> !IsLineBreak(s[i])
  }

  /** `s.lstrip()`: the suffix left after dropping leading whitespace. */
  function LStrip(s: string): (r: string)
    ensures |r| <= |s| && r == s[|s| - |r|..]
    ensures forall i :: 0 <= i < |s| - |r| ==> IsSpace(s[i])
    ensures r == [] || !IsSpace(r[0])
  {
    if s != [] && IsSpace(s[0]) then
      var r := LStrip(s[1..]);
      assert s[1..][|s| - 1 - |r|..] == s[|s| - |r|..];
      assert forall i :: 1 <= i < |s| - |r| ==> s[i] == s[1..][i - 1];
      r
    else s
  }

  /** `s.rstrip()`: the prefix left after dropping trailing whitespace. */
  function RStrip(s: string): (r: string)
    ensures |r| <= |s| && r == s[..|r|]
    ensures forall i :: |r| <= i < |s| ==> IsSpace(s[i])
    ensures r == [] || !IsSpace(r[|r| - 1])
  {
    if s != [] && IsSpace(s[|s| - 1]) then
      var r := RStrip(s[..|s| - 1]);
      assert s[..|s| - 1][..|r|] == s[..|r|];
      assert forall i :: |r| <= i < |s| - 1 ==> s[i] == s[..|s| - 1][i];
      r
    else s
  }

  /** `s.strip()`. */
  function Strip(s: string): (r: string)
    ensures r == [] || (!IsSpace(r[0]) && !IsSpace(r[|r| - 1]))
    ensures r == [] <==> IsBlank(s)
  {
    RStrip(LStrip(s))
  }

  /** A string with a non-blank character keeps everything after it. */
  lemma {:induction false} LStripAppend(a: string, b: string)
    requires !IsBlank(a)
    ensures LStrip(a + b) == LStrip(a) + b
  {
    assert (a + b)[0] == a[0];
    if IsSpace(a[0]) {
      assert (a + b)[1..] == a[1..] + b;
      assert !IsBlank(a[1..]) by {
        var i :| 0 <= i < |a| && !IsSpace(a[i]);
        assert a[1..][i - 1] == a[i];
      }
      LStripSpaceHead(a + b);
      LStripSpaceHead(a);
      LStripAppend(a[1..], b);
    } else {
      LStripNoSpace(a + b);
      LStripNoSpace(a);
    }
  }

  /** A string with a non-blank character keeps everything before it. */
  lemma {:induction false} RStripAppend(a: string, b: string)
    requires !IsBlank(b)
    ensures RStrip(a + b) == a + RStrip(b)
    decreases |b|
  {
    var s := a + b;
    assert s[|s| - 1] == b[|b| - 1];
    if IsSpace(b[|b| - 1]) {
      assert s[..|s| - 1] == a + b[..|b| - 1];
      assert !IsBlank(b[..|b| - 1]) by {
        var i :| 0 <= i < |b| && !IsSpace(b[i]);
        assert i < |b| - 1;
        assert b[..|b| - 1][i] == b[i];
      }
      RStripSpaceLast(s);
      RStripSpaceLast(b);
      RStripAppend(a, b[..|b| - 1]);
    } else {
      RStripNoSpace(s);
      RStripNoSpace(b);
    }
  }

  /** ASCII `lower`: 'A'..'Z' become 'a'..'z', everything else is kept. */
  function LowerChar(c: char): (r: char)
    ensures 'A' <= c <= 'Z' ==> r as int == c as int + 32
    ensures !('A' <= c <= 'Z') ==> r == c
  {
    if 'A' <= c <= 'Z' then (c as int + 32) as char else c
  }

  function Lower(s: string): (r: string)
    ensures |r| == |s|
    ensures forall i :: 0 <= i < |s| ==> r[i] == LowerChar(s[i])
  {
    seq(|s|, i requires 0 <= i < |s| => LowerChar(s[i]))
  }

  predicate IsAsciiLetter(c: char)
  {
    'a' <= c <= 'z' || 'A' <= c <= 'Z'
  }

  predicate IsDigit(c: char)
  {
    '0' <= c <= '9'
  }

  predicate StartsWith(s: string, p: string)
  {
    |p| <= |s| && s[..|p|] == p
  }

  /** `p` occurs in `s` at index `i`. */
  predicate OccursAt(s: string, p: string, i: nat)
  {
    i + |p| <= |s| && s[i..i + |p|] == p
  }

  /** `s.find(p, start)`: the first occurrence of `p` at or after `start`. */
  function Find(s: string, p: string, start: nat): (r: Option<nat>)
    ensures r.Some? ==> start <= r.value && OccursAt(s, p, r.value)
    ensures r.Some? ==> forall i :: start <= i < r.value ==> !OccursAt(s, p, i)
    ensures r.None? ==> forall i :: start <= i ==> !OccursAt(s, p, i)
    decreases |s| - start
  {
    if start + |p| > |s| then None
    else if OccursAt(s, p, start) then Some(start)
    else Find(s, p, start + 1)
  }

  /** `sep.join(xs)`. */
  function Join(sep: string, xs: seq<string>): string
  {
    if xs == [] then ""
    else if |xs| == 1 then xs[0]
    else xs[0] + sep + Join(sep, xs[1..])
  }

  /** Joining and then appending to the last element. */
  lemma {:induction false} JoinAppendLast(sep: string, xs: seq<string>, tail: string)
    requires xs != []
    ensures Join(sep, xs) + tail == Join(sep, xs[..|xs| - 1] + [xs[|xs| - 1] + tail])
  {
    if |xs| > 1 {
      var ys := xs[..|xs| - 1] + [xs[|xs| - 1] + tail];
      assert ys[1..] == xs[1..][..|xs[1..]| - 1] + [xs[1..][|xs[1..]| - 1] + tail];
      JoinAppendLast(sep, xs[1..], tail);
    }
  }

  /** Joining a list with one more element appends the separator and it. */
  lemma {:induction false} JoinSnoc(sep: string, xs: seq<string>, x: string)
    requires xs != []
    ensures Join(sep, xs + [x]) == Join(sep, xs) + sep + x
  {
    if |xs| > 1 {
      assert (xs + [x])[1..] == xs[1..] + [x];
      JoinSnoc(sep, xs[1..], x);
    } else {
      assert (xs + [x])[1..] == [x];
    }
  }

  /** The length of the leading run of non-whitespace characters. */
  function WordEnd(t: string): (n: nat)
    ensures n <= |t|
    ensures forall i :: 0 <= i < n ==> !IsSpace(t[i])
    ensures n < |t| ==> IsSpace(t[n])
  {
    if t == [] || IsSpace(t[0]) then 0 else 1 + WordEnd(t[1..])
  }

  /** `s.split()`: the maximal runs of non-whitespace characters. */
  function Words(s: string): (ws: seq<string>)
    ensures forall k :: 0 <= k < |ws| ==> IsWord(ws[k])
    decreases |s|
  {
    var t := LStrip(s);
    if t == [] then []
    else
      var n := WordEnd(t);
      FirstWord(t, n);
      var rest := Words(t[n..]);
      ConsWord(t[..n], rest);
      [t[..n]] + rest
  }

  lemma FirstWord(t: string, n: nat)
    requires t != [] && !IsSpace(t[0]) && n == WordEnd(t)
    ensures 0 < n <= |t| && IsWord(t[..n])
  {
  }

  lemma ConsWord(w: string, ws: seq<string>)
    requires IsWord(w) && forall k :: 0 <= k < |ws| ==> IsWord(ws[k])
    ensures forall k :: 0 <= k < |[w] + ws| ==> IsWord(([w] + ws)[k])
  {
  }

  /** A non-empty string without whitespace, as `split()` yields. */
  predicate IsWord(w: string)
  {
    w != [] && forall i :: 0 <= i < |w| ==> !IsSpace(w[i])
  }

  /** Splitting a space-joined list of words gives the words back. */
  lemma {:induction false} WordsOfJoin(ws: seq<string>)
    requires forall k :: 0 <= k < |ws| ==> IsWord(ws[k])
    ensures Words(Join(" ", ws)) == ws
  {
    if |ws| == 1 {
      WordsOfWord(ws[0], []);
      assert ws[0] + [] == ws[0];
    } else if |ws| > 1 {
      var rest := Join(" ", ws[1..]);
      calc {
        Words(Join(" ", ws));
        { assert Join(" ", ws) == ws[0] + (" " + rest); }
        Words(ws[0] + (" " + rest));
        { WordsOfWord(ws[0], " " + rest); }
        [ws[0]] + Words(" " + rest);
        { WordsSkipSpace(rest); }
        [ws[0]] + Words(rest);
        { WordsOfJoin(ws[1..]); }
        [ws[0]] + ws[1..];
      }
      assert [ws[0]] + ws[1..] == ws;
    }
  }

  /** A word followed by nothing or by whitespace is split off whole. */
  lemma WordsOfWord(w: string, tail: string)
    requires IsWord(w)
    requires tail == [] || IsSpace(tail[0])
    ensures Words(w + tail) == [w] + Words(tail)
  {
    WordEndOf(w, tail);
    var s := w + tail;
    assert s[..|w|] == w;
    assert s[|w|..] == tail;
  }

  lemma WordsSkipSpace(x: string)
    ensures Words(" " + x) == Words(x)
  {
    assert (" " + x)[1..] == x;
    assert LStrip(" " + x) == LStrip(x);
  }

  lemma {:induction false} WordEndOf(w: string, tail: string)
    requires IsWord(w)
    requires tail == [] || IsSpace(tail[0])
    ensures WordEnd(w + tail) == |w|
    ensures LStrip(w + tail) == w + tail
    decreases |w|
  {
    assert !IsSpace(w[0]);
    if |w| > 1 {
      assert (w + tail)[1..] == w[1..] + tail;
      WordEndOf(w[1..], tail);
    } else {
      assert (w + tail)[1..] == tail;
    }
  }

  /** The index of the first line boundary, or |s| when there is none. */
  function BreakAt(s: string): (b: nat)
    ensures b <= |s|
    ensures forall i :: 0 <= i < b ==> !IsLineBreak(s[i])
    ensures b < |s| ==> IsLineBreak(s[b])
  {
    if s == [] || IsLineBreak(s[0]) then 0 else 1 + BreakAt(s[1..])
  }

  /** `s.splitlines()`: lines without their terminators, a "\r\n" pair
      counting as one terminator, and no empty line after a final one. */
  function SplitLines(s: string): (ls: seq<string>)
    ensures forall k :: 0 <= k < |ls| ==> NoLineBreak(ls[k])
    decreases |s|
  {
    if s == [] then []
    else
      var b := BreakAt(s);
      if b == |s| then [s]
      else
        var skip := if s[b] == '\r' && b + 1 < |s| && s[b + 1] == '\n' then 2 else 1;
        [s[..b]] + SplitLines(s[b + skip..])
  }

  /** Lines joined with "\n" split back into the same lines, as long as
      the last one is not empty. */
  lemma {:induction false} SplitLinesOfJoin(ls: seq<string>)
    requires forall k :: 0 <= k < |ls| ==> NoLineBreak(ls[k])
    requires ls != [] ==> ls[|ls| - 1] != []
    ensures SplitLines(Join("\n", ls)) == ls
  {
    if |ls| == 1 {
      BreakAtNone(ls[0], []);
      assert ls[0] + [] == ls[0];
    } else if |ls| > 1 {
      var rest := Join("\n", ls[1..]);
      calc {
        SplitLines(Join("\n", ls));
        { assert Join("\n", ls) == ls[0] + ("\n" + rest); }
        SplitLines(ls[0] + ("\n" + rest));
        { SplitLinesOfLine(ls[0], rest); }
        [ls[0]] + SplitLines(rest);
        { SplitLinesOfJoin(ls[1..]); }
        [ls[0]] + ls[1..];
      }
      assert [ls[0]] + ls[1..] == ls;
    }
  }

  /** A line followed by "\n" is split off whole. */
  lemma SplitLinesOfLine(l: string, rest: string)
    requires NoLineBreak(l)
    ensures SplitLines(l + ("\n" + rest)) == [l] + SplitLines(rest)
  {
    var s := l + ("\n" + rest);
    BreakAtNone(l, "\n" + rest);
    assert s[|l|] == '\n';
    assert s[..|l|] == l;
    assert s[|l| + 1..] == rest;
  }

  lemma {:induction false} BreakAtNone(l: string, tail: string)
    requires NoLineBreak(l)
    requires tail == [] || IsLineBreak(tail[0])
    ensures BreakAt(l + tail) == |l|
    decreases |l|
  {
    if l != [] {
      assert (l + tail)[1..] == l[1..] + tail;
      BreakAtNone(l[1..], tail);
    } else {
      assert l + tail == tail;
    }
  }

  /** `s.replace(a, b)` for single characters. */
  function ReplaceChar(s: string, a: char, b: char): (r: string)
    ensures |r| == |s|
    ensures forall i :: 0 <= i < |s| ==> r[i] == (if s[i] == a then b else s[i])
  {
    seq(|s|, i requires 0 <= i < |s| => if s[i] == a then b else s[i])
  }

  /** Splitting at "\n" and joining with "\n" gives the text back when
      "\n" is its only line boundary and it does not end with one. */
  lemma {:induction false} JoinOfSplitLines(s: string)
    requires forall i :: 0 <= i < |s| && IsLineBreak(s[i]) ==> s[i] == '\n'
    requires s == [] || s[|s| - 1] != '\n'
    ensures Join("\n", SplitLines(s)) == s
    decreases |s|
  {
    if s != [] {
      var b := BreakAt(s);
      if b < |s| {
        var line, rest := s[..b], s[b + 1..];
        assert s[b] == '\n';
        assert NoLineBreak(line);
        NewlinesOnlyTail(s, b + 1);
        SplitAround(s, b);
        SplitLinesOfLine(line, rest);
        SplitLinesNonEmpty(rest);
        JoinOfSplitLines(rest);
        JoinLineRest(s, line, SplitLines(rest), rest);
      }
    }
  }

  lemma SplitLinesNonEmpty(t: string)
    requires t != []
    ensures SplitLines(t) != []
  {
  }

  lemma SplitAround(s: string, b: nat)
    requires b < |s| && s[b] == '\n'
    ensures s == s[..b] + ("\n" + s[b + 1..])
  {
  }

  lemma JoinLineRest(s: string, x: string, ls: seq<string>, rest: string)
    requires ls != [] && Join("\n", ls) == rest && s == x + ("\n" + rest)
    ensures Join("\n", [x] + ls) == s
  {
    JoinCons("\n", x, ls);
  }

  /** A suffix of a text whose only line boundary is "\n" has the same
      property. */
  lemma NewlinesOnlyTail(s: string, j: nat)
    requires j <= |s|
    requires forall i :: 0 <= i < |s| && IsLineBreak(s[i]) ==> s[i] == '\n'
    ensures forall i :: 0 <= i < |s[j..]| && IsLineBreak(s[j..][i]) ==> s[j..][i] == '\n'
  {
    forall i | 0 <= i < |s[j..]| && IsLineBreak(s[j..][i])
      ensures s[j..][i] == '\n'
    {
      assert s[j..][i] == s[j + i];
    }
  }

  lemma JoinCons(sep: string, x: string, ys: seq<string>)
    requires ys != []
    ensures Join(sep, [x] + ys) == x + sep + Join(sep, ys)
  {
    assert ([x] + ys)[1..] == ys;
  }

  /** A text with no whitespace at either end is its own trim. */
  lemma LStripSpaceHead(s: string)
    requires s != [] && IsSpace(s[0])
    ensures LStrip(s) == LStrip(s[1..])
  {
  }

  lemma RStripSpaceLast(s: string)
    requires s != [] && IsSpace(s[|s| - 1])
    ensures RStrip(s) == RStrip(s[..|s| - 1])
  {
  }

  lemma LStripNoSpace(s: string)
    requires s == [] || !IsSpace(s[0])
    ensures LStrip(s) == s
  {
  }

  lemma RStripNoSpace(s: string)
    requires s == [] || !IsSpace(s[|s| - 1])
    ensures RStrip(s) == s
  {
  }

  lemma StripNoSpace(s: string)
    requires s == [] || (!IsSpace(s[0]) && !IsSpace(s[|s| - 1]))
    ensures Strip(s) == s
  {
  }

  // ---------------------------------------------------------------------
  // Code-point order

  /** `a <= b` on Python strings: code-point order, a prefix first. */
  predicate LexLe(a: string, b: string)
    decreases |a|
  {
    a == [] || (b != [] && (a[0] < b[0] || (a[0] == b[0] && LexLe(a[1..], b[1..]))))
  }

  lemma {:induction false} LexTotal(a: string, b: string)
    ensures LexLe(a, b) || LexLe(b, a)
    decreases |a|
  {
    if a != [] && b != [] && a[0] == b[0] {
      LexTotal(a[1..], b[1..]);
    }
  }

  lemma {:induction false} LexAntisym(a: string, b: string)
    requires LexLe(a, b) && LexLe(b, a)
    ensures a == b
    decreases |a|
  {
    if a != [] {
      LexAntisym(a[1..], b[1..]);
      assert a == [a[0]] + a[1..] && b == [b[0]] + b[1..];
    }
  }

  lemma {:induction false} LexTrans(a: string, b: string, c: string)
    requires LexLe(a, b) && LexLe(b, c)
    ensures LexLe(a, c)
    decreases |a|
  {
    if a != [] && a[0] == b[0] && b[0] == c[0] {
      LexTrans(a[1..], b[1..], c[1..]);
    }
  }

  /** `k` is the least string of `s`. */
  predicate IsLeast(k: string, s: set<string>)
  {
    k in s && forall j :: j in s ==> LexLe(k, j)
  }

  /** A finite non-empty set of strings has a least element. */
  lemma {:induction false} LeastExists(s: set<string>)
    requires s != {}
    ensures exists k :: IsLeast(k, s)
    decreases |s|
  {
    var x :| x in s;
    var r := s - {x};
    assert s == r + {x};
    if r == {} {
      LeastLow(x, x, {});
    } else {
      LeastExists(r);
      var m :| IsLeast(m, r);
      LexTotal(x, m);
      if LexLe(x, m) {
        LeastLow(x, m, r);
      } else {
        LeastHigh(x, m, r);
      }
    }
  }

  lemma LeastLow(x: string, m: string, r: set<string>)
    requires r == {} || (IsLeast(m, r) && LexLe(x, m))
    ensures IsLeast(x, r + {x})
  {
    forall j | j in r + {x}
      ensures LexLe(x, j)
    {
      if j == x {
        LexTotal(x, x);
      } else {
        LexTrans(x, m, j);
      }
    }
  }

  lemma LeastHigh(x: string, m: string, r: set<string>)
    requires IsLeast(m, r) && LexLe(m, x)
    ensures IsLeast(m, r + {x})
  {
  }

  /** The least string of a set is unique. */
  lemma LeastUnique(s: set<string>)
    ensures forall a, b :: IsLeast(a, s) && IsLeast(b, s) ==> a == b
  {
    forall a, b | IsLeast(a, s) && IsLeast(b, s)
      ensures a == b
    {
      LexAntisym(a, b);
    }
  }

  /** The least string of a non-empty set. */
  function Least(s: set<string>): (k: string)
    requires s != {}
    ensures IsLeast(k, s)
  {
    LeastExists(s);
    LeastUnique(s);
    var k :| IsLeast(k, s);
    k
  }

  /** Each string comes strictly before every later one. */
  predicate StrictlySorted(ks: seq<string>)
  {
    forall i, j :: 0 <= i < j < |ks| ==> LexLe(ks[i], ks[j]) && ks[i] != ks[j]
  }

  lemma ConsSorted(k: string, rest: seq<string>, r: set<string>)
    requires StrictlySorted(rest) && (forall x :: x in rest <==> x in r)
    requires k !in r && forall j :: j in r ==> LexLe(k, j)
    ensures StrictlySorted([k] + rest)
  {
    var ks := [k] + rest;
    forall i, j | 0 <= i < j < |ks|
      ensures LexLe(ks[i], ks[j]) && ks[i] != ks[j]
    {
      assert ks[j] == rest[j - 1];
      if i > 0 {
        assert ks[i] == rest[i - 1];
      } else {
        assert rest[j - 1] in r;
      }
    }
  }

  /** The strings of a finite set in code-point order, each once. */
  function SortedStrings(s: set<string>): (ks: seq<string>)
    ensures |ks| == |s|
    ensures forall k :: k in ks <==> k in s
    ensures StrictlySorted(ks)
    decreases |s|
  {
    if s == {} then []
    else
      var k := Least(s);
      var rest := SortedStrings(s - {k});
      ConsSorted(k, rest, s - {k});
      [k] + rest
  }
}
