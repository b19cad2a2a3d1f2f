/** `highlight_toxicity` (utils.py, and the identical src/utils.py): six
    case-insensitive patterns, applied one after the other with `re.sub`,
    each wrapping what it matches, unchanged, in a coloured bold span. */
module Highlight {
  import opened Wrappers
  import opened PyStr
  import opened Rewrite

  const Red := "#b30000"
  const Orange := "#e67300"

  /** The opening tag of a highlight span (written in short pieces, which
      keeps reasoning about its characters cheap). */
  function OpenTag(color: string): string
  {
    "<span st" + "yle=\"col" + "or:" + color + "; font" + "-weight:" + "bold;\">"
  }

  const Close := "</span>"

  /** A pattern `(?i)a1|a2|...` followed by an optional group `(opt)?`
      (`opt` is empty when there is none), and the colour of its span. */
  datatype Rule = Rule(alts: seq<string>, opt: string, color: string)

  const Danger := Rule(["danger"], "ous", Red)
  const Toxic := Rule(["toxic"], "ity", Red)
  const Poison := Rule(["poison"], "ous", Red)
  const Allergic := Rule(["allergic"], "", Orange)
  const Anaphylaxis := Rule(["anaphylaxis"], "", Orange)
  const Irritation := Rule(["rash", "blister", "itch"], "", Orange)

  /** The patterns, in the order they are applied. */
  const Rules: seq<Rule> := [Danger, Toxic, Poison, Allergic, Anaphylaxis, Irritation]

  /** The first three letters of every alternative: `dan`, `tox`, `poi`,
      `all`, `ana`, `ras`, `bli` and `itc`. */
  predicate Trigram(x: char, y: char, z: char)
  {
    (x == 'd' && y == 'a' && z == 'n') || (x == 't' && y == 'o' && z == 'x')
    || (x == 'p' && y == 'o' && z == 'i') || (x == 'a' && y == 'l' && z == 'l')
    || (x == 'a' && y == 'n' && z == 'a') || (x == 'r' && y == 'a' && z == 's')
    || (x == 'b' && y == 'l' && z == 'i') || (x == 'i' && y == 't' && z == 'c')
  }

  /** A pattern of the shape above: its words hold no `<`, and every
      alternative has at least three characters and starts with a
      `Trigram`. */
  predicate WellFormed(r: Rule)
  {
    r.alts != [] && '<' !in r.opt
    && forall a :: a in r.alts ==> |a| >= 3 && '<' !in a && Trigram(a[0], a[1], a[2])
  }

  // ---------------------------------------------------------------------
  // One pattern

  /** `s` starts with the lower-case word `w`, ignoring ASCII case. */
  predicate IStartsWith(s: string, w: string)
  {
    |w| <= |s| && Lower(s[..|w|]) == w
  }

  /** The alternation: the first alternative that matches at the start of
      `s`. */
  function FirstAlt(alts: seq<string>, s: string): (k: Option<nat>)
    ensures k.Some? ==> k.value < |alts| && IStartsWith(s, alts[k.value])
    ensures k.Some? ==> forall j :: 0 <= j < k.value ==> !IStartsWith(s, alts[j])
    ensures k.None? <==> forall j :: 0 <= j < |alts| ==> !IStartsWith(s, alts[j])
  {
    if alts == [] then None
    else if IStartsWith(s, alts[0]) then Some(0)
    else
      match FirstAlt(alts[1..], s)
      case None => None
      case Some(k) => Some(k + 1)
  }

  /** The length of the match of `r` at the start of `s`: the first
      matching alternative, extended by the optional group whenever it
      follows (the `?` is greedy). */
  function MatchLen(r: Rule, s: string): (n: Option<nat>)
    ensures n.Some? ==> n.value <= |s|
    ensures n.None? <==> forall j :: 0 <= j < |r.alts| ==> !IStartsWith(s, r.alts[j])
    ensures n.Some? ==> var a := r.alts[FirstAlt(r.alts, s).value];
      n.value == (if IStartsWith(s[|a|..], r.opt) then |a| + |r.opt| else |a|)
  {
    match FirstAlt(r.alts, s)
    case None => None
    case Some(k) =>
      var base := |r.alts[k]|;
      if IStartsWith(s[base..], r.opt) then Some(base + |r.opt|) else Some(base)
  }

  /** `re.sub(pattern, span, ...)` at one position: the matched text,
      verbatim, between the opening tag and `</span>`. */
  function RuleHit(r: Rule, s: string): (h: Option<Hit>)
    requires WellFormed(r)
    ensures h.Some? <==> exists j :: 0 <= j < |r.alts| && IStartsWith(s, r.alts[j])
    ensures h.Some? ==> Usable(h, s) && h.value.len == MatchLen(r, s).value
    ensures h.Some? ==> h.value.repl == OpenTag(r.color) + s[..h.value.len] + Close
  {
    match MatchLen(r, s)
    case None => None
    case Some(n) =>
      var a := r.alts[FirstAlt(r.alts, s).value];
      assert a in r.alts;
      Some(Hit(n, OpenTag(r.color) + s[..n] + Close))
  }

  function Matcher(r: Rule): string -> Option<Hit>
    requires WellFormed(r)
  {
    s => RuleHit(r, s)
  }

  // ---------------------------------------------------------------------
  // The loop

  /** The patterns `rs` applied in order. */
  function ApplyRules(rs: seq<Rule>, text: string): string
    requires forall k :: 0 <= k < |rs| ==> WellFormed(rs[k])
  {
    if rs == [] then text else ApplyRules(rs[1..], SubAll(Matcher(rs[0]), text))
  }

  lemma RulesWellFormed()
    ensures forall k :: 0 <= k < |Rules| ==> WellFormed(Rules[k]) && (Rules[k].color == Red || Rules[k].color == Orange)
  {
    RedRulesWellFormed();
    OrangeRulesWellFormed();
    forall k | 0 <= k < |Rules| ensures WellFormed(Rules[k]) && (Rules[k].color == Red || Rules[k].color == Orange) {
      Cases8(k, 0);
    }
  }

  lemma RedRulesWellFormed()
    ensures WellFormed(Danger) && WellFormed(Toxic) && WellFormed(Poison)
  {
    DangerWellFormed();
    ToxicWellFormed();
    PoisonWellFormed();
  }

  lemma OrangeRulesWellFormed()
    ensures WellFormed(Allergic) && WellFormed(Anaphylaxis) && WellFormed(Irritation)
  {
    AllergicWellFormed();
    AnaphylaxisWellFormed();
    IrritationWellFormed();
  }

  lemma DangerWellFormed()
    ensures WellFormed(Danger)
  {
    WordWellFormed("danger", "ous", Red);
  }

  lemma ToxicWellFormed()
    ensures WellFormed(Toxic)
  {
    WordWellFormed("toxic", "ity", Red);
  }

  lemma PoisonWellFormed()
    ensures WellFormed(Poison)
  {
    WordWellFormed("poison", "ous", Red);
  }

  lemma AllergicWellFormed()
    ensures WellFormed(Allergic)
  {
    WordWellFormed("allergic", "", Orange);
  }

  lemma AnaphylaxisWellFormed()
    ensures WellFormed(Anaphylaxis)
  {
    WordWellFormed("anaphylaxis", "", Orange);
  }

  /** A letter is not `<`. */
  predicate Letters(w: string)
  {
    forall i :: 0 <= i < |w| ==> 'a' <= w[i] <= 'z'
  }

  /** A one-word pattern is well formed when its word and its optional
      group are lower-case letters and the word starts with a trigram. */
  lemma WordWellFormed(w: string, opt: string, color: string)
    requires |w| >= 3 && Trigram(w[0], w[1], w[2]) && Letters(w) && Letters(opt)
    ensures WellFormed(Rule([w], opt, color))
  {
    assert '<' !in w && '<' !in opt;
  }

  function Highlighted(text: string): string
  {
    RulesWellFormed();
    ApplyRules(Rules, text)
  }

  /** The `for pattern, repl in highlight_words` loop, rebinding `text`
      after each substitution. */
  method ApplyInOrder(rs: seq<Rule>, text: string) returns (r: string)
    requires forall k :: 0 <= k < |rs| ==> WellFormed(rs[k])
    ensures r == ApplyRules(rs, text)
  {
    r := text;
    for i := 0 to |rs|
      invariant ApplyRules(rs[i..], r) == ApplyRules(rs, text)
    {
      assert rs[i..][0] == rs[i] && rs[i..][1..] == rs[i + 1..];
      r := SubAll(Matcher(rs[i]), r);
    }
    assert rs[|rs|..] == [];
  }

  /** `highlight_toxicity(text)`. */
  method HighlightToxicity(text: string) returns (r: string)
    ensures r == Highlighted(text)
  {
    RulesWellFormed();
    r := ApplyInOrder(Rules, text);
  }

  // ---------------------------------------------------------------------
  // Text without keywords

  /** No alternative of any pattern occurs anywhere in `text`, in any
      case. */
  predicate NoKeyword(text: string)
  {
    NoKeywordOf(Rules, text)
  }

  /** No alternative of any of the patterns `rs` occurs in `text`. */
  predicate NoKeywordOf(rs: seq<Rule>, text: string)
  {
    forall i, k, a :: 0 <= i < |text| && 0 <= k < |rs| && a in rs[k].alts ==> !IStartsWith(text[i..], a)
  }

  lemma {:induction false} ApplyRulesNoKeyword(rs: seq<Rule>, text: string)
    requires forall k :: 0 <= k < |rs| ==> WellFormed(rs[k])
    requires NoKeywordOf(rs, text)
    ensures ApplyRules(rs, text) == text
  {
    if rs != [] {
      var r := rs[0];
      forall i | 0 <= i < |text| ensures !Usable(Matcher(r)(text[i..]), text[i..]) {
        forall j | 0 <= j < |r.alts| ensures !IStartsWith(text[i..], r.alts[j]) {
          assert r.alts[j] in rs[0].alts;
        }
      }
      SubAllNoMatch(Matcher(r), text);
      assert NoKeywordOf(rs[1..], text) by {
        forall i, k, a | 0 <= i < |text| && 0 <= k < |rs[1..]| && a in rs[1..][k].alts
          ensures !IStartsWith(text[i..], a)
        {
          assert rs[1..][k] == rs[k + 1];
        }
      }
      ApplyRulesNoKeyword(rs[1..], text);
    }
  }

  /** Text in which no keyword occurs, in any case, comes back unchanged. */
  lemma NoKeywordUnchanged(text: string)
    requires NoKeyword(text)
    ensures Highlighted(text) == text
  {
    RulesWellFormed();
    ApplyRulesNoKeyword(Rules, text);
  }

  // ---------------------------------------------------------------------
  // Only markup is inserted

  /** Three characters that could begin a match: their lower-case forms
      spell a `Trigram`. */
  predicate Tri(a: char, b: char, c: char)
  {
    Trigram(LowerChar(a), LowerChar(b), LowerChar(c))
  }

  /** A match of a well-formed pattern begins with a trigram. */
  lemma HitTrigram(r: Rule, x: string)
    requires WellFormed(r) && RuleHit(r, x).Some?
    ensures |x| >= 3 && Tri(x[0], x[1], x[2])
  {
    var a := r.alts[FirstAlt(r.alts, x).value];
    assert a in r.alts;
    LowerPrefix3(x, a);
  }

  /** The lower-case forms of the first three characters of a text that
      starts with `w` spell the first three letters of `w`. */
  lemma LowerPrefix3(x: string, w: string)
    requires |w| >= 3 && IStartsWith(x, w)
    ensures |x| >= 3 && LowerChar(x[0]) == w[0] && LowerChar(x[1]) == w[1] && LowerChar(x[2]) == w[2]
  {
    var l := Lower(x[..|w|]);
    assert l[0] == LowerChar(x[0]) && l[1] == LowerChar(x[1]) && l[2] == LowerChar(x[2]);
  }

  /** A tag no pattern can match into: no trigram inside, and a closing
      `>` that no trigram contains. */
  predicate Inert(t: string)
  {
    |t| >= 1 && t[|t| - 1] == '>'
    && forall i :: 0 <= i < |t| - 2 ==> !Tri(t[i], t[i + 1], t[i + 2])
  }

  lemma Cases8(i: int, b: int)
    requires b <= i < b + 8
    ensures i == b || i == b + 1 || i == b + 2 || i == b + 3 || i == b + 4 || i == b + 5 || i == b + 6 || i == b + 7
  {
  }

  /** No trigram begins at a position from `lo` up to `hi` of `t`. */
  predicate NoTriBetween(t: string, lo: int, hi: int)
  {
    forall i :: lo <= i < hi && 0 <= i < |t| - 2 ==> !Tri(t[i], t[i + 1], t[i + 2])
  }

  /** The red opening tag is inert. */
  lemma RedInert()
    ensures Inert(OpenTag(Red))
  {
    OpenTagLow(Red);
    RedHigh();
  }

  /** The orange opening tag is inert. */
  lemma OrangeInert()
    ensures Inert(OpenTag(Orange))
  {
    OpenTagLow(Orange);
    OrangeHigh();
  }

  /** The part of an opening tag before its colour. */
  lemma OpenTagLow(color: string)
    requires |color| == 7 && color[0] == '#'
    ensures NoTriBetween(OpenTag(color), 0, 16)
  {
    var t := OpenTag(color);
    forall i | 0 <= i < 16 && i < |t| - 2 ensures !Tri(t[i], t[i + 1], t[i + 2]) {
      if i < 8 { Cases8(i, 0); }
      else { Cases8(i, 8); }
    }
  }

  lemma RedHigh()
    ensures NoTriBetween(OpenTag(Red), 16, 48)
  {
    var t := OpenTag(Red);
    forall i | 16 <= i < 48 && i < |t| - 2 ensures !Tri(t[i], t[i + 1], t[i + 2]) {
      if i < 24 { Cases8(i, 16); }
      else if i < 32 { Cases8(i, 24); }
      else if i < 40 { Cases8(i, 32); }
      else { Cases8(i, 40); }
    }
  }

  lemma OrangeHigh()
    ensures NoTriBetween(OpenTag(Orange), 16, 48)
  {
    var t := OpenTag(Orange);
    forall i | 16 <= i < 48 && i < |t| - 2 ensures !Tri(t[i], t[i + 1], t[i + 2]) {
      if i < 24 { Cases8(i, 16); }
      else if i < 32 { Cases8(i, 24); }
      else if i < 40 { Cases8(i, 32); }
      else { Cases8(i, 40); }
    }
  }

  /** The closing tag is inert. */
  lemma CloseInert()
    ensures Inert(Close)
  {
    forall i | 0 <= i < |Close| - 2 ensures !Tri(Close[i], Close[i + 1], Close[i + 2]) {
      Cases8(i, 0);
    }
  }

  /** No trigram contains `>`. */
  lemma TriNoClose(a: char, b: char, c: char)
    requires a == '>' || b == '>' || c == '>'
    ensures !Tri(a, b, c)
  {
    assert LowerChar('>') == '>';
  }

  /** No pattern matches at a position inside an inert tag, whatever
      follows the tag. */
  lemma InsideInert(r: Rule, t: string, rest: string, i: nat)
    requires WellFormed(r) && Inert(t) && i < |t|
    ensures !Usable(Matcher(r)((t + rest)[i..]), (t + rest)[i..])
  {
    var x := (t + rest)[i..];
    if |x| >= 3 {
      if i + 2 < |t| {
        assert x[0] == t[i] && x[1] == t[i + 1] && x[2] == t[i + 2];
      } else {
        assert x[|t| - 1 - i] == '>';
        TriNoClose(x[0], x[1], x[2]);
      }
    }
    if RuleHit(r, x).Some? {
      HitTrigram(r, x);
    }
  }

  /** The text with the highlight tags deleted, or `None` when a `<`
      does not begin one of them. */
  function Untag(s: string): Option<string>
    decreases |s|
  {
    if s == [] then Some([])
    else if s[0] != '<' then
      match Untag(s[1..])
      case None => None
      case Some(t) => Some([s[0]] + t)
    else if StartsWith(s, OpenTag(Red)) then Untag(s[|OpenTag(Red)|..])
    else if StartsWith(s, OpenTag(Orange)) then Untag(s[|OpenTag(Orange)|..])
    else if StartsWith(s, Close) then Untag(s[|Close|..])
    else None
  }

  predicate IsTag(t: string)
  {
    t == OpenTag(Red) || t == OpenTag(Orange) || t == Close
  }

  /** A leading tag is deleted. */
  lemma UntagTag(t: string, x: string)
    requires IsTag(t)
    ensures Untag(t + x) == Untag(x)
  {
    if t == OpenTag(Red) {
      UntagRed(x);
    } else if t == OpenTag(Orange) {
      UntagOrange(x);
    } else {
      UntagClose(x);
    }
  }

  lemma UntagRed(x: string)
    ensures Untag(OpenTag(Red) + x) == Untag(x)
  {
    var t := OpenTag(Red);
    var s := t + x;
    assert s[0] == '<';
    assert s[..|t|] == t && s[|t|..] == x;
  }

  lemma UntagOrange(x: string)
    ensures Untag(OpenTag(Orange) + x) == Untag(x)
  {
    var t := OpenTag(Orange);
    var s := t + x;
    assert s[0] == '<';
    assert s[..|t|] == t && s[|t|..] == x;
    assert s[20] == 'e' && OpenTag(Red)[20] == 'b';
  }

  lemma UntagClose(x: string)
    ensures Untag(Close + x) == Untag(x)
  {
    var s := Close + x;
    assert s[0] == '<';
    assert s[..|Close|] == Close && s[|Close|..] == x;
    assert s[1] == '/' && OpenTag(Red)[1] == 's' && OpenTag(Orange)[1] == 's';
  }

  /** Text without `<` is kept as it is. */
  lemma {:induction false} UntagPlain(w: string, x: string)
    requires forall i :: 0 <= i < |w| ==> w[i] != '<'
    ensures Untag(w + x).Some? <==> Untag(x).Some?
    ensures Untag(x).Some? ==> Untag(w + x).value == w + Untag(x).value
    decreases |w|
  {
    if w != [] {
      assert (w + x)[1..] == w[1..] + x;
      UntagPlain(w[1..], x);
      if Untag(x).Some? {
        assert [w[0]] + (w[1..] + Untag(x).value) == w + Untag(x).value by {
          assert w == [w[0]] + w[1..];
        }
      }
    } else {
      assert w + x == x;
    }
  }

  /** A `<` that `Untag` accepts begins a tag. */
  lemma UntagHead(s: string) returns (t: string, rest: string)
    requires s != [] && s[0] == '<' && Untag(s).Some?
    ensures IsTag(t) && s == t + rest
  {
    if StartsWith(s, OpenTag(Red)) { t := OpenTag(Red); }
    else if StartsWith(s, OpenTag(Orange)) { t := OpenTag(Orange); }
    else { t := Close; }
    rest := s[|t|..];
    assert s == s[..|t|] + rest;
  }

  /** A matched text is made of letters, so it holds no `<`. */
  lemma MatchNoTag(r: Rule, s: string)
    requires WellFormed(r) && MatchLen(r, s).Some?
    ensures forall i :: 0 <= i < MatchLen(r, s).value ==> s[i] != '<'
  {
    var a := r.alts[FirstAlt(r.alts, s).value];
    assert a in r.alts;
    var n := MatchLen(r, s).value;
    forall i | 0 <= i < n ensures s[i] != '<' {
      if i < |a| {
        assert Lower(s[..|a|])[i] == a[i];
      } else {
        assert Lower(s[|a|..][..|r.opt|])[i - |a|] == r.opt[i - |a|];
      }
    }
  }

  /** One pattern, applied to well-tagged text, keeps it well tagged and
      inserts nothing but tags. */
  lemma {:induction false} SubAllUntag(r: Rule, s: string)
    requires WellFormed(r) && (r.color == Red || r.color == Orange)
    requires Untag(s).Some?
    ensures Untag(SubAll(Matcher(r), s)) == Untag(s)
    decreases |s|, 1
  {
    if s == [] {
    } else if s[0] == '<' {
      TagStep(r, s);
    } else if Usable(Matcher(r)(s), s) {
      HitStep(r, s);
    } else {
      CharStep(r, s);
    }
  }

  /** A tag at the scan position is copied whole: no match starts in it. */
  lemma {:induction false} TagStep(r: Rule, s: string)
    requires WellFormed(r) && (r.color == Red || r.color == Orange)
    requires Untag(s).Some? && s != [] && s[0] == '<'
    ensures Untag(SubAll(Matcher(r), s)) == Untag(s)
    decreases |s|, 0
  {
    var t, rest := UntagHead(s);
    TagSkip(r, t, rest);
    UntagTag(t, rest);
    SubAllUntag(r, rest);
    UntagTag(t, SubAll(Matcher(r), rest));
  }

  /** The scan copies a leading tag. */
  lemma TagSkip(r: Rule, t: string, rest: string)
    requires WellFormed(r) && IsTag(t)
    ensures SubAll(Matcher(r), t + rest) == t + SubAll(Matcher(r), rest)
  {
    var m := Matcher(r);
    TagInert(t);
    forall i | 0 <= i < |t| ensures !Usable(m((t + rest)[i..]), (t + rest)[i..]) {
      InsideInert(r, t, rest, i);
    }
    SubAllSkip(m, t, rest);
  }

  lemma TagInert(t: string)
    requires IsTag(t)
    ensures Inert(t)
  {
    if t == OpenTag(Red) {
      RedInert();
    } else if t == OpenTag(Orange) {
      OrangeInert();
    } else {
      CloseInert();
    }
  }

  /** A match is replaced by its text between two tags. */
  lemma {:induction false} HitStep(r: Rule, s: string)
    requires WellFormed(r) && (r.color == Red || r.color == Orange)
    requires Untag(s).Some? && s != [] && s[0] != '<' && Usable(Matcher(r)(s), s)
    ensures Untag(SubAll(Matcher(r), s)) == Untag(s)
    decreases |s|, 0
  {
    var n := MatchLen(r, s).value;
    HitUnfold(r, s);
    HitSplit(r, s);
    UntagPlain(s[..n], s[n..]);
    SubAllUntag(r, s[n..]);
    HitAlgebra(r.color, s[..n], s[n..], SubAll(Matcher(r), s[n..]));
  }

  /** The matched text and what follows it. */
  lemma HitSplit(r: Rule, s: string)
    requires WellFormed(r) && MatchLen(r, s).Some?
    ensures var n := MatchLen(r, s).value;
      s == s[..n] + s[n..] && forall i :: 0 <= i < n ==> s[..n][i] != '<'
  {
    MatchNoTag(r, s);
  }

  /** Deleting the tags around a tag-free word, followed by a text that
      untags like `rest`, untags like the word followed by `rest`. */
  lemma HitAlgebra(color: string, w: string, rest: string, y: string)
    requires color == Red || color == Orange
    requires forall i :: 0 <= i < |w| ==> w[i] != '<'
    requires Untag(rest).Some? && Untag(y) == Untag(rest)
    ensures Untag(OpenTag(color) + (w + (Close + y))) == Untag(w + rest)
  {
    assert IsTag(OpenTag(color)) && IsTag(Close);
    UntagTag(OpenTag(color), w + (Close + y));
    UntagTag(Close, y);
    UntagPlain(w, Close + y);
    UntagPlain(w, rest);
  }

  lemma HitUnfold(r: Rule, s: string)
    requires WellFormed(r) && s != [] && Usable(Matcher(r)(s), s)
    ensures var n := MatchLen(r, s).value;
      SubAll(Matcher(r), s) == OpenTag(r.color) + (s[..n] + (Close + SubAll(Matcher(r), s[n..])))
  {
    var m := Matcher(r);
    var h := RuleHit(r, s);
    assert m(s) == h;
    var n := h.value.len;
    var y := SubAll(m, s[n..]);
    assert SubAll(m, s) == h.value.repl + y;
    assert h.value.repl == OpenTag(r.color) + s[..n] + Close;
    AppendAssoc(OpenTag(r.color), s[..n], Close, y);
  }

  lemma AppendAssoc(a: string, b: string, c: string, d: string)
    ensures a + b + c + d == a + (b + (c + d))
  {
  }

  /** Any other character is copied. */
  lemma {:induction false} CharStep(r: Rule, s: string)
    requires WellFormed(r) && (r.color == Red || r.color == Orange)
    requires Untag(s).Some? && s != [] && s[0] != '<' && !Usable(Matcher(r)(s), s)
    ensures Untag(SubAll(Matcher(r), s)) == Untag(s)
    decreases |s|, 0
  {
    CharUnfold(Matcher(r), s);
    UntagPlain([s[0]], s[1..]);
    SubAllUntag(r, s[1..]);
    UntagPlain([s[0]], SubAll(Matcher(r), s[1..]));
  }

  /** A position where nothing matches copies its character. */
  lemma CharUnfold(m: string -> Option<Hit>, s: string)
    requires s != [] && !Usable(m(s), s)
    ensures s == [s[0]] + s[1..]
    ensures SubAll(m, s) == [s[0]] + SubAll(m, s[1..])
  {
  }

  lemma {:induction false} ApplyRulesUntag(rs: seq<Rule>, s: string)
    requires forall k :: 0 <= k < |rs| ==> WellFormed(rs[k]) && (rs[k].color == Red || rs[k].color == Orange)
    requires Untag(s).Some?
    ensures Untag(ApplyRules(rs, s)) == Untag(s)
  {
    if rs != [] {
      SubAllUntag(rs[0], s);
      ApplyRulesUntag(rs[1..], SubAll(Matcher(rs[0]), s));
    }
  }

  /** Deleting the inserted span tags from the highlighted text gives the
      input back: only markup is inserted, and no pattern matches inside
      a tag inserted before it. */
  lemma OnlyMarkupInserted(text: string)
    requires forall i :: 0 <= i < |text| ==> text[i] != '<'
    ensures Untag(Highlighted(text)) == Some(text)
  {
    RulesWellFormed();
    UntagPlain(text, []);
    assert text + [] == text;
    ApplyRulesUntag(Rules, text);
  }

  // ---------------------------------------------------------------------
  // Examples

  lemma DangerPrefix(rest: string)
    ensures IStartsWith("Dangerous" + rest, "danger")
  {
    assert ("Dangerous" + rest)[..6] == "Danger";
    forall i | 0 <= i < 6 ensures Lower("Danger")[i] == "danger"[i] {
      Cases8(i, 0);
    }
  }

  lemma OusSuffix(rest: string)
    ensures IStartsWith(("Dangerous" + rest)[6..], "ous")
  {
    assert ("Dangerous" + rest)[6..][..3] == "ous";
    forall i | 0 <= i < 3 ensures Lower("ous")[i] == "ous"[i] {
      Cases8(i, 0);
    }
  }

  /** The optional group is taken whenever it follows: `Dangerous` is
      wrapped whole, in red, with its casing. */
  lemma GreedySuffix(rest: string)
    ensures WellFormed(Danger)
    ensures RuleHit(Danger, "Dangerous" + rest) == Some(Hit(9, OpenTag(Red) + "Dangerous" + Close))
  {
    RedRulesWellFormed();
    DangerPrefix(rest);
    OusSuffix(rest);
    assert MatchLen(Danger, "Dangerous" + rest) == Some(9);
    assert ("Dangerous" + rest)[..9] == "Dangerous";
    RuleHitOf(Danger, "Dangerous" + rest, 9, "Dangerous");
  }

  /** A text whose first letter differs from the first letter of `w`
      does not start with `w`. */
  lemma HeadDiffers(s: string, w: string)
    requires s != [] && w != [] && LowerChar(s[0]) != w[0]
    ensures !IStartsWith(s, w)
  {
    if |w| <= |s| {
      assert Lower(s[..|w|])[0] == LowerChar(s[0]);
    }
  }

  lemma IrritationWellFormed()
    ensures WellFormed(Irritation)
  {
    forall a | a in Irritation.alts ensures |a| >= 3 && '<' !in a && Trigram(a[0], a[1], a[2]) {
      assert a == "rash" || a == "blister" || a == "itch";
    }
  }

  lemma NoIrritationAt(s: string)
    requires s != [] && LowerChar(s[0]) != 'r' && LowerChar(s[0]) != 'b' && LowerChar(s[0]) != 'i'
    ensures WellFormed(Irritation) && RuleHit(Irritation, s).None?
  {
    IrritationWellFormed();
    HeadDiffers(s, "rash");
    HeadDiffers(s, "blister");
    HeadDiffers(s, "itch");
    NoAltOf3(Irritation, s);
  }

  /** A pattern with three alternatives, none of which starts the text,
      does not match it. */
  lemma NoAltOf3(r: Rule, s: string)
    requires WellFormed(r) && |r.alts| == 3
    requires !IStartsWith(s, r.alts[0]) && !IStartsWith(s, r.alts[1]) && !IStartsWith(s, r.alts[2])
    ensures RuleHit(r, s).None?
  {
    forall j | 0 <= j < |r.alts| ensures !IStartsWith(s, r.alts[j]) {
      Cases8(j, 0);
    }
  }

  /** A pattern that matches `n` characters wraps them in its span. */
  lemma RuleHitOf(r: Rule, s: string, n: nat, w: string)
    requires WellFormed(r) && MatchLen(r, s) == Some(n) && n <= |s| && s[..n] == w
    ensures RuleHit(r, s) == Some(Hit(n, OpenTag(r.color) + w + Close))
  {
  }

  lemma ItchFirst()
    ensures FirstAlt(Irritation.alts, "itchen") == Some(2)
  {
    var s := "itchen";
    HeadDiffers(s, "rash");
    HeadDiffers(s, "blister");
    assert s[..4] == "itch";
    forall i | 0 <= i < 4 ensures Lower("itch")[i] == "itch"[i] {
      Cases8(i, 0);
    }
    assert IStartsWith(s, "itch");
    assert Irritation.alts == ["rash", "blister", "itch"];
  }

  lemma ItchLen()
    ensures MatchLen(Irritation, "itchen") == Some(4)
  {
    ItchFirst();
    assert IStartsWith("itchen"[4..], "");
  }

  lemma ItchHit()
    ensures WellFormed(Irritation)
    ensures RuleHit(Irritation, "itchen") == Some(Hit(4, OpenTag(Orange) + "itch" + Close))
  {
    IrritationWellFormed();
    ItchLen();
    ItchWord();
    RuleHitOf(Irritation, "itchen", 4, "itch");
  }

  lemma ItchWord()
    ensures "itchen"[..4] == "itch"
  {
  }

  /** The scan of `kitchen` for a matcher that fires only at `itchen`. */
  lemma KitchenScan(m: string -> Option<Hit>, repl: string)
    requires m("kitchen").None? && m("itchen") == Some(Hit(4, repl))
    requires m("en").None? && m("n").None?
    ensures SubAll(m, "kitchen") == "k" + repl + "en"
  {
    assert "en"[1..] == "n" && "n"[1..] == [];
    assert SubAll(m, "en") == "en";
    assert "kitchen"[1..] == "itchen" && "itchen"[4..] == "en";
  }

  /** There are no word boundaries: `itch` inside `kitchen` is wrapped. */
  lemma NoWordBoundary()
    ensures WellFormed(Irritation)
    ensures SubAll(Matcher(Irritation), "kitchen") == "k" + (OpenTag(Orange) + "itch" + Close) + "en"
  {
    NoIrritationAt("kitchen");
    NoIrritationAt("en");
    NoIrritationAt("n");
    ItchHit();
    KitchenScan(Matcher(Irritation), OpenTag(Orange) + "itch" + Close);
  }
}
