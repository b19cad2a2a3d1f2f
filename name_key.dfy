/** `normalize_name`, the forest-name join key, in its two copies
    (invasive_utils.py and src/invasive_utils.py). The steps are: delete
    the park emoji, strip, lowercase, delete every character outside
    `[a-z0-9 ]`, and collapse whitespace runs to one space. */
module NameKey {
  import opened Wrappers
  import opened PyStr
  import opened Json

  /** The park emoji U+1F3DE followed by variation selector U+FE0F, as
      invasive_utils.py writes it. */
  const RootEmoji: seq<int> := [0x1F3DE, 0xFE0F]

  /** The same emoji as src/invasive_utils.py writes it: a surrogate pair
      spelled as two separate escapes, which Python keeps as two lone
      surrogate code points. */
  const SrcEmoji: seq<int> := [0xD83C, 0xDFDE, 0xFE0F]

  /** The park emoji as it appears in decoded text. */
  const Emoji: string := ['\U{1F3DE}', '\U{FE0F}']

  /** The code points of `p` start `s`. */
  predicate CodesAt(s: string, p: seq<int>)
  {
    |p| <= |s| && forall i :: 0 <= i < |p| ==> s[i] as int == p[i]
  }

  /** `s.replace(p, '')`: occurrences of `p` deleted left to right. */
  function DeleteAll(s: string, p: seq<int>): (r: string)
    requires p != []
    ensures |r| <= |s|
    decreases |s|
  {
    if s == [] then []
    else if CodesAt(s, p) then DeleteAll(s[|p|..], p)
    else [s[0]] + DeleteAll(s[1..], p)
  }

  /** The characters `[a-z0-9 ]` that survive the key. */
  predicate Allowed(c: char)
  {
    'a' <= c <= 'z' || '0' <= c <= '9' || c == ' '
  }

  /** `re.sub(r'[^a-z0-9 ]+', '', s)`: deleting the maximal runs of other
      characters deletes each of them. */
  function Keep(s: string): (r: string)
    ensures |r| <= |s|
    ensures forall i :: 0 <= i < |r| ==> Allowed(r[i])
  {
    if s == [] then []
    else (if Allowed(s[0]) then [s[0]] else []) + Keep(s[1..])
  }

  /** `re.sub(r'\s+', ' ', s)`. */
  function Collapse(s: string): (r: string)
    ensures (forall i :: 0 <= i < |s| ==> Allowed(s[i])) ==> forall i :: 0 <= i < |r| ==> Allowed(r[i])
    ensures forall i :: 0 <= i < |r| ==> (IsSpace(r[i]) <==> r[i] == ' ')
    ensures forall i :: 0 <= i < |r| - 1 ==> !(r[i] == ' ' && r[i + 1] == ' ')
    ensures r != [] && s != [] ==> (r[0] == ' ' <==> IsSpace(s[0]))
    ensures r == [] <==> s == []
    decreases |s|
  {
    if s == [] then []
    else if IsSpace(s[0]) then [' '] + Collapse(LStrip(s))
    else [s[0]] + Collapse(s[1..])
  }

  /** The pipeline on a string, with the emoji spelled as `p`. */
  function NormalizeStr(s: string, p: seq<int>): (r: string)
    requires p != []
    ensures forall i :: 0 <= i < |r| ==> Allowed(r[i])
    ensures forall i :: 0 <= i < |r| - 1 ==> !(r[i] == ' ' && r[i + 1] == ' ')
  {
    Collapse(Keep(Lower(Strip(DeleteAll(s, p)))))
  }

  /** `normalize_name` of invasive_utils.py: non-strings give `''`, and the
      key uses only `[a-z0-9 ]` with no two spaces in a row. */
  function NormalizeNameRoot(n: Json): (r: string)
    ensures !n.JStr? ==> r == ""
    ensures forall i :: 0 <= i < |r| ==> Allowed(r[i])
    ensures forall i :: 0 <= i < |r| - 1 ==> !(r[i] == ' ' && r[i + 1] == ' ')
  {
    if n.JStr? then NormalizeStr(n.s, RootEmoji) else ""
  }

  /** `normalize_name` of src/invasive_utils.py, with the same guarantees. */
  function NormalizeNameSrc(n: Json): (r: string)
    ensures !n.JStr? ==> r == ""
    ensures forall i :: 0 <= i < |r| ==> Allowed(r[i])
    ensures forall i :: 0 <= i < |r| - 1 ==> !(r[i] == ' ' && r[i + 1] == ' ')
  {
    if n.JStr? then NormalizeStr(n.s, SrcEmoji) else ""
  }

  // ---------------------------------------------------------------------
  // The two emoji spellings

  /** A text that starts with the emoji loses it in the root copy. */
  lemma RootDeletesEmoji(t: string)
    ensures DeleteAll(Emoji + t, RootEmoji) == DeleteAll(t, RootEmoji)
  {
    assert CodesAt(Emoji + t, RootEmoji);
    assert (Emoji + t)[2..] == t;
  }

  /** The src spelling never matches: Dafny characters are never
      surrogates, so over the names this model represents the `replace`
      of that copy changes nothing. */
  lemma {:induction false} SrcDeletesNothing(s: string)
    ensures DeleteAll(s, SrcEmoji) == s
  {
    if s != [] {
      assert !CodesAt(s, SrcEmoji) by {
        assert s[0] as int != 0xD83C;
      }
      SrcDeletesNothing(s[1..]);
      assert [s[0]] + s[1..] == s;
    }
  }

  /** `DeleteAll` leaves text alone when the pattern's first code point does
      not occur in it. */
  lemma {:induction false} DeleteAllAbsent(s: string, p: seq<int>)
    requires p != []
    requires forall i :: 0 <= i < |s| ==> s[i] as int != p[0]
    ensures DeleteAll(s, p) == s
  {
    if s != [] {
      DeleteAllAbsent(s[1..], p);
      assert [s[0]] + s[1..] == s;
    }
  }

  // ---------------------------------------------------------------------
  // Concatenation facts about the steps

  lemma {:induction false} KeepAppend(a: string, b: string)
    ensures Keep(a + b) == Keep(a) + Keep(b)
  {
    if a != [] {
      assert (a + b)[1..] == a[1..] + b;
      KeepAppend(a[1..], b);
    } else {
      assert a + b == b;
    }
  }

  /** A word over `[a-z0-9]`: what survives the key without spaces. */
  predicate IsKeyWord(w: string)
  {
    w != [] && forall i :: 0 <= i < |w| ==> ('a' <= w[i] <= 'z' || '0' <= w[i] <= '9')
  }

  /** Characters that the key deletes even after lowercasing, and that are
      neither whitespace nor the start of the emoji. */
  predicate IsPunct(c: char)
  {
    !Allowed(LowerChar(c)) && !IsSpace(c) && c as int != 0x1F3DE
  }

  predicate AllPunct(p: string)
  {
    p != [] && forall i :: 0 <= i < |p| ==> IsPunct(p[i])
  }

  lemma {:induction false} KeepKeyWord(w: string)
    requires forall i :: 0 <= i < |w| ==> Allowed(w[i])
    ensures Keep(w) == w
  {
    if w != [] {
      KeepKeyWord(w[1..]);
      assert [w[0]] + w[1..] == w;
    }
  }

  lemma {:induction false} KeepPunct(p: string)
    requires forall i :: 0 <= i < |p| ==> !Allowed(p[i])
    ensures Keep(p) == []
  {
    if p != [] {
      KeepPunct(p[1..]);
    }
  }

  /** Text without whitespace goes through `Collapse` unchanged, and so
      does anything after it. */
  lemma {:induction false} CollapseWordPrefix(w: string, t: string)
    requires forall i :: 0 <= i < |w| ==> !IsSpace(w[i])
    ensures Collapse(w + t) == w + Collapse(t)
  {
    if w != [] {
      assert (w + t)[1..] == w[1..] + t;
      CollapseWordPrefix(w[1..], t);
    } else {
      assert w + t == t;
    }
  }

  lemma LowerKeyWord(w: string)
    requires IsKeyWord(w)
    ensures Lower(w) == w
  {
  }

  lemma LowerAppend3(a: string, b: string, c: string)
    ensures Lower(a + b + c) == Lower(a) + Lower(b) + Lower(c)
  {
  }

  lemma StripWhole(s: string)
    requires s != [] && !IsSpace(s[0]) && !IsSpace(s[|s| - 1])
    ensures Strip(s) == s
  {
  }

  lemma LowerPunct(p: string)
    requires AllPunct(p)
    ensures forall i :: 0 <= i < |Lower(p)| ==> !Allowed(Lower(p)[i])
  {
  }

  // ---------------------------------------------------------------------
  // Behaviour of the key

  lemma LowerAround(a: string, p: string, b: string)
    requires IsKeyWord(a) && IsKeyWord(b)
    ensures Lower(a + p + b) == a + Lower(p) + b
  {
    LowerAppend3(a, p, b);
    LowerKeyWord(a);
    LowerKeyWord(b);
  }

  /** Keeping the allowed characters of a mixed text. */
  lemma KeepAround(a: string, p: string, b: string)
    requires forall i :: 0 <= i < |a| ==> Allowed(a[i])
    requires forall i :: 0 <= i < |p| ==> !Allowed(p[i])
    requires forall i :: 0 <= i < |b| ==> Allowed(b[i])
    ensures Keep(a + p + b) == a + b
  {
    KeepAppend(a + p, b);
    KeepAppend(a, p);
    KeepKeyWord(a);
    KeepKeyWord(b);
    KeepPunct(p);
    assert a + [] == a;
  }

  lemma CollapseKeyWord(w: string)
    requires forall i :: 0 <= i < |w| ==> !IsSpace(w[i])
    ensures Collapse(w) == w
  {
    assert w + [] == w;
    CollapseWordPrefix(w, []);
  }

  /** Punctuation between two words is deleted without leaving a space, so
      the words are glued together ("National-Forest" gives
      "nationalforest"). Both copies behave alike here. */
  lemma PunctuationJoins(a: string, p: string, b: string)
    requires IsKeyWord(a) && AllPunct(p) && IsKeyWord(b)
    ensures NormalizeNameRoot(JStr(a + p + b)) == a + b
    ensures NormalizeNameSrc(JStr(a + p + b)) == a + b
  {
    var s := a + p + b;
    DeleteAllAbsent(s, RootEmoji);
    SrcDeletesNothing(s);
    PunctuationJoinsAfterDelete(a, p, b);
  }

  lemma StripAround(a: string, p: string, b: string)
    requires IsKeyWord(a) && IsKeyWord(b)
    ensures Strip(a + p + b) == a + p + b
  {
    var s := a + p + b;
    assert s[0] == a[0];
    assert s[|s| - 1] == b[|b| - 1];
    StripWhole(s);
  }

  lemma PunctuationJoinsAfterDelete(a: string, p: string, b: string)
    requires IsKeyWord(a) && AllPunct(p) && IsKeyWord(b)
    ensures Collapse(Keep(Lower(Strip(a + p + b)))) == a + b
  {
    calc {
      Collapse(Keep(Lower(Strip(a + p + b))));
      { StripAround(a, p, b); }
      Collapse(Keep(Lower(a + p + b)));
      { LowerAround(a, p, b); }
      Collapse(Keep(a + Lower(p) + b));
      { LowerPunct(p); KeepAround(a, Lower(p), b); }
      Collapse(a + b);
      { CollapseKeyWord(a + b); }
      a + b;
    }
  }

  /** Trimming happens before punctuation is deleted, so a space in front
      of trailing punctuation stays in the key. */
  lemma TrailingSpaceKept(a: string, p: string)
    requires IsKeyWord(a) && AllPunct(p)
    ensures NormalizeNameRoot(JStr(a + " " + p)) == a + " "
    ensures NormalizeNameSrc(JStr(a + " " + p)) == a + " "
  {
    var s := a + " " + p;
    DeleteAllAbsent(s, RootEmoji);
    SrcDeletesNothing(s);
    TrailingSpaceAfterDelete(a, p);
  }

  lemma TrailingSpaceAfterDelete(a: string, p: string)
    requires IsKeyWord(a) && AllPunct(p)
    ensures Collapse(Keep(Lower(Strip(a + " " + p)))) == a + " "
  {
    TrailStrip(a, p);
    TrailLower(a, p);
    TrailKeep(a, p);
    TrailCollapse(a);
  }

  lemma TrailStrip(a: string, p: string)
    requires IsKeyWord(a) && AllPunct(p)
    ensures Strip(a + " " + p) == a + " " + p
  {
    var s := a + " " + p;
    KeyWordEnds(a);
    assert s[0] == a[0] && s[|s| - 1] == p[|p| - 1];
    assert IsPunct(p[|p| - 1]);
    StripNoSpace(s);
  }

  lemma TrailLower(a: string, p: string)
    requires IsKeyWord(a)
    ensures Lower(a + " " + p) == a + " " + Lower(p)
  {
    LowerAppend3(a, " ", p);
    LowerKeyWord(a);
    assert Lower(" ") == " ";
  }

  lemma TrailKeep(a: string, p: string)
    requires IsKeyWord(a) && AllPunct(p)
    ensures Keep(a + " " + Lower(p)) == a + " "
  {
    LowerPunct(p);
    KeepAround(a + " ", Lower(p), []);
    assert a + " " + Lower(p) + [] == a + " " + Lower(p);
    assert a + " " + [] == a + " ";
  }

  lemma TrailCollapse(a: string)
    requires IsKeyWord(a)
    ensures Collapse(a + " ") == a + " "
  {
    CollapseWordPrefix(a, " ");
    assert LStrip(" ") == [];
  }

  /** The key is not idempotent: "a !" gives "a ", whose key is "a". */
  lemma NotIdempotent()
    ensures NormalizeNameRoot(JStr("a !")) == "a "
    ensures NormalizeNameRoot(JStr("a ")) == "a"
  {
    KeyOfBang();
    KeyOfSpace();
  }

  lemma KeyOfBang()
    ensures NormalizeNameRoot(JStr("a !")) == "a "
  {
    BangPunct();
    assert "a !" == "a" + " " + "!";
    assert "a" + " " == "a ";
    KeyOfWordPunct("a !", "a", "!");
  }

  lemma KeyOfWordPunct(s: string, a: string, p: string)
    requires s == a + " " + p && IsKeyWord(a) && AllPunct(p)
    ensures NormalizeNameRoot(JStr(s)) == a + " "
  {
    TrailingSpaceKept(a, p);
  }

  lemma BangPunct()
    ensures IsKeyWord("a") && AllPunct("!")
  {
    assert IsPunct("!"[0]);
  }

  lemma KeyOfSpace()
    ensures NormalizeNameRoot(JStr("a ")) == "a"
  {
    assert IsKeyWord("a");
    assert "a" + " " == "a ";
    KeyOfTrailingSpace("a");
  }

  lemma KeyWordEnds(w: string)
    requires IsKeyWord(w)
    ensures !IsSpace(w[0]) && !IsSpace(w[|w| - 1])
  {
  }

  lemma StripTrailingSpace(w: string)
    requires IsKeyWord(w)
    ensures Strip(w + " ") == w
  {
    var s := w + " ";
    KeyWordEnds(w);
    assert s[0] == w[0];
    LStripNoSpace(s);
    assert IsSpace(s[|s| - 1]);
    RStripSpaceLast(s);
    assert s[..|s| - 1] == w;
    RStripNoSpace(w);
  }

  /** A word followed by one space keys to the word. */
  lemma KeyOfTrailingSpace(w: string)
    requires IsKeyWord(w)
    ensures NormalizeNameRoot(JStr(w + " ")) == w
  {
    calc {
      NormalizeNameRoot(JStr(w + " "));
      Collapse(Keep(Lower(Strip(DeleteAll(w + " ", RootEmoji)))));
      { DeleteAllAbsent(w + " ", RootEmoji); }
      Collapse(Keep(Lower(Strip(w + " "))));
      { StripTrailingSpace(w); }
      Collapse(Keep(Lower(w)));
      { LowerKeyWord(w); KeepKeyWord(w); }
      Collapse(w);
      { CollapseKeyWord(w); }
      w;
    }
  }

  lemma StripLeadingSpace(w: string)
    requires IsKeyWord(w)
    ensures Strip(" " + w) == w
  {
    var s := " " + w;
    KeyWordEnds(w);
    assert IsSpace(s[0]);
    LStripSpaceHead(s);
    assert s[1..] == w;
    LStripNoSpace(w);
    RStripNoSpace(w);
  }

  /** The root copy drops an emoji in front of a name together with the
      space after it. */
  lemma RootEmojiPrefix(w: string)
    requires IsKeyWord(w)
    ensures NormalizeNameRoot(JStr(Emoji + " " + w)) == w
  {
    calc {
      NormalizeNameRoot(JStr(Emoji + " " + w));
      Collapse(Keep(Lower(Strip(DeleteAll(Emoji + " " + w, RootEmoji)))));
      { assert Emoji + " " + w == Emoji + (" " + w); RootDeletesEmoji(" " + w); }
      Collapse(Keep(Lower(Strip(DeleteAll(" " + w, RootEmoji)))));
      { DeleteAllAbsent(" " + w, RootEmoji); }
      Collapse(Keep(Lower(Strip(" " + w))));
      { StripLeadingSpace(w); }
      Collapse(Keep(Lower(w)));
      { LowerKeyWord(w); KeepKeyWord(w); }
      Collapse(w);
      { CollapseKeyWord(w); }
      w;
    }
  }

  lemma CollapseLeadingSpace(w: string)
    requires IsKeyWord(w)
    ensures Collapse(" " + w) == " " + w
  {
    calc {
      Collapse(" " + w);
      [' '] + Collapse(LStrip(" " + w));
      { assert (" " + w)[1..] == w; }
      [' '] + Collapse(LStrip(w));
      { assert LStrip(w) == w; }
      [' '] + Collapse(w);
      { CollapseKeyWord(w); }
      " " + w;
    }
  }

  /** The src copy strips before the emoji is removed (by the character
      filter), so the space after the emoji survives as a leading space. */
  lemma SrcEmojiPrefix(w: string)
    requires IsKeyWord(w)
    ensures NormalizeNameSrc(JStr(Emoji + " " + w)) == " " + w
  {
    var s := Emoji + " " + w;
    SrcDeletesNothing(s);
    EmojiTextStrip(w);
    EmojiTextLower(w);
    EmojiTextKeep(w);
    CollapseLeadingSpace(w);
  }

  lemma EmojiTextStrip(w: string)
    requires IsKeyWord(w)
    ensures Strip(Emoji + " " + w) == Emoji + " " + w
  {
    var s := Emoji + " " + w;
    KeyWordEnds(w);
    assert s[0] == '\U{1F3DE}' && s[|s| - 1] == w[|w| - 1];
    StripNoSpace(s);
  }

  lemma EmojiTextLower(w: string)
    requires IsKeyWord(w)
    ensures Lower(Emoji + " " + w) == Emoji + " " + w
  {
    LowerAppend3(Emoji, " ", w);
    LowerKeyWord(w);
    assert Lower(Emoji) == Emoji;
    assert Lower(" ") == " ";
  }

  lemma EmojiTextKeep(w: string)
    requires IsKeyWord(w)
    ensures Keep(Emoji + " " + w) == " " + w
  {
    assert Emoji + " " + w == [] + Emoji + (" " + w);
    KeepAround([], Emoji, " " + w);
    assert [] + (" " + w) == " " + w;
  }
}
