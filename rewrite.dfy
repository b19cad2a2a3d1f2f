/** Python's `re.sub(pattern, repl, s)` for patterns that never match the
    empty string: the text is scanned left to right, the leftmost match is
    replaced, and scanning resumes right after it (matches never overlap).
    A pattern is given as a matcher: what it matches at the START of a
    suffix of the text, as a length and the replacement text for it. */
module Rewrite {
  import opened Wrappers

  /** A match of `len` characters at the scanned position, to be replaced
      by `repl`. */
  datatype Hit = Hit(len: nat, repl: string)

  /** A hit the scanner can use: it consumes at least one character and no
      more than what is left. */
  predicate Usable(h: Option<Hit>, s: string)
  {
    h.Some? && 0 < h.value.len <= |s|
  }

  /** The matcher finds nothing at any position of `s`. */
  predicate NoMatch(m: string -> Option<Hit>, s: string)
  {
    forall i :: 0 <= i < |s| ==> !Usable(m(s[i..]), s[i..])
  }

  /** `re.sub` with the matcher `m`. */
  function SubAll(m: string -> Option<Hit>, s: string): (r: string)
    decreases |s|
  {
    if s == [] then []
    else
      var h := m(s);
      if Usable(h, s) then h.value.repl + SubAll(m, s[h.value.len..])
      else [s[0]] + SubAll(m, s[1..])
  }

  /** A text in which the pattern matches nowhere comes back unchanged. */
  lemma {:induction false} SubAllNoMatch(m: string -> Option<Hit>, s: string)
    requires NoMatch(m, s)
    ensures SubAll(m, s) == s
    decreases |s|
  {
    if s != [] {
      assert s[0..] == s;
      assert NoMatch(m, s[1..]) by {
        forall i | 0 <= i < |s[1..]|
          ensures !Usable(m(s[1..][i..]), s[1..][i..])
        {
          assert s[1..][i..] == s[i + 1..];
        }
      }
      SubAllNoMatch(m, s[1..]);
      assert [s[0]] + s[1..] == s;
    }
  }

  /** A prefix in which no match starts is copied through, and scanning
      continues with the rest of the text as if the prefix were absent. */
  lemma {:induction false} SubAllSkip(m: string -> Option<Hit>, u: string, v: string)
    requires forall i :: 0 <= i < |u| ==> !Usable(m((u + v)[i..]), (u + v)[i..])
    ensures SubAll(m, u + v) == u + SubAll(m, v)
    decreases |u|
  {
    if u != [] {
      var s := u + v;
      assert s[0..] == s;
      assert !Usable(m(s), s);
      assert s[1..] == u[1..] + v;
      assert SubAll(m, s) == [s[0]] + SubAll(m, u[1..] + v);
      forall i | 0 <= i < |u[1..]|
        ensures !Usable(m((u[1..] + v)[i..]), (u[1..] + v)[i..])
      {
        assert (u[1..] + v)[i..] == s[i + 1..];
      }
      SubAllSkip(m, u[1..], v);
      assert s[0] == u[0] && [u[0]] + u[1..] == u;
      assert [u[0]] + (u[1..] + SubAll(m, v)) == u + SubAll(m, v);
    } else {
      assert u + v == v;
    }
  }

  /** A match at the start of the text: its replacement, then the rest. */
  lemma SubAllHit(m: string -> Option<Hit>, u: string, v: string, repl: string)
    requires u != [] && m(u + v) == Some(Hit(|u|, repl))
    ensures SubAll(m, u + v) == repl + SubAll(m, v)
  {
    assert (u + v)[|u|..] == v;
  }
}
