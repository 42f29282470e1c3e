/** String helpers behind the controller's case-insensitive matching and its
    blank-query check. A regular expression built with the `i` flag from a plain
    word matches a field when the word occurs in it ignoring case; this module
    keeps that reading, with ASCII letters as the only characters that fold. */
module Text {

  /** ASCII lower-casing of one character. */
  function LowerChar(c: char): (d: char)
  {
    if 'A' <= c <= 'Z' then (c as int + 32) as char else c
  }

  function Lower(s: string): (r: string)
    ensures |r| == |s|
    ensures forall i :: 0 <= i < |s| ==> r[i] == LowerChar(s[i])
  {
    seq(|s|, i requires 0 <= i < |s| => LowerChar(s[i]))
  }

  /** `needle` sits in `hay` starting at position `i`. */
  predicate OccursAt(needle: string, hay: string, i: int)
  {
    0 <= i && i + |needle| <= |hay| && hay[i..i + |needle|] == needle
  }

  /** `needle` occurs somewhere in `hay`, checked position by position. */
  predicate OccursIn(needle: string, hay: string)
    decreases |hay|
  {
    OccursAt(needle, hay, 0) || (hay != [] && OccursIn(needle, hay[1..]))
  }

  /** The position-by-position search finds the needle exactly when it sits at some position. */
  lemma {:induction false} OccursInIff(needle: string, hay: string)
    ensures OccursIn(needle, hay) <==> exists i :: OccursAt(needle, hay, i)
    decreases |hay|
  {
    if OccursIn(needle, hay) {
      if !OccursAt(needle, hay, 0) {
        OccursInIff(needle, hay[1..]);
        var i :| OccursAt(needle, hay[1..], i);
        assert hay[i + 1..i + 1 + |needle|] == hay[1..][i..i + |needle|];
        assert OccursAt(needle, hay, i + 1);
      }
    }
    if exists i :: OccursAt(needle, hay, i) {
      var i :| OccursAt(needle, hay, i);
      if i > 0 {
        assert hay[1..][i - 1..i - 1 + |needle|] == hay[i..i + |needle|];
        assert OccursAt(needle, hay[1..], i - 1);
        OccursInIff(needle, hay[1..]);
      }
    }
  }

  /** Case-insensitive partial match of `pattern` inside `field`. */
  predicate MatchesIgnoringCase(field: string, pattern: string)
  {
    OccursIn(Lower(pattern), Lower(field))
  }

  /** `pattern` sits in `field` at position `at`, each character equal to the
      field's up to the case of ASCII letters ("Dune" sits in "the DUNE saga" at 4). */
  predicate OccursIgnoringCaseAt(pattern: string, field: string, at: int)
  {
    && 0 <= at && at + |pattern| <= |field|
    && forall j :: 0 <= j < |pattern| ==> LowerChar(field[at + j]) == LowerChar(pattern[j])
  }

  /** Lower-casing both strings turns a case-insensitive occurrence into a literal one. */
  lemma OccursAtLowerIff(pattern: string, field: string, at: int)
    ensures OccursAt(Lower(pattern), Lower(field), at) <==> OccursIgnoringCaseAt(pattern, field, at)
  {
    if 0 <= at && at + |pattern| <= |field| {
      var window := Lower(field)[at..at + |pattern|];
      assert forall j :: 0 <= j < |pattern| ==> window[j] == LowerChar(field[at + j]);
      if OccursIgnoringCaseAt(pattern, field, at) {
        assert window == Lower(pattern);
      }
    }
  }

  /** What the `i` flag promises: the field matches exactly when the pattern
      occurs somewhere in it with the case of any of its letters changed. */
  lemma MatchesIgnoringCaseIff(field: string, pattern: string)
    ensures MatchesIgnoringCase(field, pattern) <==> exists at :: OccursIgnoringCaseAt(pattern, field, at)
  {
    OccursInIff(Lower(pattern), Lower(field));
    if MatchesIgnoringCase(field, pattern) {
      var at :| OccursAt(Lower(pattern), Lower(field), at);
      OccursAtLowerIff(pattern, field, at);
    }
    if exists at :: OccursIgnoringCaseAt(pattern, field, at) {
      var at :| OccursIgnoringCaseAt(pattern, field, at);
      OccursAtLowerIff(pattern, field, at);
    }
  }

  /** The characters ECMAScript's String.prototype.trim removes: the WhiteSpace
      code points (tab, vertical tab, form feed, space, no-break space, byte
      order mark and the Zs separators) and the LineTerminator code points. */
  predicate IsJsWhitespace(c: char)
  {
    || c == '\t' || c == '\U{000B}' || c == '\U{000C}' || c == ' '
    || c == '\U{00A0}' || c == '\U{FEFF}' || c == '\U{1680}'
    || ('\U{2000}' <= c <= '\U{200A}')
    || c == '\U{202F}' || c == '\U{205F}' || c == '\U{3000}'
    || c == '\n' || c == '\r' || c == '\U{2028}' || c == '\U{2029}'
  }

  predicate IsBlank(s: string)
  {
    forall i :: 0 <= i < |s| ==> IsJsWhitespace(s[i])
  }

  /** Drops leading whitespace: the result is a suffix of `s`, what was dropped
      is all whitespace, and a non-empty result starts with a non-whitespace character. */
  function TrimStart(s: string): (r: string)
    ensures |r| <= |s| && r == s[|s| - |r|..]
    ensures forall i :: 0 <= i < |s| - |r| ==> IsJsWhitespace(s[i])
    ensures r != [] ==> !IsJsWhitespace(r[0])
    decreases |s|
  {
    if s != [] && IsJsWhitespace(s[0]) then TrimStart(s[1..]) else s
  }

  /** Drops trailing whitespace: the result is a prefix of `s`, what was dropped
      is all whitespace, and a non-empty result ends with a non-whitespace character. */
  function TrimEnd(s: string): (r: string)
    ensures |r| <= |s| && r == s[..|r|]
    ensures forall i :: |r| <= i < |s| ==> IsJsWhitespace(s[i])
    ensures r != [] ==> !IsJsWhitespace(r[|r| - 1])
    decreases |s|
  {
    if s != [] && IsJsWhitespace(s[|s| - 1]) then TrimEnd(s[..|s| - 1]) else s
  }

  /** `r` is `s` with the first `k` characters and everything after `k + |r|`
      removed, and every removed character is whitespace. */
  predicate TrimmedFrom(s: string, r: string, k: nat)
  {
    && k + |r| <= |s| && r == s[k..k + |r|]
    && (forall i :: 0 <= i < k ==> IsJsWhitespace(s[i]))
    && (forall i :: k + |r| <= i < |s| ==> IsJsWhitespace(s[i]))
  }

  /** JavaScript's `s.trim()`: a middle part of `s` whose cut-off ends are all
      whitespace and which neither starts nor ends with whitespace. */
  function Trim(s: string): (r: string)
    ensures exists k :: TrimmedFrom(s, r, k)
    ensures r != [] ==> !IsJsWhitespace(r[0]) && !IsJsWhitespace(r[|r| - 1])
  {
    TrimmedPieces(s, TrimStart(s), TrimEnd(TrimStart(s)));
    TrimEnd(TrimStart(s))
  }

  /** Cutting whitespace off the front of `s`, giving its suffix `t`, and then off
      the back of `t`, giving its prefix `r`, leaves `s` trimmed at `|s| - |t|`. */
  lemma TrimmedPieces(s: string, t: string, r: string)
    requires |t| <= |s| && t == s[|s| - |t|..]
    requires forall i :: 0 <= i < |s| - |t| ==> IsJsWhitespace(s[i])
    requires |r| <= |t| && r == t[..|r|]
    requires forall i :: |r| <= i < |t| ==> IsJsWhitespace(t[i])
    ensures TrimmedFrom(s, r, |s| - |t|)
    ensures r != [] ==> r[0] == t[0]
  {
    var k := |s| - |t|;
    assert s[k..k + |r|] == r;
    forall i | k + |r| <= i < |s|
      ensures IsJsWhitespace(s[i])
    {
      assert s[i] == t[i - k];
    }
  }

  /** `s.trim() === ''` holds exactly when every character of `s` is whitespace. */
  lemma TrimIsEmptyIffBlank(s: string)
    ensures Trim(s) == [] <==> IsBlank(s)
  {
    var t := TrimStart(s);
    if t != [] {
      assert !IsJsWhitespace(t[0]);
      assert TrimEnd(t) != [];
      assert !IsJsWhitespace(s[|s| - |t|]);
    } else {
      assert forall i :: 0 <= i < |s| ==> IsJsWhitespace(s[i]);
    }
  }
}
