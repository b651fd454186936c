/**
 * The string primitives the pipelines use, restricted to ASCII: the regular-expression
 * classes `\d`, `\w` and `[a-zA-Z0-9]`, Python's `str.strip()`, `str.lower()` and `in`.
 */
module Text {

  predicate IsDigit(c: char) { '0' <= c <= '9' }

  predicate IsAlnum(c: char) { IsDigit(c) || 'a' <= c <= 'z' || 'A' <= c <= 'Z' }

  /** The characters `\w` matches (and `\b` looks at), over ASCII. */
  predicate IsWordChar(c: char) { IsAlnum(c) || c == '_' }

  /** The ASCII characters `str.isspace()` accepts: tab to carriage return, 0x1C to 0x1F, space. */
  predicate IsSpace(c: char) { c == ' ' || '\t' <= c <= '\r' || '\U{1C}' <= c <= '\U{1F}' }

  /** Neither end of `s` is whitespace. */
  predicate IsTrimmed(s: string) { s == [] || (!IsSpace(s[0]) && !IsSpace(s[|s| - 1])) }

  /** `s` with its leading whitespace removed. */
  function StripStart(s: string): (r: string)
    ensures |r| <= |s| && r == s[|s| - |r|..]
    ensures forall k | 0 <= k < |s| - |r| :: IsSpace(s[k])
    ensures r == [] || !IsSpace(r[0])
    decreases |s|
  {
    if s != [] && IsSpace(s[0]) then StripStart(s[1..]) else s
  }

  /** `s` with its trailing whitespace removed. */
  function StripEnd(s: string): (r: string)
    ensures |r| <= |s| && r == s[..|r|]
    ensures forall k | |r| <= k < |s| :: IsSpace(s[k])
    ensures r == [] || !IsSpace(r[|r| - 1])
    decreases |s|
  {
    if s != [] && IsSpace(s[|s| - 1]) then StripEnd(s[..|s| - 1]) else s
  }

  /** Python's `s.strip()`: the middle slice of `s` left after removing whitespace at both ends. */
  function Strip(s: string): (r: string)
    ensures IsTrimmed(r) && |r| <= |s|
  {
    StripEnd(StripStart(s))
  }

  /** The strip of `s` is the slice of `s` at `i`, with only whitespace around it. */
  lemma StripSlice(s: string) returns (i: nat)
    ensures SurroundedBySpace(s, Strip(s), i)
  {
    var t := StripStart(s);
    i := |s| - |t|;
    EndSlice(s, t, i);
  }

  /** Trimming the end of the suffix of `s` at `i` leaves a slice of `s` followed only by whitespace. */
  lemma EndSlice(s: string, t: string, i: nat)
    requires i <= |s| && t == s[i..]
    ensures StripEnd(t) == s[i..i + |StripEnd(t)|]
    ensures forall k | i + |StripEnd(t)| <= k < |s| :: IsSpace(s[k])
  {
    var r := StripEnd(t);
    assert r == t[..|r|];
    forall k | i + |r| <= k < |s| ensures IsSpace(s[k]) { assert s[k] == t[k - i]; }
  }

  /** `r` is the slice of `s` at `i`, and everything outside it is whitespace. */
  predicate SurroundedBySpace(s: string, r: string, i: int)
  {
    0 <= i && i + |r| <= |s| && r == s[i..i + |r|]
    && (forall k | 0 <= k < i :: IsSpace(s[k]))
    && (forall k | i + |r| <= k < |s| :: IsSpace(s[k]))
  }

  /** A trimmed string is its own strip, so stripping twice is stripping once. */
  lemma StripTrimmed(s: string)
    requires IsTrimmed(s)
    ensures Strip(s) == s
  {
    assert StripStart(s) == s;
  }

  function LowerChar(c: char): (d: char)
  {
    if 'A' <= c <= 'Z' then (c as int + 32) as char else c
  }

  /** Python's `s.lower()` over ASCII. */
  function ToLower(s: string): (r: string)
    ensures |r| == |s| && forall k | 0 <= k < |s| :: r[k] == LowerChar(s[k])
  {
    seq(|s|, k requires 0 <= k < |s| => LowerChar(s[k]))
  }

  predicate OccursAt(s: string, w: string, i: int)
  {
    0 <= i && i + |w| <= |s| && s[i..i + |w|] == w
  }

  /** Python's `w in s` on strings. */
  predicate Contains(s: string, w: string)
  {
    exists i | 0 <= i <= |s| - |w| :: OccursAt(s, w, i)
  }

  /** `w` occurs at position `i` of `s` when case is ignored, letter by letter. */
  predicate OccursIgnoringCaseAt(s: string, w: string, i: int)
  {
    0 <= i && i + |w| <= |s| && forall k | 0 <= k < |w| :: LowerChar(s[i + k]) == LowerChar(w[k])
  }

  predicate ContainsIgnoringCase(s: string, w: string)
  {
    exists i | 0 <= i <= |s| - |w| :: OccursIgnoringCaseAt(s, w, i)
  }

  /** A lower-case word without whitespace: what the "Ongoing" test searches for. */
  predicate IsPlainLowerWord(w: string)
  {
    w != [] && forall k | 0 <= k < |w| :: LowerChar(w[k]) == w[k] && !IsSpace(w[k])
  }

  lemma {:induction false} LowerStripContainsOnly(s: string, w: string)
    requires IsPlainLowerWord(w)
    requires Contains(ToLower(Strip(s)), w)
    ensures ContainsIgnoringCase(s, w)
  {
    var r := Strip(s);
    var i := StripSlice(s);
    var t := ToLower(r);
    var p :| 0 <= p <= |t| - |w| && OccursAt(t, w, p);
    forall k | 0 <= k < |w| ensures LowerChar(s[i + p + k]) == LowerChar(w[k]) {
      calc {
        LowerChar(s[i + p + k]);
        LowerChar(r[p + k]);
        t[p + k];
        { assert t[p..p + |w|][k] == t[p + k]; }
        w[k];
      }
    }
    assert OccursIgnoringCaseAt(s, w, i + p);
  }

  lemma NonSpaceInside(s: string, w: string, q: int, k: int)
    requires IsPlainLowerWord(w) && OccursIgnoringCaseAt(s, w, q) && 0 <= k < |w|
    ensures !IsSpace(s[q + k])
  {
    assert LowerChar(s[q + k]) == w[k];
  }

  /** A case-insensitive occurrence of a plain word lies inside the strip of `s`, at `q - i`. */
  lemma OccurrenceInsideStrip(s: string, w: string, i: nat, q: int)
    requires IsPlainLowerWord(w) && OccursIgnoringCaseAt(s, w, q)
    requires SurroundedBySpace(s, Strip(s), i)
    ensures i <= q && q + |w| <= i + |Strip(s)|
  {
    if q < i { NonSpaceInside(s, w, q, 0); }
    if q + |w| > i + |Strip(s)| { NonSpaceInside(s, w, q, |w| - 1); }
  }

  /** Lowering the strip letter by letter turns the case-insensitive occurrence into an exact one. */
  lemma LoweredLetter(s: string, w: string, i: nat, q: int, k: int)
    requires IsPlainLowerWord(w) && OccursIgnoringCaseAt(s, w, q)
    requires SurroundedBySpace(s, Strip(s), i) && i <= q && q + |w| <= i + |Strip(s)|
    requires 0 <= k < |w|
    ensures ToLower(Strip(s))[q - i + k] == w[k]
  {
    var r := Strip(s);
    assert r[q - i + k] == s[i..i + |r|][q - i + k] == s[q + k];
  }

  /** Letter-by-letter agreement at `p` is an occurrence at `p`. */
  lemma OccursByLetters(t: string, w: string, p: int)
    requires 0 <= p && p + |w| <= |t|
    requires forall k | 0 <= k < |w| :: t[p + k] == w[k]
    ensures OccursAt(t, w, p)
  {
    assert t[p..p + |w|] == w;
  }

  /** The lowered strip holds `w` exactly where the raw text holds it up to case, shifted by `i`. */
  lemma OccursInLoweredStrip(s: string, w: string, i: nat, q: int)
    requires IsPlainLowerWord(w) && OccursIgnoringCaseAt(s, w, q)
    requires SurroundedBySpace(s, Strip(s), i)
    ensures OccursAt(ToLower(Strip(s)), w, q - i)
  {
    OccurrenceInsideStrip(s, w, i, q);
    var t := ToLower(Strip(s));
    forall k | 0 <= k < |w| ensures t[q - i + k] == w[k] {
      LoweredLetter(s, w, i, q, k);
    }
    OccursByLetters(t, w, q - i);
  }

  lemma {:induction false} ContainsIgnoringCaseOnly(s: string, w: string)
    requires IsPlainLowerWord(w)
    requires ContainsIgnoringCase(s, w)
    ensures Contains(ToLower(Strip(s)), w)
  {
    var i := StripSlice(s);
    var q :| 0 <= q <= |s| - |w| && OccursIgnoringCaseAt(s, w, q);
    OccursInLoweredStrip(s, w, i, q);
  }

  /**
   * Lowering the trimmed text and searching it is the same as a case-insensitive search
   * in the raw text, for a lower-case word without whitespace.
   */
  lemma LowerStripContains(s: string, w: string)
    requires IsPlainLowerWord(w)
    ensures Contains(ToLower(Strip(s)), w) <==> ContainsIgnoringCase(s, w)
  {
    if Contains(ToLower(Strip(s)), w) { LowerStripContainsOnly(s, w); }
    if ContainsIgnoringCase(s, w) { ContainsIgnoringCaseOnly(s, w); }
  }
}
