/**
 * Character classes and small string helpers shared by the pattern compiler,
 * the rule list and the page walker.
 *
 * JavaScript's `\s`, `trim()` and `toLowerCase()` are Unicode-wide; this model
 * keeps ASCII plus the four Unicode spaces that the separator class lists
 * (no-break, narrow no-break, thin and figure space).
 */
module Chars {

  predicate IsDigit(c: char) {
    '0' <= c <= '9'
  }

  /** `\s` (and the white space `trim()` strips), restricted as described above. */
  predicate IsSpace(c: char) {
    || c == ' ' || c == '\t' || c == '\n' || c == '\U{000B}' || c == '\U{000C}' || c == '\r'
    || c == '\U{00A0}' || c == '\U{202F}' || c == '\U{2009}' || c == '\U{2007}'
  }

  /**
   * Membership in the separator class: white space, comma, period, ASCII
   * apostrophe and the typographic apostrophe. The pattern side (`isPatSep`)
   * and the text side (`SEP_CLASS`) list the same characters.
   */
  predicate IsSep(c: char) {
    IsSpace(c) || c == ',' || c == '.' || c == '\'' || c == '’'
  }

  /** The decimal marks `[.,]`. */
  predicate IsDecimalMark(c: char) {
    c == '.' || c == ','
  }

  /** `[A-Za-z0-9_]`, the class the whole-word lookarounds exclude. */
  predicate IsWordChar(c: char) {
    ('A' <= c <= 'Z') || ('a' <= c <= 'z') || IsDigit(c) || c == '_'
  }

  lemma DecimalMarkIsSep(c: char)
    ensures IsDecimalMark(c) ==> IsSep(c) && !IsDigit(c)
  {
  }

  /** ASCII lower-casing. */
  function Lower(c: char): char {
    if 'A' <= c <= 'Z' then (c as int + 32) as char else c
  }

  function LowerStr(s: string): (r: string)
    ensures |r| == |s|
    ensures forall k | 0 <= k < |s| :: r[k] == Lower(s[k])
  {
    seq(|s|, k requires 0 <= k < |s| => Lower(s[k]))
  }

  /** A character outside the Basic Multilingual Plane, which UTF-16 stores as a surrogate pair. */
  predicate IsAstral(c: char) {
    c as int > 0xFFFF
  }

  /** JavaScript's `s.length`: the number of UTF-16 code units, two for an astral character. */
  function Utf16Length(s: string): (n: nat)
    ensures |s| <= n <= 2 * |s|
    ensures (forall k | 0 <= k < |s| :: !IsAstral(s[k])) ==> n == |s|
    ensures (forall k | 0 <= k < |s| :: IsAstral(s[k])) ==> n == 2 * |s|
  {
    if s == [] then 0
    else (if IsAstral(s[0]) then 2 else 1) + Utf16Length(s[1..])
  }

  /** The digits of `s`, in order (`intDigits` accumulates exactly these). */
  function DigitsOf(s: string): (r: string)
    ensures |r| <= |s|
    ensures forall k | 0 <= k < |r| :: IsDigit(r[k])
  {
    if s == [] then []
    else (if IsDigit(s[0]) then [s[0]] else []) + DigitsOf(s[1..])
  }

  lemma {:induction false} DigitsOfAppend(a: string, b: string)
    ensures DigitsOf(a + b) == DigitsOf(a) + DigitsOf(b)
  {
    if a == [] {
      assert a + b == b;
    } else {
      assert (a + b)[1..] == a[1..] + b;
      DigitsOfAppend(a[1..], b);
    }
  }

  /**
   * The bounds `trim()` keeps: everything before `lo` and from `hi` on is
   * white space, and the kept part neither starts nor ends with white space.
   */
  function TrimBounds(s: string): (r: (nat, nat))
    ensures r.0 <= r.1 <= |s|
    ensures forall k | 0 <= k < r.0 :: IsSpace(s[k])
    ensures forall k | r.1 <= k < |s| :: IsSpace(s[k])
    ensures r.0 < r.1 ==> !IsSpace(s[r.0]) && !IsSpace(s[r.1 - 1])
    ensures r.0 == r.1 ==> r.0 == |s|
  {
    var lo := TrimLo(s, 0);
    (lo, TrimHi(s, lo, |s|))
  }

  function TrimLo(s: string, i: nat): (lo: nat)
    requires i <= |s|
    requires forall k | 0 <= k < i :: IsSpace(s[k])
    ensures i <= lo <= |s|
    ensures forall k | 0 <= k < lo :: IsSpace(s[k])
    ensures lo < |s| ==> !IsSpace(s[lo])
    decreases |s| - i
  {
    if i < |s| && IsSpace(s[i]) then TrimLo(s, i + 1) else i
  }

  function TrimHi(s: string, lo: nat, j: nat): (hi: nat)
    requires lo <= j <= |s|
    requires lo < |s| ==> !IsSpace(s[lo])
    requires forall k | j <= k < |s| :: IsSpace(s[k])
    ensures lo <= hi <= j
    ensures forall k | hi <= k < |s| :: IsSpace(s[k])
    ensures lo < hi ==> !IsSpace(s[hi - 1])
    ensures hi == lo ==> lo == |s|
    decreases j
  {
    if lo < j && IsSpace(s[j - 1]) then TrimHi(s, lo, j - 1) else j
  }

  /** `String.prototype.trim`. */
  function Trim(s: string): (r: string)
    ensures |r| <= |s|
    ensures r == [] || (!IsSpace(r[0]) && !IsSpace(r[|r| - 1]))
    ensures r == [] <==> forall k | 0 <= k < |s| :: IsSpace(s[k])
  {
    var b := TrimBounds(s);
    if b.0 < b.1 then
      assert !IsSpace(s[b.0]);
      s[b.0..b.1]
    else
      []
  }

  /** A string that neither starts nor ends with white space is its own trim. */
  lemma TrimOfUnpadded(s: string)
    requires s != [] && !IsSpace(s[0]) && !IsSpace(s[|s| - 1])
    ensures Trim(s) == s
  {
    var b := TrimBounds(s);
  }

  /** A string is blank when `trim()` leaves nothing, i.e. it is all white space. */
  lemma BlankIffAllSpace(s: string)
    ensures Trim(s) == [] <==> forall k | 0 <= k < |s| :: IsSpace(s[k])
  {
    var b := TrimBounds(s);
    if Trim(s) != [] {
      assert !IsSpace(s[b.0]);
    }
  }

  /** Trimming twice is trimming once. */
  lemma TrimIdempotent(s: string)
    ensures Trim(Trim(s)) == Trim(s)
  {
    var t := Trim(s);
    var b := TrimBounds(t);
    if t != [] {
      assert b.0 == 0;
      assert b.1 == |t|;
    }
  }
}
