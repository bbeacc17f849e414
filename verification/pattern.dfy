/**
 * The number-aware pattern compiler of the content script (`buildFlexibleBase`
 * and its helpers) and the language its output denotes.
 *
 * The compiled regular expression is represented by a token list rather than by
 * its source text:
 *   - `Lit(c)`        an escaped literal character (`escapeRegExp(ch)`);
 *   - `Digit(d)`      a pattern digit, matched verbatim;
 *   - `OptSep`        `(?:SEP_CLASS)?`, an optional separator between two digits;
 *   - `OptFrac`       `(?:[.,]\d{1,2})?`, the optional decimal tail;
 *   - `ExactFrac(ds)` `(?:[.,]ds)`, the required decimal tail with fixed digits.
 */
module Pattern {
  import opened Chars
  import opened Wrappers

  datatype Token = Lit(c: char) | Digit(d: char) | OptSep | OptFrac | ExactFrac(ds: string)

  /** What `parseNumberToken` returns: the integer digits, the fixed fraction (if any) and where it stopped. */
  datatype NumberToken = NumberToken(intDigits: string, frac: Option<string>, next: nat)

  // ---------------------------------------------------------------------------
  // The compiler, as written
  // ---------------------------------------------------------------------------

  /**
   * The first loop of `parseNumberToken`: from `i`, consume digits (collecting
   * them) and pattern separators (dropping them) until any other character.
   */
  function ScanRun(pat: string, i: nat): (r: (string, nat))
    requires i <= |pat|
    ensures i <= r.1 <= |pat|
    ensures forall k | i <= k < r.1 :: IsDigit(pat[k]) || IsSep(pat[k])
    ensures r.1 < |pat| ==> !IsDigit(pat[r.1]) && !IsSep(pat[r.1])
    ensures r.0 == DigitsOf(pat[i..r.1])
    decreases |pat| - i
  {
    if i < |pat| && IsDigit(pat[i]) then
      var (ds, j) := ScanRun(pat, i + 1);
      DigitsOfSlice(pat, i, j);
      ([pat[i]] + ds, j)
    else if i < |pat| && IsSep(pat[i]) then
      var (ds, j) := ScanRun(pat, i + 1);
      DigitsOfSlice(pat, i, j);
      (ds, j)
    else
      ([], i)
  }

  lemma DigitsOfSlice(pat: string, i: nat, j: nat)
    requires i < j <= |pat|
    ensures DigitsOf(pat[i..j]) == (if IsDigit(pat[i]) then [pat[i]] else []) + DigitsOf(pat[i + 1..j])
  {
    assert pat[i..j][0] == pat[i] && pat[i..j][1..] == pat[i + 1..j];
  }

  /** `while (i < n && isDigit(pat[i])) { f += pat[i]; i++; }` */
  function DigitRun(pat: string, i: nat): (r: (string, nat))
    requires i <= |pat|
    ensures i <= r.1 <= |pat| && r.0 == pat[i..r.1]
    ensures forall k | i <= k < r.1 :: IsDigit(pat[k])
    ensures r.1 < |pat| ==> !IsDigit(pat[r.1])
    decreases |pat| - i
  {
    if i < |pat| && IsDigit(pat[i]) then
      var (f, j) := DigitRun(pat, i + 1);
      ([pat[i]] + f, j)
    else
      ([], i)
  }

  /**
   * The fixed-fraction branch of `parseNumberToken`: a decimal mark followed
   * by a digit at `j` starts a required fraction made of the digits after it.
   */
  function FracTail(pat: string, j: nat): (r: (Option<string>, nat))
    requires j <= |pat|
    ensures r.0.Some? <==> j + 1 < |pat| && IsDecimalMark(pat[j]) && IsDigit(pat[j + 1])
    ensures r.0.None? ==> r.1 == j
    ensures r.0.Some? ==> |r.0.value| >= 1 && r.1 == j + 1 + |r.0.value| <= |pat|
                          && r.0.value == pat[j + 1..r.1]
    ensures r.0.Some? ==> (forall k | j + 1 <= k < r.1 :: IsDigit(pat[k])) && (r.1 == |pat| || !IsDigit(pat[r.1]))
  {
    if j < |pat| && IsDecimalMark(pat[j]) && j + 1 < |pat| && IsDigit(pat[j + 1]) then
      var (f, k) := DigitRun(pat, j + 1);
      (Some(f), k)
    else
      (None, j)
  }

  /**
   * `parseNumberToken`, called by the compiler at a digit. The run loop already
   * swallows `.` and `,` (they are pattern separators), so the character it
   * stops at is never a decimal mark and the fixed-fraction branch never fires:
   * every numeric token gets the optional tail.
   */
  function ParseNumberToken(pat: string, i: nat): (t: NumberToken)
    requires i < |pat| && IsDigit(pat[i])
    ensures i < t.next <= |pat|
    ensures forall k | i <= k < t.next :: IsDigit(pat[k]) || IsSep(pat[k])
    ensures t.next < |pat| ==> !IsDigit(pat[t.next]) && !IsSep(pat[t.next])
    ensures t.intDigits == DigitsOf(pat[i..t.next])
    ensures |t.intDigits| >= 1 && t.intDigits[0] == pat[i]
    ensures t.frac == None
  {
    var (ds, j) := ScanRun(pat, i);
    var (frac, k) := FracTail(pat, j);
    NumberToken(ds, frac, k)
  }

  /** `flexibleDigits`: the digits joined by optional separators. */
  function FlexibleDigits(ds: string): (r: seq<Token>)
    ensures |ds| >= 1 ==> |r| == 2 * |ds| - 1
    ensures ds == [] ==> r == []
    ensures forall k | 0 <= k < |r| :: r[k] == if k % 2 == 0 then Digit(ds[k / 2]) else OptSep
    decreases |ds|
  {
    if ds == [] then []
    else if |ds| == 1 then [Digit(ds[0])]
    else
      var tail := FlexibleDigits(ds[1..]);
      FlexibleDigitsShape(ds, tail);
      [Digit(ds[0]), OptSep] + tail
  }

  /** Putting a digit and a separator in front shifts the alternation by one digit. */
  lemma FlexibleDigitsShape(ds: string, tail: seq<Token>)
    requires |ds| >= 2 && |tail| == 2 * |ds| - 3
    requires forall k | 0 <= k < |tail| :: tail[k] == if k % 2 == 0 then Digit(ds[1..][k / 2]) else OptSep
    ensures var r := [Digit(ds[0]), OptSep] + tail;
      forall k | 0 <= k < |r| :: r[k] == if k % 2 == 0 then Digit(ds[k / 2]) else OptSep
  {
    var r := [Digit(ds[0]), OptSep] + tail;
    forall k | 2 <= k < |r| ensures r[k] == if k % 2 == 0 then Digit(ds[k / 2]) else OptSep {
      assert r[k] == tail[k - 2];
      assert (k - 2) % 2 == k % 2 && (k - 2) / 2 == k / 2 - 1;
    }
  }

  /** The decimal part of a numeric token. */
  function DecimalPart(frac: Option<string>): Token {
    match frac
    case Some(f) => ExactFrac(f)
    case None => OptFrac
  }

  /** `regexSrc` of a numeric token. */
  function NumberTokens(t: NumberToken): seq<Token> {
    FlexibleDigits(t.intDigits) + [DecimalPart(t.frac)]
  }

  /** The loop of `buildFlexibleBase`, from index `i` on. */
  function BaseFrom(pat: string, i: nat): seq<Token>
    requires i <= |pat|
    decreases |pat| - i
  {
    if i == |pat| then []
    else if IsDigit(pat[i]) then
      var t := ParseNumberToken(pat, i);
      NumberTokens(t) + BaseFrom(pat, t.next)
    else
      [Lit(pat[i])] + BaseFrom(pat, i + 1)
  }

  /**
   * `buildFlexibleBase`. Its shortest match is the pattern with the
   * separators of each digit run erased (`WitnessShortest`), and a pattern
   * that is one number matches that number's flexible forms
   * (`NumberPatternLanguage`).
   */
  function BuildFlexibleBase(pat: string): (r: seq<Token>)
    ensures Witness(r) == Erase(pat, false)
  {
    assert pat[0..] == pat;
    WitnessOfBaseFrom(pat, 0);
    BaseFrom(pat, 0)
  }

  // ---------------------------------------------------------------------------
  // The language of a token list
  // ---------------------------------------------------------------------------

  /** A literal pattern character matches a text character, folding ASCII case when `ci`. */
  predicate CharMatches(p: char, c: char, ci: bool) {
    p == c || (ci && Lower(p) == Lower(c))
  }

  /** `w` is in the language of `toks` (case-insensitive when `ci`). */
  predicate Accepts(toks: seq<Token>, w: string, ci: bool)
    decreases |toks|, 1
  {
    if toks == [] then w == [] else Step(toks[0], toks[1..], w, ci)
  }

  /** `w` starts with a match of `t` and the rest of it is in the language of `rest`. */
  predicate Step(t: Token, rest: seq<Token>, w: string, ci: bool)
    decreases |rest| + 1, 0
  {
    match t
    case Lit(c) => |w| > 0 && CharMatches(c, w[0], ci) && Accepts(rest, w[1..], ci)
    case Digit(d) => |w| > 0 && w[0] == d && Accepts(rest, w[1..], ci)
    case OptSep =>
      || Accepts(rest, w, ci)
      || (|w| > 0 && IsSep(w[0]) && Accepts(rest, w[1..], ci))
    case OptFrac =>
      || Accepts(rest, w, ci)
      || (|w| >= 2 && IsDecimalMark(w[0]) && IsDigit(w[1]) && Accepts(rest, w[2..], ci))
      || (|w| >= 3 && IsDecimalMark(w[0]) && IsDigit(w[1]) && IsDigit(w[2]) && Accepts(rest, w[3..], ci))
    case ExactFrac(ds) =>
      |w| > |ds| && IsDecimalMark(w[0]) && w[1..|ds| + 1] == ds && Accepts(rest, w[|ds| + 1..], ci)
  }

  /** A token that always consumes at least one character. */
  predicate IsMandatory(t: Token) {
    t.Lit? || t.Digit? || t.ExactFrac?
  }

  /** The token list cannot match the empty string. */
  predicate Consuming(toks: seq<Token>)
    decreases |toks|
  {
    toks != [] && (IsMandatory(toks[0]) || Consuming(toks[1..]))
  }

  lemma {:induction false} ConsumingRejectsEmpty(toks: seq<Token>, w: string, ci: bool)
    requires Consuming(toks) && Accepts(toks, w, ci)
    ensures |w| >= 1
  {
    if !IsMandatory(toks[0]) && w == [] {
      ConsumingRejectsEmpty(toks[1..], w, ci);
    }
  }

  /** A non-empty pattern compiles to a matcher that never accepts the empty string. */
  lemma NonEmptyPatternConsumes(pat: string)
    ensures |pat| >= 1 ==> Consuming(BuildFlexibleBase(pat))
    ensures |pat| >= 1 ==> forall ci: bool :: !Accepts(BuildFlexibleBase(pat), [], ci)
  {
    if |pat| >= 1 {
      var toks := BuildFlexibleBase(pat);
      if IsDigit(pat[0]) {
        var t := ParseNumberToken(pat, 0);
        assert toks[0] == Digit(t.intDigits[0]);
      } else {
        assert toks[0] == Lit(pat[0]);
      }
      forall ci: bool ensures !Accepts(toks, [], ci) {
        if Accepts(toks, [], ci) {
          ConsumingRejectsEmpty(toks, [], ci);
        }
      }
    }
  }

  /** Languages concatenate. */
  lemma {:induction false} AcceptsConcat(t1: seq<Token>, t2: seq<Token>, w1: string, w2: string, ci: bool)
    requires Accepts(t1, w1, ci) && Accepts(t2, w2, ci)
    ensures Accepts(t1 + t2, w1 + w2, ci)
    decreases |t1|, 2
  {
    if t1 == [] {
      assert t1 + t2 == t2;
      assert w1 + w2 == w2;
    } else {
      var t := t1 + t2;
      assert t[0] == t1[0] && t[1..] == t1[1..] + t2;
      StepConcat(t1[0], t1[1..], t2, w1, w2, ci);
    }
  }

  lemma DropConcat(w1: string, w2: string, n: nat)
    requires n <= |w1|
    ensures (w1 + w2)[n..] == w1[n..] + w2
  {
  }

  lemma {:induction false} StepConcat(tok: Token, r1: seq<Token>, t2: seq<Token>, w1: string, w2: string, ci: bool)
    requires Step(tok, r1, w1, ci) && Accepts(t2, w2, ci)
    ensures Step(tok, r1 + t2, w1 + w2, ci)
    decreases |r1| + 1, 1
  {
    match tok
    case Lit(_) => StepConcatChar(tok, r1, t2, w1, w2, ci);
    case Digit(_) => StepConcatChar(tok, r1, t2, w1, w2, ci);
    case OptSep => StepConcatSep(r1, t2, w1, w2, ci);
    case OptFrac => StepConcatFrac(r1, t2, w1, w2, ci);
    case ExactFrac(_) => StepConcatExact(tok, r1, t2, w1, w2, ci);
  }

  lemma {:induction false} StepConcatChar(tok: Token, r1: seq<Token>, t2: seq<Token>, w1: string, w2: string, ci: bool)
    requires tok.Lit? || tok.Digit?
    requires Step(tok, r1, w1, ci) && Accepts(t2, w2, ci)
    ensures Step(tok, r1 + t2, w1 + w2, ci)
    decreases |r1| + 1, 0
  {
    AcceptsConcat(r1, t2, w1[1..], w2, ci);
    DropConcat(w1, w2, 1);
  }

  lemma {:induction false} StepConcatSep(r1: seq<Token>, t2: seq<Token>, w1: string, w2: string, ci: bool)
    requires Step(OptSep, r1, w1, ci) && Accepts(t2, w2, ci)
    ensures Step(OptSep, r1 + t2, w1 + w2, ci)
    decreases |r1| + 1, 0
  {
    if Accepts(r1, w1, ci) {
      AcceptsConcat(r1, t2, w1, w2, ci);
    } else {
      AcceptsConcat(r1, t2, w1[1..], w2, ci);
      DropConcat(w1, w2, 1);
    }
  }

  lemma {:induction false} StepConcatFrac(r1: seq<Token>, t2: seq<Token>, w1: string, w2: string, ci: bool)
    requires Step(OptFrac, r1, w1, ci) && Accepts(t2, w2, ci)
    ensures Step(OptFrac, r1 + t2, w1 + w2, ci)
    decreases |r1| + 1, 0
  {
    if Accepts(r1, w1, ci) {
      AcceptsConcat(r1, t2, w1, w2, ci);
    } else if |w1| >= 2 && IsDecimalMark(w1[0]) && IsDigit(w1[1]) && Accepts(r1, w1[2..], ci) {
      AcceptsConcat(r1, t2, w1[2..], w2, ci);
      DropConcat(w1, w2, 2);
    } else {
      AcceptsConcat(r1, t2, w1[3..], w2, ci);
      DropConcat(w1, w2, 3);
    }
  }

  lemma {:induction false} StepConcatExact(tok: Token, r1: seq<Token>, t2: seq<Token>, w1: string, w2: string, ci: bool)
    requires tok.ExactFrac?
    requires Step(tok, r1, w1, ci) && Accepts(t2, w2, ci)
    ensures Step(tok, r1 + t2, w1 + w2, ci)
    decreases |r1| + 1, 0
  {
    var n := |tok.ds| + 1;
    AcceptsConcat(r1, t2, w1[n..], w2, ci);
    DropConcat(w1, w2, n);
    assert (w1 + w2)[1..n] == w1[1..n];
  }

  /** A text in the language of a concatenation splits into a text of each part. */
  lemma {:induction false} AcceptsSplit(t1: seq<Token>, t2: seq<Token>, w: string, ci: bool) returns (n: nat)
    requires Accepts(t1 + t2, w, ci)
    ensures n <= |w| && Accepts(t1, w[..n], ci) && Accepts(t2, w[n..], ci)
    decreases |t1|, 2
  {
    if t1 == [] {
      assert t1 + t2 == t2;
      n := 0;
      assert w[..0] == [] && w[0..] == w;
    } else {
      var t := t1 + t2;
      assert t[0] == t1[0] && t[1..] == t1[1..] + t2;
      n := StepSplit(t1[0], t1[1..], t2, w, ci);
    }
  }

  lemma {:induction false} StepSplit(tok: Token, r1: seq<Token>, t2: seq<Token>, w: string, ci: bool) returns (n: nat)
    requires Step(tok, r1 + t2, w, ci)
    ensures n <= |w| && Step(tok, r1, w[..n], ci) && Accepts(t2, w[n..], ci)
    decreases |r1| + 1, 1
  {
    match tok
    case Lit(_) => n := StepSplitChar(tok, r1, t2, w, ci);
    case Digit(_) => n := StepSplitChar(tok, r1, t2, w, ci);
    case OptSep => n := StepSplitSep(r1, t2, w, ci);
    case OptFrac => n := StepSplitFrac(r1, t2, w, ci);
    case ExactFrac(_) => n := StepSplitExact(tok, r1, t2, w, ci);
  }

  /** Cutting `w` at `c + m` and then dropping `c` is cutting `w[c..]` at `m`. */
  lemma CutShift(w: string, c: nat, m: nat)
    requires c + m <= |w|
    ensures w[..c + m][c..] == w[c..][..m]
    ensures w[c + m..] == w[c..][m..]
    ensures w[..c + m][..c] == w[..c]
  {
  }

  lemma {:induction false} StepSplitChar(tok: Token, r1: seq<Token>, t2: seq<Token>, w: string, ci: bool) returns (n: nat)
    requires tok.Lit? || tok.Digit?
    requires Step(tok, r1 + t2, w, ci)
    ensures n <= |w| && Step(tok, r1, w[..n], ci) && Accepts(t2, w[n..], ci)
    decreases |r1| + 1, 0
  {
    var m := AcceptsSplit(r1, t2, w[1..], ci);
    n := m + 1;
    CutShift(w, 1, m);
    assert w[..n][0] == w[0];
  }

  lemma {:induction false} StepSplitSep(r1: seq<Token>, t2: seq<Token>, w: string, ci: bool) returns (n: nat)
    requires Step(OptSep, r1 + t2, w, ci)
    ensures n <= |w| && Step(OptSep, r1, w[..n], ci) && Accepts(t2, w[n..], ci)
    decreases |r1| + 1, 0
  {
    if Accepts(r1 + t2, w, ci) {
      n := AcceptsSplit(r1, t2, w, ci);
    } else {
      var m := AcceptsSplit(r1, t2, w[1..], ci);
      n := m + 1;
      CutShift(w, 1, m);
      assert w[..n][0] == w[0];
    }
  }

  lemma {:induction false} StepSplitFrac(r1: seq<Token>, t2: seq<Token>, w: string, ci: bool) returns (n: nat)
    requires Step(OptFrac, r1 + t2, w, ci)
    ensures n <= |w| && Step(OptFrac, r1, w[..n], ci) && Accepts(t2, w[n..], ci)
    decreases |r1| + 1, 0
  {
    if Accepts(r1 + t2, w, ci) {
      n := AcceptsSplit(r1, t2, w, ci);
    } else if |w| >= 2 && IsDecimalMark(w[0]) && IsDigit(w[1]) && Accepts(r1 + t2, w[2..], ci) {
      var m := AcceptsSplit(r1, t2, w[2..], ci);
      n := m + 2;
      CutShift(w, 2, m);
      assert w[..n][0] == w[0] && w[..n][1] == w[1];
    } else {
      var m := AcceptsSplit(r1, t2, w[3..], ci);
      n := m + 3;
      CutShift(w, 3, m);
      assert w[..n][0] == w[0] && w[..n][1] == w[1] && w[..n][2] == w[2];
    }
  }

  lemma {:induction false} StepSplitExact(tok: Token, r1: seq<Token>, t2: seq<Token>, w: string, ci: bool) returns (n: nat)
    requires tok.ExactFrac?
    requires Step(tok, r1 + t2, w, ci)
    ensures n <= |w| && Step(tok, r1, w[..n], ci) && Accepts(t2, w[n..], ci)
    decreases |r1| + 1, 0
  {
    var c := |tok.ds| + 1;
    var m := AcceptsSplit(r1, t2, w[c..], ci);
    n := m + c;
    CutShift(w, c, m);
    assert w[..n][0] == w[0];
    assert w[..n][1..c] == w[1..c];
  }

  // ---------------------------------------------------------------------------
  // The integer part of a numeric token
  // ---------------------------------------------------------------------------

  /**
   * `w` spells the digits `ds` in order, with at most one separator between two
   * neighbouring digits and none before the first or after the last.
   */
  predicate SeparatedForm(ds: string, w: string) {
    && |w| >= 1
    && IsDigit(w[0]) && IsDigit(w[|w| - 1])
    && (forall k | 0 <= k < |w| :: IsDigit(w[k]) || IsSep(w[k]))
    && (forall k | 0 <= k < |w| - 1 :: IsSep(w[k]) ==> IsDigit(w[k + 1]))
    && DigitsOf(w) == ds
  }

  lemma {:induction false} DigitsOfNonEmpty(s: string, k: nat)
    requires k < |s| && IsDigit(s[k])
    ensures |DigitsOf(s)| >= 1
  {
    if k > 0 && !IsDigit(s[0]) {
      DigitsOfNonEmpty(s[1..], k - 1);
    }
  }

  /** One digit of a multi-digit integer part, then an optional separator. */
  lemma FlexibleDigitsCons(ds: string, w: string, ci: bool)
    requires |ds| >= 2
    ensures Accepts(FlexibleDigits(ds), w, ci) <==>
      && |w| > 0 && w[0] == ds[0]
      && (|| Accepts(FlexibleDigits(ds[1..]), w[1..], ci)
          || (|w| > 1 && IsSep(w[1]) && Accepts(FlexibleDigits(ds[1..]), w[2..], ci)))
  {
    var toks := FlexibleDigits(ds);
    assert toks[0] == Digit(ds[0]);
    assert toks[1..][0] == OptSep && toks[1..][1..] == FlexibleDigits(ds[1..]);
    assert Accepts(toks, w, ci) <==> |w| > 0 && w[0] == ds[0] && Accepts(toks[1..], w[1..], ci);
    if |w| > 1 {
      assert w[1..][1..] == w[2..] && w[1..][0] == w[1];
    }
    if |w| > 0 {
      assert Accepts(toks[1..], w[1..], ci) <==> Step(OptSep, FlexibleDigits(ds[1..]), w[1..], ci);
    }
  }

  lemma SeparatedConsDigit(d: char, ds: string, v: string)
    requires IsDigit(d) && SeparatedForm(ds, v)
    ensures SeparatedForm([d] + ds, [d] + v)
  {
    var w := [d] + v;
    assert w[1..] == v;
    assert DigitsOf(w) == [d] + DigitsOf(v);
    assert forall k | 1 <= k < |w| :: w[k] == v[k - 1];
  }

  lemma SeparatedConsSep(d: char, c: char, ds: string, v: string)
    requires IsDigit(d) && IsSep(c) && SeparatedForm(ds, v)
    ensures SeparatedForm([d] + ds, [d, c] + v)
  {
    var w := [d, c] + v;
    DigitsOfSepCons(d, c, v);
    assert w[|w| - 1] == v[|v| - 1];
    SepConsShape(d, c, v);
  }

  lemma DigitsOfSepCons(d: char, c: char, v: string)
    requires IsDigit(d) && IsSep(c)
    ensures DigitsOf([d, c] + v) == [d] + DigitsOf(v)
  {
    var w := [d, c] + v;
    assert !IsDigit(c);
    assert w[1..] == [c] + v;
    DigitsOfAppend([c], v);
    assert DigitsOf([c]) == [] + DigitsOf([]);
    assert DigitsOf(w) == [d] + DigitsOf(w[1..]);
  }

  lemma SepConsShape(d: char, c: char, v: string)
    requires IsDigit(d) && IsSep(c) && |v| >= 1 && IsDigit(v[0])
    requires forall k | 0 <= k < |v| :: IsDigit(v[k]) || IsSep(v[k])
    requires forall k | 0 <= k < |v| - 1 :: IsSep(v[k]) ==> IsDigit(v[k + 1])
    ensures var w := [d, c] + v;
      && (forall k | 0 <= k < |w| :: IsDigit(w[k]) || IsSep(w[k]))
      && (forall k | 0 <= k < |w| - 1 :: IsSep(w[k]) ==> IsDigit(w[k + 1]))
  {
    var w := [d, c] + v;
    forall k | 2 <= k < |w| ensures w[k] == v[k - 2] {
    }
    forall k | 0 <= k < |w| - 1 ensures IsSep(w[k]) ==> IsDigit(w[k + 1]) {
      if k >= 2 {
        assert w[k] == v[k - 2] && w[k + 1] == v[k - 1];
      } else if k == 1 {
        assert w[2] == v[0];
      }
    }
  }

  lemma {:induction false} FlexibleDigitsSound(ds: string, w: string, ci: bool)
    requires |ds| >= 1 && forall k | 0 <= k < |ds| :: IsDigit(ds[k])
    requires Accepts(FlexibleDigits(ds), w, ci)
    ensures SeparatedForm(ds, w)
    decreases |ds|
  {
    if |ds| == 1 {
      var toks := FlexibleDigits(ds);
      assert toks == [Digit(ds[0])];
      assert toks[1..] == [];
      assert Step(Digit(ds[0]), [], w, ci);
      assert w[1..] == [];
      assert w == [ds[0]] + w[1..];
      assert w == [ds[0]];
      assert DigitsOf(w) == [ds[0]] + DigitsOf([]);
    } else {
      FlexibleDigitsCons(ds, w, ci);
      assert ds == [ds[0]] + ds[1..];
      if Accepts(FlexibleDigits(ds[1..]), w[1..], ci) {
        FlexibleDigitsSound(ds[1..], w[1..], ci);
        SeparatedConsDigit(ds[0], ds[1..], w[1..]);
        assert w == [ds[0]] + w[1..];
      } else {
        FlexibleDigitsSound(ds[1..], w[2..], ci);
        SeparatedConsSep(ds[0], w[1], ds[1..], w[2..]);
        assert w == [ds[0], w[1]] + w[2..];
      }
    }
  }

  lemma {:induction false} FlexibleDigitsComplete(ds: string, w: string, ci: bool)
    requires SeparatedForm(ds, w)
    ensures Accepts(FlexibleDigits(ds), w, ci)
    decreases |w|
  {
    var d := w[0];
    assert DigitsOf(w) == [d] + DigitsOf(w[1..]);
    if |w| == 1 {
      assert DigitsOf(w[1..]) == [];
      assert FlexibleDigits(ds) == [Digit(d)];
    } else {
      DigitsOfNonEmpty(w[1..], |w| - 2);
      var ds' := ds[1..];
      FlexibleDigitsCons(ds, w, ci);
      if IsDigit(w[1]) {
        assert SeparatedForm(ds', w[1..]) by {
          assert forall k | 0 <= k < |w| - 1 :: w[1..][k] == w[k + 1];
        }
        FlexibleDigitsComplete(ds', w[1..], ci);
      } else {
        var v := w[2..];
        assert IsDigit(w[1]) || IsSep(w[1]);
        assert w[1..][1..] == v;
        assert DigitsOf(w[1..]) == [] + DigitsOf(v);
        assert SeparatedForm(ds', v) by {
          assert forall k | 0 <= k < |v| :: v[k] == w[k + 2];
        }
        FlexibleDigitsComplete(ds', v, ci);
      }
    }
  }

  /**
   * The integer part compiled for the digits `ds` matches exactly the strings
   * `d1 s1 d2 ... dn`, each `si` empty or one separator.
   */
  lemma IntegerPartLanguage(ds: string, w: string, ci: bool)
    requires |ds| >= 1 && forall k | 0 <= k < |ds| :: IsDigit(ds[k])
    ensures Accepts(FlexibleDigits(ds), w, ci) <==> SeparatedForm(ds, w)
  {
    if Accepts(FlexibleDigits(ds), w, ci) {
      FlexibleDigitsSound(ds, w, ci);
    }
    if SeparatedForm(ds, w) {
      FlexibleDigitsComplete(ds, w, ci);
    }
  }

  // ---------------------------------------------------------------------------
  // What the compiled pattern keeps of the pattern
  // ---------------------------------------------------------------------------

  /** The shortest string each token list accepts, taking every optional part as absent. */
  function Witness(toks: seq<Token>): string {
    if toks == [] then []
    else
      var head := match toks[0]
        case Lit(c) => [c]
        case Digit(d) => [d]
        case OptSep => []
        case OptFrac => []
        case ExactFrac(ds) => ['.'] + ds;
      head + Witness(toks[1..])
  }

  /**
   * The pattern with every separator that follows a digit run (directly or
   * after further separators) deleted; `inRun` says a digit run is open.
   */
  function Erase(s: string, inRun: bool): string {
    if s == [] then []
    else if IsDigit(s[0]) then [s[0]] + Erase(s[1..], true)
    else if inRun && IsSep(s[0]) then Erase(s[1..], true)
    else [s[0]] + Erase(s[1..], false)
  }

  lemma {:induction false} WitnessAccepted(toks: seq<Token>, ci: bool)
    ensures Accepts(toks, Witness(toks), ci)
  {
    if toks != [] {
      var w := Witness(toks);
      WitnessAccepted(toks[1..], ci);
      match toks[0]
      case Lit(c) => assert w[1..] == Witness(toks[1..]);
      case Digit(d) => assert w[1..] == Witness(toks[1..]);
      case OptSep => assert w == Witness(toks[1..]);
      case OptFrac => assert w == Witness(toks[1..]);
      case ExactFrac(ds) =>
        assert w[|ds| + 1..] == Witness(toks[1..]);
        assert w[1..|ds| + 1] == ds;
    }
  }

  lemma {:induction false} WitnessConcat(a: seq<Token>, b: seq<Token>)
    ensures Witness(a + b) == Witness(a) + Witness(b)
  {
    if a != [] {
      assert (a + b)[0] == a[0] && (a + b)[1..] == a[1..] + b;
      WitnessConcat(a[1..], b);
    } else {
      assert a + b == b;
    }
  }

  lemma {:induction false} WitnessFlexibleDigits(ds: string)
    ensures Witness(FlexibleDigits(ds)) == ds
    decreases |ds|
  {
    if |ds| >= 2 {
      var toks := FlexibleDigits(ds);
      WitnessFlexibleDigits(ds[1..]);
      assert toks[0] == Digit(ds[0]);
      assert toks[1..][0] == OptSep && toks[1..][1..] == FlexibleDigits(ds[1..]);
    } else if |ds| == 1 {
      assert FlexibleDigits(ds) == [Digit(ds[0])];
    }
  }

  /** Erasing across a digit run drops its separators and keeps its digits. */
  lemma {:induction false} EraseRun(pat: string, i: nat, j: nat)
    requires i <= j <= |pat|
    requires forall k | i <= k < j :: IsDigit(pat[k]) || IsSep(pat[k])
    requires j < |pat| ==> !IsDigit(pat[j]) && !IsSep(pat[j])
    ensures Erase(pat[i..], true) == DigitsOf(pat[i..j]) + Erase(pat[j..], false)
    decreases j - i
  {
    if i == j {
      EraseRunEnd(pat, j);
    } else {
      EraseRun(pat, i + 1, j);
      EraseRunStep(pat, i, j);
    }
  }

  /** Where the run ends, erasing in a run and erasing outside one agree. */
  lemma EraseRunEnd(pat: string, j: nat)
    requires j <= |pat|
    requires j < |pat| ==> !IsDigit(pat[j]) && !IsSep(pat[j])
    ensures Erase(pat[j..], true) == DigitsOf(pat[j..j]) + Erase(pat[j..], false)
  {
    assert DigitsOf(pat[j..j]) == [];
    if j < |pat| {
      assert pat[j..][0] == pat[j] && pat[j..][1..] == pat[j + 1..];
    }
  }

  lemma EraseRunStep(pat: string, i: nat, j: nat)
    requires i < j <= |pat| && (IsDigit(pat[i]) || IsSep(pat[i]))
    requires Erase(pat[i + 1..], true) == DigitsOf(pat[i + 1..j]) + Erase(pat[j..], false)
    ensures Erase(pat[i..], true) == DigitsOf(pat[i..j]) + Erase(pat[j..], false)
  {
    EraseInRunAt(pat, i);
    DigitsOfSlice(pat, i, j);
    Regroup(Erase(pat[i..], true), DigitsOf(pat[i..j]),
            if IsDigit(pat[i]) then [pat[i]] else [], DigitsOf(pat[i + 1..j]), Erase(pat[j..], false));
  }

  lemma Regroup(x: string, y: string, h: string, d: string, e: string)
    requires x == h + (d + e) && y == h + d
    ensures x == y + e
  {
  }

  lemma EraseInRunAt(pat: string, i: nat)
    requires i < |pat| && (IsDigit(pat[i]) || IsSep(pat[i]))
    ensures Erase(pat[i..], true) == (if IsDigit(pat[i]) then [pat[i]] else []) + Erase(pat[i + 1..], true)
  {
    assert pat[i..][0] == pat[i] && pat[i..][1..] == pat[i + 1..];
    EraseInRunStep(pat[i..]);
  }

  lemma EraseInRunStep(s: string)
    requires s != [] && (IsDigit(s[0]) || IsSep(s[0]))
    ensures Erase(s, true) == (if IsDigit(s[0]) then [s[0]] else []) + Erase(s[1..], true)
  {
  }

  lemma {:induction false} WitnessOfBaseFrom(pat: string, i: nat)
    requires i <= |pat|
    ensures Witness(BaseFrom(pat, i)) == Erase(pat[i..], false)
    decreases |pat| - i
  {
    if i < |pat| {
      if IsDigit(pat[i]) {
        var t := ParseNumberToken(pat, i);
        WitnessOfBaseFrom(pat, t.next);
        WitnessOfNumber(pat, i);
      } else {
        WitnessOfBaseFrom(pat, i + 1);
        WitnessOfLiteral(pat, i);
      }
    }
  }

  /** One step of `WitnessOfBaseFrom` at a digit: the number token leaves its digits. */
  lemma WitnessOfNumber(pat: string, i: nat)
    requires i < |pat| && IsDigit(pat[i])
    requires Witness(BaseFrom(pat, ParseNumberToken(pat, i).next)) == Erase(pat[ParseNumberToken(pat, i).next..], false)
    ensures Witness(BaseFrom(pat, i)) == Erase(pat[i..], false)
  {
    WitnessNumberStep(pat, i);
    EraseNumberStep(pat, i);
  }

  lemma WitnessNumberStep(pat: string, i: nat)
    requires i < |pat| && IsDigit(pat[i])
    ensures Witness(BaseFrom(pat, i))
         == ParseNumberToken(pat, i).intDigits + Witness(BaseFrom(pat, ParseNumberToken(pat, i).next))
  {
    var t := ParseNumberToken(pat, i);
    var head := NumberTokens(t);
    var tail := BaseFrom(pat, t.next);
    assert BaseFrom(pat, i) == head + tail;
    WitnessOfNumberTokens(t);
    WitnessConcat(head, tail);
  }

  lemma EraseNumberStep(pat: string, i: nat)
    requires i < |pat| && IsDigit(pat[i])
    ensures Erase(pat[i..], false)
         == ParseNumberToken(pat, i).intDigits + Erase(pat[ParseNumberToken(pat, i).next..], false)
  {
    var t := ParseNumberToken(pat, i);
    EraseDigitHead(pat[i..]);
    EraseRun(pat, i, t.next);
  }

  /** A number token without a fixed fraction leaves just its digits in the witness. */
  lemma WitnessOfNumberTokens(t: NumberToken)
    requires t.frac == None
    ensures Witness(NumberTokens(t)) == t.intDigits
  {
    WitnessConcat(FlexibleDigits(t.intDigits), [OptFrac]);
    WitnessFlexibleDigits(t.intDigits);
    assert Witness([OptFrac]) == [] + Witness([]);
  }

  /** At a digit, erasing does not depend on whether a run is open. */
  lemma EraseDigitHead(s: string)
    requires s != [] && IsDigit(s[0])
    ensures Erase(s, false) == Erase(s, true)
  {
  }

  /** One step of `WitnessOfBaseFrom` at a non-digit: the literal keeps its character. */
  lemma WitnessOfLiteral(pat: string, i: nat)
    requires i < |pat| && !IsDigit(pat[i])
    requires Witness(BaseFrom(pat, i + 1)) == Erase(pat[i + 1..], false)
    ensures Witness(BaseFrom(pat, i)) == Erase(pat[i..], false)
  {
    assert BaseFrom(pat, i) == [Lit(pat[i])] + BaseFrom(pat, i + 1);
    WitnessConcat([Lit(pat[i])], BaseFrom(pat, i + 1));
    assert Witness([Lit(pat[i])]) == [pat[i]] + Witness([]);
    assert pat[i..][1..] == pat[i + 1..];
  }

  /**
   * Every non-digit character outside a digit run compiles to one literal and
   * every digit to one digit token, in order; separators inside or trailing a
   * digit run leave no mandatory trace. So the pattern with those separators
   * deleted is always matched.
   */
  lemma CompiledPatternWitness(pat: string, ci: bool)
    ensures Witness(BuildFlexibleBase(pat)) == Erase(pat, false)
    ensures Accepts(BuildFlexibleBase(pat), Erase(pat, false), ci)
  {
    assert pat[0..] == pat;
    WitnessOfBaseFrom(pat, 0);
    WitnessAccepted(BuildFlexibleBase(pat), ci);
  }

  /** How many characters a token needs at least: every optional part taken as absent. */
  function MinWidth(t: Token): nat {
    match t
    case Lit(_) => 1
    case Digit(_) => 1
    case OptSep => 0
    case OptFrac => 0
    case ExactFrac(ds) => |ds| + 1
  }

  lemma WitnessStep(toks: seq<Token>)
    requires toks != []
    ensures |Witness(toks)| == MinWidth(toks[0]) + |Witness(toks[1..])|
  {
  }

  /** No text the token list accepts is shorter than its witness. */
  lemma {:induction false} WitnessShortest(toks: seq<Token>, w: string, ci: bool)
    requires Accepts(toks, w, ci)
    ensures |w| >= |Witness(toks)|
    decreases |toks|
  {
    if toks != [] {
      WitnessStep(toks);
      var rest := toks[1..];
      match toks[0]
      case Lit(_) => WitnessShortest(rest, w[1..], ci);
      case Digit(_) => WitnessShortest(rest, w[1..], ci);
      case OptSep =>
        if Accepts(rest, w, ci) {
          WitnessShortest(rest, w, ci);
        } else {
          WitnessShortest(rest, w[1..], ci);
        }
      case OptFrac =>
        if Accepts(rest, w, ci) {
          WitnessShortest(rest, w, ci);
        } else if |w| >= 2 && IsDecimalMark(w[0]) && IsDigit(w[1]) && Accepts(rest, w[2..], ci) {
          WitnessShortest(rest, w[2..], ci);
        } else {
          WitnessShortest(rest, w[3..], ci);
        }
      case ExactFrac(ds) => WitnessShortest(rest, w[|ds| + 1..], ci);
    }
  }

  /** The shortest text a compiled pattern matches is the pattern with its run separators erased. */
  lemma CompiledPatternShortest(pat: string, w: string, ci: bool)
    requires Accepts(BuildFlexibleBase(pat), w, ci)
    ensures |w| >= |Erase(pat, false)|
  {
    CompiledPatternWitness(pat, ci);
    WitnessShortest(BuildFlexibleBase(pat), w, ci);
  }

  // ---------------------------------------------------------------------------
  // The numeric tolerance of a compiled number
  // ---------------------------------------------------------------------------

  /** A pattern that is one run of digits and separators, starting with a digit. */
  predicate NumberPattern(pat: string) {
    pat != [] && IsDigit(pat[0]) && forall k | 0 <= k < |pat| :: IsDigit(pat[k]) || IsSep(pat[k])
  }

  /** What `(?:[.,]\d{1,2})?` matches on its own: nothing, or a decimal mark and one or two digits. */
  predicate DecimalTail(v: string) {
    v == [] || (2 <= |v| <= 3 && IsDecimalMark(v[0]) && forall k | 1 <= k < |v| :: IsDigit(v[k]))
  }

  /** The digits `ds` with optional separators between them, then an optional decimal tail. */
  predicate NumberText(ds: string, w: string) {
    exists n | 0 <= n <= |w| :: SeparatedForm(ds, w[..n]) && DecimalTail(w[n..])
  }

  lemma OptFracLanguage(v: string, ci: bool)
    ensures Accepts([OptFrac], v, ci) <==> DecimalTail(v)
  {
    assert [OptFrac][1..] == [];
    if |v| == 2 {
      assert v[2..] == [];
    } else if |v| == 3 {
      assert v[3..] == [];
    }
  }

  /** A number pattern compiles to one numeric token: its digits, then the optional tail. */
  lemma NumberPatternTokens(pat: string)
    requires NumberPattern(pat)
    ensures BuildFlexibleBase(pat) == FlexibleDigits(DigitsOf(pat)) + [OptFrac]
  {
    var t := ParseNumberToken(pat, 0);
    assert t.next == |pat|;
    assert pat[0..|pat|] == pat;
    assert BaseFrom(pat, t.next) == [];
  }

  /**
   * The compiled number matches exactly its digits in order, each pair
   * optionally separated by one separator, optionally followed by a decimal
   * mark and one or two digits, whatever separators the pattern itself used.
   */
  lemma NumberPatternLanguage(pat: string, w: string, ci: bool)
    requires NumberPattern(pat)
    ensures Accepts(BuildFlexibleBase(pat), w, ci) <==> NumberText(DigitsOf(pat), w)
  {
    NumberPatternTokens(pat);
    DigitsOfNonEmpty(pat, 0);
    if Accepts(BuildFlexibleBase(pat), w, ci) {
      NumberTokensSound(DigitsOf(pat), w, ci);
    }
    if NumberText(DigitsOf(pat), w) {
      NumberTokensComplete(DigitsOf(pat), w, ci);
    }
  }

  lemma NumberTokensSound(ds: string, w: string, ci: bool)
    requires |ds| >= 1 && forall k | 0 <= k < |ds| :: IsDigit(ds[k])
    requires Accepts(FlexibleDigits(ds) + [OptFrac], w, ci)
    ensures NumberText(ds, w)
  {
    var n := AcceptsSplit(FlexibleDigits(ds), [OptFrac], w, ci);
    IntegerPartLanguage(ds, w[..n], ci);
    OptFracLanguage(w[n..], ci);
  }

  lemma NumberTokensComplete(ds: string, w: string, ci: bool)
    requires |ds| >= 1 && forall k | 0 <= k < |ds| :: IsDigit(ds[k])
    requires NumberText(ds, w)
    ensures Accepts(FlexibleDigits(ds) + [OptFrac], w, ci)
  {
    var n :| 0 <= n <= |w| && SeparatedForm(ds, w[..n]) && DecimalTail(w[n..]);
    IntegerPartLanguage(ds, w[..n], ci);
    OptFracLanguage(w[n..], ci);
    AcceptsConcat(FlexibleDigits(ds), [OptFrac], w[..n], w[n..], ci);
    assert w[..n] + w[n..] == w;
  }

  // ---------------------------------------------------------------------------
  // A pattern does not always match its own text
  // ---------------------------------------------------------------------------

  /**
   * The run loop also swallows separators that follow the last digit of a
   * run, so a pattern such as "1 a" (a number, a space, a word) compiles to
   * `1(?:[.,]\d{1,2})?a` and does not match the text "1 a".
   */
  lemma TrailingSeparatorBreaksSelfMatch(ci: bool)
    ensures !Accepts(BuildFlexibleBase("1 a"), "1 a", ci)
  {
    var pat := "1 a";
    var toks := BuildFlexibleBase(pat);
    OneSpaceATokens();
    assert toks[1..] == [OptFrac, Lit('a')];
    assert toks[1..][1..] == [Lit('a')];
    assert pat[0] == '1' && pat[1..][0] == ' ';
    assert !Accepts([Lit('a')], pat[1..], ci);
  }

  /** The tokens of "1 a": the space went into the numeric run. */
  lemma OneSpaceATokens()
    ensures BuildFlexibleBase("1 a") == [Digit('1'), OptFrac, Lit('a')]
  {
    var pat := "1 a";
    assert pat[0] == '1' && pat[1] == ' ' && pat[2] == 'a';
    assert ScanRun(pat, 2) == ([], 2);
    assert ScanRun(pat, 1) == ([], 2);
    assert ScanRun(pat, 0).1 == 2;
    assert ScanRun(pat, 0).0 == ['1'] + [];
    assert FracTail(pat, 2) == (None, 2);
    var t := ParseNumberToken(pat, 0);
    assert t == NumberToken(['1'], None, 2);
    assert FlexibleDigits(['1']) == [Digit('1')];
    assert BaseFrom(pat, 3) == [];
    assert BaseFrom(pat, 2) == [Lit('a')];
  }

  // ---------------------------------------------------------------------------
  // The compiler with the run loop corrected
  // ---------------------------------------------------------------------------

  /**
   * The run loop corrected: from a digit, a separator is consumed only when a
   * digit follows it, so the run always ends at a digit.
   */
  function ScanRunFixed(pat: string, i: nat): (r: (string, nat))
    requires i < |pat| && IsDigit(pat[i])
    ensures i < r.1 <= |pat| && IsDigit(pat[r.1 - 1])
    ensures r.1 < |pat| ==> !IsDigit(pat[r.1])
    ensures r.1 + 1 < |pat| && IsSep(pat[r.1]) ==> !IsDigit(pat[r.1 + 1])
    ensures |r.0| >= 1 && r.0[0] == pat[i]
    decreases |pat| - i
  {
    if i + 1 < |pat| && IsDigit(pat[i + 1]) then
      var (ds, j) := ScanRunFixed(pat, i + 1);
      ([pat[i]] + ds, j)
    else if i + 2 < |pat| && IsSep(pat[i + 1]) && IsDigit(pat[i + 2]) then
      var (ds, j) := ScanRunFixed(pat, i + 2);
      ([pat[i]] + ds, j)
    else
      ([pat[i]], i + 1)
  }

  function ParseNumberTokenFixed(pat: string, i: nat): (t: NumberToken)
    requires i < |pat| && IsDigit(pat[i])
    ensures i < t.next <= |pat|
    ensures t.frac == None
  {
    var (ds, j) := ScanRunFixed(pat, i);
    var (frac, k) := FracTail(pat, j);
    NumberToken(ds, frac, k)
  }

  function BaseFromFixed(pat: string, i: nat): seq<Token>
    requires i <= |pat|
    decreases |pat| - i
  {
    if i == |pat| then []
    else if IsDigit(pat[i]) then
      var t := ParseNumberTokenFixed(pat, i);
      NumberTokens(t) + BaseFromFixed(pat, t.next)
    else
      [Lit(pat[i])] + BaseFromFixed(pat, i + 1)
  }

  function BuildFlexibleBaseFixed(pat: string): seq<Token> {
    BaseFromFixed(pat, 0)
  }

  lemma {:induction false} RunFixedAccepted(pat: string, i: nat, ci: bool)
    requires i < |pat| && IsDigit(pat[i])
    ensures Accepts(FlexibleDigits(ScanRunFixed(pat, i).0), pat[i..ScanRunFixed(pat, i).1], ci)
    decreases |pat| - i
  {
    var (ds, j) := ScanRunFixed(pat, i);
    var w := pat[i..j];
    if i + 1 < |pat| && IsDigit(pat[i + 1]) {
      RunFixedAccepted(pat, i + 1, ci);
      var ds' := ScanRunFixed(pat, i + 1).0;
      assert ds == [pat[i]] + ds';
      assert FlexibleDigits(ds) == [Digit(pat[i]), OptSep] + FlexibleDigits(ds');
      assert w[1..] == pat[i + 1..j];
      assert Step(OptSep, FlexibleDigits(ds'), w[1..], ci);
    } else if i + 2 < |pat| && IsSep(pat[i + 1]) && IsDigit(pat[i + 2]) {
      RunFixedAccepted(pat, i + 2, ci);
      var ds' := ScanRunFixed(pat, i + 2).0;
      assert ds == [pat[i]] + ds';
      assert FlexibleDigits(ds) == [Digit(pat[i]), OptSep] + FlexibleDigits(ds');
      assert w[1..][1..] == pat[i + 2..j];
      assert Step(OptSep, FlexibleDigits(ds'), w[1..], ci);
    } else {
      assert FlexibleDigits(ds) == [Digit(pat[i])];
      assert w == [pat[i]];
    }
  }

  lemma {:induction false} SelfMatchFrom(pat: string, i: nat, ci: bool)
    requires i <= |pat|
    ensures Accepts(BaseFromFixed(pat, i), pat[i..], ci)
    decreases |pat| - i
  {
    if i < |pat| {
      if IsDigit(pat[i]) {
        SelfMatchFrom(pat, ParseNumberTokenFixed(pat, i).next, ci);
        SelfMatchNumber(pat, i, ci);
      } else {
        SelfMatchFrom(pat, i + 1, ci);
        SelfMatchLiteral(pat, i, ci);
      }
    }
  }

  /** One step of `SelfMatchFrom` at a digit: the number token matches the run it was built from. */
  lemma SelfMatchNumber(pat: string, i: nat, ci: bool)
    requires i < |pat| && IsDigit(pat[i])
    requires Accepts(BaseFromFixed(pat, ParseNumberTokenFixed(pat, i).next), pat[ParseNumberTokenFixed(pat, i).next..], ci)
    ensures Accepts(BaseFromFixed(pat, i), pat[i..], ci)
  {
    var t := ParseNumberTokenFixed(pat, i);
    RunFixedAccepted(pat, i, ci);
    assert Accepts([OptFrac], [], ci) by {
      assert [OptFrac][1..] == [];
    }
    AcceptsConcat(FlexibleDigits(t.intDigits), [OptFrac], pat[i..t.next], [], ci);
    assert pat[i..t.next] + [] == pat[i..t.next];
    AcceptsConcat(NumberTokens(t), BaseFromFixed(pat, t.next), pat[i..t.next], pat[t.next..], ci);
    assert pat[i..t.next] + pat[t.next..] == pat[i..];
  }

  /** One step of `SelfMatchFrom` at a non-digit: the literal matches its own character. */
  lemma SelfMatchLiteral(pat: string, i: nat, ci: bool)
    requires i < |pat| && !IsDigit(pat[i])
    requires Accepts(BaseFromFixed(pat, i + 1), pat[i + 1..], ci)
    ensures Accepts(BaseFromFixed(pat, i), pat[i..], ci)
  {
    var toks := BaseFromFixed(pat, i);
    assert toks[0] == Lit(pat[i]) && toks[1..] == BaseFromFixed(pat, i + 1);
    assert pat[i..][1..] == pat[i + 1..];
  }

  /** With the corrected run loop, every pattern matches its own text. */
  lemma SelfMatch(pat: string, ci: bool)
    ensures Accepts(BuildFlexibleBaseFixed(pat), pat, ci)
  {
    SelfMatchFrom(pat, 0, ci);
    assert pat[0..] == pat;
  }
  /** The corrected compiler, like the original, never accepts the empty string for a non-empty pattern. */
  lemma FixedPatternConsumes(pat: string)
    requires |pat| >= 1
    ensures Consuming(BuildFlexibleBaseFixed(pat))
  {
    var toks := BuildFlexibleBaseFixed(pat);
    if IsDigit(pat[0]) {
      var t := ParseNumberTokenFixed(pat, 0);
      assert toks[0] == Digit(t.intDigits[0]);
    } else {
      assert toks[0] == Lit(pat[0]);
    }
  }
}
