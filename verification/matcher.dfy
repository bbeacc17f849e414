/**
 * The compiled matcher (`buildRegex`) and what the page's regular expression
 * engine does with it: the end a match attempt at one position reaches, in the
 * engine's backtracking order, and the global left-to-right scan `exec` performs.
 */
module Matcher {
  import opened Chars
  import opened Wrappers
  import opened Pattern
  import opened Rules

  /** A compiled rule: the pattern's tokens, the whole-word lookarounds and the `i` flag. */
  datatype Matcher = Matcher(tokens: seq<Token>, wholeWord: bool, ignoreCase: bool)

  /** A match: the half-open range `[start, end)` of the text. */
  datatype Span = Span(start: nat, end: nat)

  /** `buildRegex`: the flags are `g` when case-sensitive and `gi` otherwise. */
  function BuildRegex(rule: Rule): (m: Matcher)
    ensures m.tokens == BuildFlexibleBase(rule.pattern)
    ensures m.wholeWord == rule.wholeWord
    ensures m.ignoreCase <==> !rule.caseSensitive
    ensures |rule.pattern| >= 1 ==> Consuming(m.tokens)
  {
    NonEmptyPatternConsumes(rule.pattern);
    Matcher(BuildFlexibleBase(rule.pattern), rule.wholeWord, !rule.caseSensitive)
  }

  /** `(?<![A-Za-z0-9_])` at position `i`, when whole-word matching is on. */
  predicate StartOk(s: string, i: nat, ww: bool)
    requires i <= |s|
  {
    !ww || i == 0 || !IsWordChar(s[i - 1])
  }

  /** `(?![A-Za-z0-9_])` at position `e`, when whole-word matching is on. */
  predicate EndOk(s: string, e: nat, ww: bool)
    requires e <= |s|
  {
    !ww || e == |s| || !IsWordChar(s[e])
  }

  /**
   * The end of the first successful match attempt of `toks` at `i`, trying the
   * alternatives in the order a backtracking engine does: a greedy `?` tries
   * its atom before the empty string and `\d{1,2}` tries two digits before one.
   * The trailing lookahead is checked when the token list is exhausted.
   */
  function FirstEnd(toks: seq<Token>, s: string, i: nat, ci: bool, ww: bool): (r: Option<nat>)
    requires i <= |s|
    ensures r.Some? ==> i <= r.value <= |s|
    ensures r.Some? && Consuming(toks) ==> r.value > i
    decreases |toks|, 1
  {
    if toks == [] then
      if EndOk(s, i, ww) then Some(i) else None
    else
      StepEnd(toks[0], toks[1..], s, i, ci, ww)
  }

  /** The first successful attempt of the token `t` at `i` followed by `rest`. */
  function StepEnd(t: Token, rest: seq<Token>, s: string, i: nat, ci: bool, ww: bool): (r: Option<nat>)
    requires i <= |s|
    ensures r.Some? ==> i <= r.value <= |s|
    ensures r.Some? && (IsMandatory(t) || Consuming(rest)) ==> r.value > i
    decreases |rest| + 1, 0
  {
    match t
    case Lit(c) =>
      if i < |s| && CharMatches(c, s[i], ci) then FirstEnd(rest, s, i + 1, ci, ww) else None
    case Digit(d) =>
      if i < |s| && s[i] == d then FirstEnd(rest, s, i + 1, ci, ww) else None
    case OptSep =>
      var taken := if i < |s| && IsSep(s[i]) then FirstEnd(rest, s, i + 1, ci, ww) else None;
      if taken.Some? then taken else FirstEnd(rest, s, i, ci, ww)
    case OptFrac =>
      var two :=
        if i + 2 < |s| && IsDecimalMark(s[i]) && IsDigit(s[i + 1]) && IsDigit(s[i + 2])
        then FirstEnd(rest, s, i + 3, ci, ww) else None;
      var one :=
        if i + 1 < |s| && IsDecimalMark(s[i]) && IsDigit(s[i + 1])
        then FirstEnd(rest, s, i + 2, ci, ww) else None;
      if two.Some? then two else if one.Some? then one else FirstEnd(rest, s, i, ci, ww)
    case ExactFrac(ds) =>
      if i + |ds| < |s| && IsDecimalMark(s[i]) && s[i + 1..i + 1 + |ds|] == ds
      then FirstEnd(rest, s, i + 1 + |ds|, ci, ww) else None
  }

  /** The match `exec` finds when it tries position `i`. */
  function MatchAt(m: Matcher, s: string, i: nat): (r: Option<nat>)
    requires i <= |s|
    ensures r.Some? ==> i <= r.value <= |s|
    ensures r.Some? && Consuming(m.tokens) ==> r.value > i
  {
    if StartOk(s, i, m.wholeWord) then FirstEnd(m.tokens, s, i, m.ignoreCase, m.wholeWord) else None
  }

  lemma SliceOfSlice(s: string, i: nat, e: nat, n: nat)
    requires 1 <= n && i + n <= e <= |s|
    ensures s[i..e][1..n] == s[i + 1..i + n]
    ensures s[i..e][n..] == s[i + n..e]
  {
    assert forall k | 0 <= k < n - 1 :: s[i..e][1..n][k] == s[i + 1 + k];
  }

  lemma {:induction false} FirstEndSound(toks: seq<Token>, s: string, i: nat, ci: bool, ww: bool)
    requires i <= |s| && FirstEnd(toks, s, i, ci, ww).Some?
    ensures Accepts(toks, s[i..FirstEnd(toks, s, i, ci, ww).value], ci)
    ensures EndOk(s, FirstEnd(toks, s, i, ci, ww).value, ww)
    decreases |toks|, 2
  {
    if toks != [] {
      StepEndSound(toks[0], toks[1..], s, i, ci, ww);
    }
  }

  lemma {:induction false} StepEndSound(t: Token, rest: seq<Token>, s: string, i: nat, ci: bool, ww: bool)
    requires i <= |s| && StepEnd(t, rest, s, i, ci, ww).Some?
    ensures Step(t, rest, s[i..StepEnd(t, rest, s, i, ci, ww).value], ci)
    ensures EndOk(s, StepEnd(t, rest, s, i, ci, ww).value, ww)
    decreases |rest| + 1, 1
  {
    match t
    case Lit(_) => StepEndSoundChar(t, rest, s, i, ci, ww);
    case Digit(_) => StepEndSoundChar(t, rest, s, i, ci, ww);
    case OptSep => StepEndSoundSep(rest, s, i, ci, ww);
    case OptFrac => StepEndSoundFrac(rest, s, i, ci, ww);
    case ExactFrac(_) => StepEndSoundExact(t, rest, s, i, ci, ww);
  }

  lemma {:induction false} StepEndSoundChar(t: Token, rest: seq<Token>, s: string, i: nat, ci: bool, ww: bool)
    requires t.Lit? || t.Digit?
    requires i <= |s| && StepEnd(t, rest, s, i, ci, ww).Some?
    ensures Step(t, rest, s[i..StepEnd(t, rest, s, i, ci, ww).value], ci)
    ensures EndOk(s, StepEnd(t, rest, s, i, ci, ww).value, ww)
    decreases |rest| + 1, 0
  {
    var e := StepEnd(t, rest, s, i, ci, ww).value;
    FirstEndSound(rest, s, i + 1, ci, ww);
    assert s[i..e][1..] == s[i + 1..e];
  }

  lemma {:induction false} StepEndSoundSep(rest: seq<Token>, s: string, i: nat, ci: bool, ww: bool)
    requires i <= |s| && StepEnd(OptSep, rest, s, i, ci, ww).Some?
    ensures Step(OptSep, rest, s[i..StepEnd(OptSep, rest, s, i, ci, ww).value], ci)
    ensures EndOk(s, StepEnd(OptSep, rest, s, i, ci, ww).value, ww)
    decreases |rest| + 1, 0
  {
    var e := StepEnd(OptSep, rest, s, i, ci, ww).value;
    if i < |s| && IsSep(s[i]) && FirstEnd(rest, s, i + 1, ci, ww).Some? {
      FirstEndSound(rest, s, i + 1, ci, ww);
      assert s[i..e][1..] == s[i + 1..e];
    } else {
      FirstEndSound(rest, s, i, ci, ww);
    }
  }

  lemma {:induction false} StepEndSoundFrac(rest: seq<Token>, s: string, i: nat, ci: bool, ww: bool)
    requires i <= |s| && StepEnd(OptFrac, rest, s, i, ci, ww).Some?
    ensures Step(OptFrac, rest, s[i..StepEnd(OptFrac, rest, s, i, ci, ww).value], ci)
    ensures EndOk(s, StepEnd(OptFrac, rest, s, i, ci, ww).value, ww)
    decreases |rest| + 1, 0
  {
    var e := StepEnd(OptFrac, rest, s, i, ci, ww).value;
    var w := s[i..e];
    if i + 2 < |s| && IsDecimalMark(s[i]) && IsDigit(s[i + 1]) && IsDigit(s[i + 2])
       && FirstEnd(rest, s, i + 3, ci, ww).Some? {
      FirstEndSound(rest, s, i + 3, ci, ww);
      assert w[3..] == s[i + 3..e];
    } else if i + 1 < |s| && IsDecimalMark(s[i]) && IsDigit(s[i + 1])
       && FirstEnd(rest, s, i + 2, ci, ww).Some? {
      FirstEndSound(rest, s, i + 2, ci, ww);
      assert w[2..] == s[i + 2..e];
    } else {
      FirstEndSound(rest, s, i, ci, ww);
    }
  }

  lemma {:induction false} StepEndSoundExact(t: Token, rest: seq<Token>, s: string, i: nat, ci: bool, ww: bool)
    requires t.ExactFrac?
    requires i <= |s| && StepEnd(t, rest, s, i, ci, ww).Some?
    ensures Step(t, rest, s[i..StepEnd(t, rest, s, i, ci, ww).value], ci)
    ensures EndOk(s, StepEnd(t, rest, s, i, ci, ww).value, ww)
    decreases |rest| + 1, 0
  {
    var e := StepEnd(t, rest, s, i, ci, ww).value;
    var n := |t.ds| + 1;
    FirstEndSound(rest, s, i + n, ci, ww);
    SliceOfSlice(s, i, e, n);
  }

  lemma {:induction false} FirstEndComplete(toks: seq<Token>, s: string, i: nat, e: nat, ci: bool, ww: bool)
    requires i <= e <= |s| && Accepts(toks, s[i..e], ci) && EndOk(s, e, ww)
    ensures FirstEnd(toks, s, i, ci, ww).Some?
    decreases |toks|, 2
  {
    if toks == [] {
      assert e == i;
    } else {
      StepEndComplete(toks[0], toks[1..], s, i, e, ci, ww);
    }
  }

  lemma {:induction false} StepEndComplete(t: Token, rest: seq<Token>, s: string, i: nat, e: nat, ci: bool, ww: bool)
    requires i <= e <= |s| && Step(t, rest, s[i..e], ci) && EndOk(s, e, ww)
    ensures StepEnd(t, rest, s, i, ci, ww).Some?
    decreases |rest| + 1, 1
  {
    match t
    case Lit(_) => StepEndCompleteChar(t, rest, s, i, e, ci, ww);
    case Digit(_) => StepEndCompleteChar(t, rest, s, i, e, ci, ww);
    case OptSep => StepEndCompleteSep(rest, s, i, e, ci, ww);
    case OptFrac => StepEndCompleteFrac(rest, s, i, e, ci, ww);
    case ExactFrac(_) => StepEndCompleteExact(t, rest, s, i, e, ci, ww);
  }

  lemma {:induction false} StepEndCompleteChar(t: Token, rest: seq<Token>, s: string, i: nat, e: nat, ci: bool, ww: bool)
    requires t.Lit? || t.Digit?
    requires i <= e <= |s| && Step(t, rest, s[i..e], ci) && EndOk(s, e, ww)
    ensures StepEnd(t, rest, s, i, ci, ww).Some?
    decreases |rest| + 1, 0
  {
    assert s[i..e][1..] == s[i + 1..e];
    FirstEndComplete(rest, s, i + 1, e, ci, ww);
  }

  lemma {:induction false} StepEndCompleteSep(rest: seq<Token>, s: string, i: nat, e: nat, ci: bool, ww: bool)
    requires i <= e <= |s| && Step(OptSep, rest, s[i..e], ci) && EndOk(s, e, ww)
    ensures StepEnd(OptSep, rest, s, i, ci, ww).Some?
    decreases |rest| + 1, 0
  {
    var w := s[i..e];
    if Accepts(rest, w, ci) {
      FirstEndComplete(rest, s, i, e, ci, ww);
    } else {
      assert w[1..] == s[i + 1..e];
      FirstEndComplete(rest, s, i + 1, e, ci, ww);
    }
  }

  lemma {:induction false} StepEndCompleteFrac(rest: seq<Token>, s: string, i: nat, e: nat, ci: bool, ww: bool)
    requires i <= e <= |s| && Step(OptFrac, rest, s[i..e], ci) && EndOk(s, e, ww)
    ensures StepEnd(OptFrac, rest, s, i, ci, ww).Some?
    decreases |rest| + 1, 0
  {
    var w := s[i..e];
    if Accepts(rest, w, ci) {
      FirstEndComplete(rest, s, i, e, ci, ww);
    } else if |w| >= 2 && IsDecimalMark(w[0]) && IsDigit(w[1]) && Accepts(rest, w[2..], ci) {
      assert w[2..] == s[i + 2..e];
      FirstEndComplete(rest, s, i + 2, e, ci, ww);
    } else {
      assert w[3..] == s[i + 3..e];
      FirstEndComplete(rest, s, i + 3, e, ci, ww);
    }
  }

  lemma {:induction false} StepEndCompleteExact(t: Token, rest: seq<Token>, s: string, i: nat, e: nat, ci: bool, ww: bool)
    requires t.ExactFrac?
    requires i <= e <= |s| && Step(t, rest, s[i..e], ci) && EndOk(s, e, ww)
    ensures StepEnd(t, rest, s, i, ci, ww).Some?
    decreases |rest| + 1, 0
  {
    var n := |t.ds| + 1;
    assert |s[i..e]| >= n;
    SliceOfSlice(s, i, e, n);
    FirstEndComplete(rest, s, i + n, e, ci, ww);
  }

  /**
   * A match found at `i` spans a string in the pattern's language and respects
   * the whole-word lookarounds; conversely, whenever such a string starts at
   * `i`, the attempt at `i` succeeds. Without `wholeWord` both lookaround
   * conditions are vacuous.
   */
  lemma MatchAtCharacterized(m: Matcher, s: string, i: nat)
    requires i <= |s|
    ensures MatchAt(m, s, i).Some? ==>
      var e := MatchAt(m, s, i).value;
      && Accepts(m.tokens, s[i..e], m.ignoreCase)
      && StartOk(s, i, m.wholeWord) && EndOk(s, e, m.wholeWord)
    ensures forall e | i <= e <= |s| ::
      Accepts(m.tokens, s[i..e], m.ignoreCase) && StartOk(s, i, m.wholeWord) && EndOk(s, e, m.wholeWord)
      ==> MatchAt(m, s, i).Some?
  {
    if MatchAt(m, s, i).Some? {
      FirstEndSound(m.tokens, s, i, m.ignoreCase, m.wholeWord);
    }
    forall e | i <= e <= |s| && Accepts(m.tokens, s[i..e], m.ignoreCase)
                && StartOk(s, i, m.wholeWord) && EndOk(s, e, m.wholeWord)
      ensures MatchAt(m, s, i).Some?
    {
      FirstEndComplete(m.tokens, s, i, e, m.ignoreCase, m.wholeWord);
    }
  }

  // ---------------------------------------------------------------------------
  // The global scan
  // ---------------------------------------------------------------------------

  /** One `exec` call from `lastIndex = k`: the first position from `k` on where an attempt succeeds. */
  function FindFrom(m: Matcher, s: string, k: nat): (r: Option<Span>)
    requires k <= |s|
    ensures r.Some? ==> k <= r.value.start <= |s| && MatchAt(m, s, r.value.start) == Some(r.value.end)
    ensures r.Some? ==> forall p | k <= p < r.value.start :: MatchAt(m, s, p).None?
    ensures r.None? ==> forall p | k <= p <= |s| :: MatchAt(m, s, p).None?
    decreases |s| - k
  {
    match MatchAt(m, s, k)
    case Some(e) => Some(Span(k, e))
    case None => if k == |s| then None else FindFrom(m, s, k + 1)
  }

  /**
   * `spans` is what repeated `exec` calls return from `k` on: each match starts
   * at the leftmost position (at or after the previous match's end) where an
   * attempt succeeds, and after the last one no attempt succeeds.
   */
  predicate IsScan(m: Matcher, s: string, k: nat, spans: seq<Span>)
    requires k <= |s|
    decreases |spans|
  {
    if spans == [] then
      forall p | k <= p <= |s| :: MatchAt(m, s, p).None?
    else
      var sp := spans[0];
      && k <= sp.start < sp.end <= |s|
      && MatchAt(m, s, sp.start) == Some(sp.end)
      && (forall p | k <= p < sp.start :: MatchAt(m, s, p).None?)
      && IsScan(m, s, sp.end, spans[1..])
  }

  /** Spans in increasing order, non-empty and non-overlapping, inside `[k, n]`. */
  predicate Tiling(spans: seq<Span>, k: nat, n: nat)
    decreases |spans|
  {
    if spans == [] then k <= n
    else k <= spans[0].start < spans[0].end <= n && Tiling(spans[1..], spans[0].end, n)
  }

  /**
   * The `while ((m = re.exec(text)) !== null)` loop of `replaceInTextNode`.
   * Every match of a consuming matcher is non-empty, so the loop advances.
   */
  function ScanFrom(m: Matcher, s: string, k: nat): (r: seq<Span>)
    requires Consuming(m.tokens) && k <= |s|
    ensures IsScan(m, s, k, r)
    ensures Tiling(r, k, |s|)
    decreases |s| - k
  {
    match FindFrom(m, s, k)
    case None => []
    case Some(sp) => [sp] + ScanFrom(m, s, sp.end)
  }

  function ScanAll(m: Matcher, s: string): (r: seq<Span>)
    requires Consuming(m.tokens)
    ensures IsScan(m, s, 0, r) && Tiling(r, 0, |s|)
  {
    ScanFrom(m, s, 0)
  }

  /** The scan is determined by the matcher and the text: there is only one. */
  lemma {:induction false} ScanUnique(m: Matcher, s: string, k: nat, a: seq<Span>, b: seq<Span>)
    requires k <= |s| && IsScan(m, s, k, a) && IsScan(m, s, k, b)
    ensures a == b
    decreases |a|
  {
    if a != [] && b != [] {
      assert a[0] == b[0];
      ScanUnique(m, s, a[0].end, a[1..], b[1..]);
    }
  }

  // ---------------------------------------------------------------------------
  // Matches inside a part of a text
  // ---------------------------------------------------------------------------

  /**
   * Without the whole-word lookarounds, a match inside `s[a..b]` is also a
   * match attempt that succeeds at the same place in `s` (possibly with a
   * different end): cutting the text can only remove matches, never add them.
   */
  lemma MatchInFactor(m: Matcher, s: string, a: nat, b: nat, q: nat)
    requires !m.wholeWord && a <= b <= |s| && q <= b - a
    requires MatchAt(m, s[a..b], q).Some?
    ensures MatchAt(m, s, a + q).Some?
  {
    var g := s[a..b];
    var e := MatchAt(m, g, q).value;
    FirstEndSound(m.tokens, g, q, m.ignoreCase, false);
    assert g[q..e] == s[a + q..a + e] by {
      assert |g[q..e]| == e - q == |s[a + q..a + e]|;
      forall k | 0 <= k < e - q ensures g[q..e][k] == s[a + q..a + e][k] {
        assert g[q..e][k] == g[q + k] == s[a + q + k];
      }
    }
    FirstEndComplete(m.tokens, s, a + q, a + e, m.ignoreCase, false);
  }

  /** A stretch of text where no attempt succeeds yields no match on its own. */
  lemma GapMatchFree(m: Matcher, s: string, a: nat, b: nat)
    requires !m.wholeWord && Consuming(m.tokens) && a <= b <= |s|
    requires forall p | a <= p < b :: MatchAt(m, s, p).None?
    ensures ScanAll(m, s[a..b]) == []
  {
    var g := s[a..b];
    var r := ScanAll(m, g);
    if r != [] {
      var q := r[0].start;
      assert MatchAt(m, g, q).Some?;
      MatchInFactor(m, s, a, b, q);
    }
  }

  /** Every piece of a text without matches is without matches. */
  lemma FactorMatchFree(m: Matcher, s: string, a: nat, b: nat)
    requires !m.wholeWord && Consuming(m.tokens) && a <= b <= |s|
    requires ScanAll(m, s) == []
    ensures ScanAll(m, s[a..b]) == []
  {
    assert IsScan(m, s, 0, []);
    GapMatchFree(m, s, a, b);
  }

  /**
   * With `wholeWord`, cutting can add a match: "a-a-" has its only match of
   * the rule "a-" at 2 (at 0 the lookahead sees the second 'a'), but the part
   * "a-" before that match, taken on its own, matches at 0.
   */
  lemma WholeWordPieceCanMatch(m: Matcher)
    requires m == BuildRegex(Rule("a-", "X", true, true))
    ensures ScanAll(m, "a-a-") == [Span(2, 4)]
    ensures ScanAll(m, "a-a-"[0..2]) == [Span(0, 2)]
  {
    var pat := "a-";
    assert BaseFrom(pat, 2) == [];
    assert BaseFrom(pat, 1) == [Lit('-')];
    assert BaseFrom(pat, 0) == [Lit('a'), Lit('-')];
    var toks := m.tokens;
    assert toks == [Lit('a'), Lit('-')];
    assert toks[1..] == [Lit('-')];
    var s := "a-a-";
    assert MatchAt(m, s, 0) == None by {
      assert FirstEnd(toks[1..][1..], s, 2, false, true) == None;
    }
    assert MatchAt(m, s, 1) == None;
    assert MatchAt(m, s, 2) == Some(4) by {
      assert FirstEnd(toks[1..][1..], s, 4, false, true) == Some(4);
    }
    assert FindFrom(m, s, 4) == None by {
      assert MatchAt(m, s, 4) == None;
    }
    assert FindFrom(m, s, 3) == None by {
      assert MatchAt(m, s, 3) == None;
    }
    assert ScanFrom(m, s, 4) == [];
    assert FindFrom(m, s, 2) == Some(Span(2, 4));
    assert FindFrom(m, s, 0) == Some(Span(2, 4));
    var g := s[0..2];
    assert g == "a-";
    assert MatchAt(m, g, 0) == Some(2) by {
      assert FirstEnd(toks[1..][1..], g, 2, false, true) == Some(2);
    }
    assert FindFrom(m, g, 2) == None by {
      assert MatchAt(m, g, 2) == None;
    }
    assert ScanFrom(m, g, 2) == [];
  }

  /**
   * The as-written compiler's trailing-separator swallowing seen on a page: a
   * rule whose pattern is "1 a" finds nothing in the text "1 a" itself.
   */
  lemma OwnTextNotMatched(r: Rule)
    requires r.pattern == "1 a"
    ensures ScanAll(BuildRegex(r), "1 a") == []
  {
    var m := BuildRegex(r);
    var s := "1 a";
    OneSpaceATokens();
    var toks := m.tokens;
    assert toks[1..] == [OptFrac, Lit('a')] && toks[1..][1..] == [Lit('a')];
    assert MatchAt(m, s, 0) == None by {
      assert FirstEnd(toks[1..][1..], s, 1, m.ignoreCase, m.wholeWord) == None;
    }
    assert MatchAt(m, s, 1) == None;
    assert MatchAt(m, s, 2) == None;
    assert MatchAt(m, s, 3) == None;
    assert FindFrom(m, s, 0) == None;
  }
  /** `buildRegex` over the corrected compiler: same flags, corrected tokens. */
  function BuildRegexFixed(rule: Rule): (m: Matcher)
    ensures m.tokens == BuildFlexibleBaseFixed(rule.pattern)
    ensures m.wholeWord == rule.wholeWord
    ensures m.ignoreCase <==> !rule.caseSensitive
    ensures |rule.pattern| >= 1 ==> Consuming(m.tokens)
  {
    if |rule.pattern| >= 1 then
      FixedPatternConsumes(rule.pattern);
      Matcher(BuildFlexibleBaseFixed(rule.pattern), rule.wholeWord, !rule.caseSensitive)
    else
      Matcher(BuildFlexibleBaseFixed(rule.pattern), rule.wholeWord, !rule.caseSensitive)
  }

  /**
   * With the corrected compiler a rule always finds its own pattern text: the
   * scan of the pattern starts with a match at position 0.
   */
  lemma CorrectedFindsOwnText(r: Rule)
    requires r.pattern != []
    ensures ScanAll(BuildRegexFixed(r), r.pattern) != []
    ensures ScanAll(BuildRegexFixed(r), r.pattern)[0].start == 0
  {
    var m := BuildRegexFixed(r);
    var s := r.pattern;
    SelfMatch(s, m.ignoreCase);
    assert s[0..|s|] == s;
    MatchAtCharacterized(m, s, 0);
    assert MatchAt(m, s, 0).Some?;
  }
}
