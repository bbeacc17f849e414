/**
 * `applyAll` of the popup's copy commands: the page text (or the selection)
 * is rewritten rule by rule with `String.prototype.replace`, as plain text.
 */
module PopupApply {
  import opened Pattern
  import opened Rules
  import opened Matcher
  import opened Engine

  /** The output of a global `replace` from `last` on: literal text, `repl` for each match. */
  function Splice(s: string, last: nat, spans: seq<Span>, repl: string): string
    requires Tiling(spans, last, |s|)
    decreases |spans|
  {
    if spans == [] then s[last..]
    else s[last..spans[0].start] + repl + Splice(s, spans[0].end, spans[1..], repl)
  }

  /** `text.replace(re, repl)` with the global flag, the replacement taken literally. */
  function ReplaceAll(m: Matcher, repl: string, s: string): (r: string)
    requires Consuming(m.tokens)
    ensures ScanAll(m, s) == [] ==> r == s
  {
    Splice(s, 0, ScanAll(m, s), repl)
  }

  lemma {:induction false} SpliceIsShown(s: string, last: nat, spans: seq<Span>, repl: string)
    requires Tiling(spans, last, |s|)
    ensures Splice(s, last, spans, repl) == Shown(Fragments(s, last, spans, repl))
    decreases |spans|
  {
    if spans == [] {
      if last < |s| {
        assert Shown([Text(s[last..])]) == s[last..] + Shown([]);
      }
    } else {
      var sp := spans[0];
      SpliceIsShown(s, sp.end, spans[1..], repl);
      ShownFragmentsStep(s, last, spans, repl);
      SpliceStep(s, last, spans, repl);
    }
  }

  lemma SpliceStep(s: string, last: nat, spans: seq<Span>, repl: string)
    requires Tiling(spans, last, |s|) && spans != []
    ensures Splice(s, last, spans, repl)
         == s[last..spans[0].start] + (repl + Splice(s, spans[0].end, spans[1..], repl))
  {
    var x := Splice(s, spans[0].end, spans[1..], repl);
    assert s[last..spans[0].start] + repl + x == s[last..spans[0].start] + (repl + x);
  }

  /** The text of the fragments: the gap before the first match, its replacement, then the rest. */
  lemma ShownFragmentsStep(s: string, last: nat, spans: seq<Span>, repl: string)
    requires Tiling(spans, last, |s|) && spans != []
    ensures Shown(Fragments(s, last, spans, repl))
         == s[last..spans[0].start] + (repl + Shown(Fragments(s, spans[0].end, spans[1..], repl)))
  {
    var sp := spans[0];
    var gap := if last < sp.start then [Text(s[last..sp.start])] else [];
    var mask := [Mask(s[sp.start..sp.end], repl)];
    var rest := Fragments(s, sp.end, spans[1..], repl);
    FragmentsStep(s, last, spans, repl);
    ShownAppend(gap, mask + rest);
    ShownAppend(mask, rest);
    assert Shown(gap) == s[last..sp.start] by {
      if last < sp.start {
        assert Shown(gap) == s[last..sp.start] + Shown([]);
      }
    }
    assert Shown(mask) == repl + Shown([]);
  }

  /**
   * For one rule, the popup's text is what the page shows after the content
   * script splits the same text: literal pieces and replacements in order.
   */
  lemma ReplaceAllIsShown(m: Matcher, repl: string, s: string)
    requires Consuming(m.tokens)
    ensures ReplaceAll(m, repl, s) == Shown(ReplaceInText(m, repl, s))
  {
    if s == [] || ScanAll(m, s) == [] {
      assert Shown([Text(s)]) == s + Shown([]);
    } else {
      SpliceIsShown(s, 0, ScanAll(m, s), repl);
    }
  }

  predicate AllBlankPatterns(rules: seq<Rule>) {
    forall k | 0 <= k < |rules| :: rules[k].pattern == []
  }

  /** The loop of `applyAll` over an already sorted list; a rule without a pattern is skipped. */
  function ApplySorted(out: string, rules: seq<Rule>): (r: string)
    ensures AllBlankPatterns(rules) ==> r == out
    decreases |rules|
  {
    if rules == [] then out
    else
      var r := rules[0];
      BlankTail(rules);
      ApplySorted(if r.pattern == [] then out else ReplaceAll(BuildRegex(r), r.replacement, out), rules[1..])
  }

  lemma BlankTail(rules: seq<Rule>)
    requires rules != []
    ensures AllBlankPatterns(rules) ==> AllBlankPatterns(rules[1..])
  {
    if AllBlankPatterns(rules) {
      forall k | 0 <= k < |rules[1..]| ensures rules[1..][k].pattern == [] {
        assert rules[1..][k] == rules[k + 1];
      }
    }
  }

  /**
   * `applyAll(text, list)`: longest patterns first, ties in list order. With
   * no rule that has a pattern (in particular with no rules) the text comes
   * back unchanged.
   */
  function ApplyAll(text: string, list: seq<Rule>): (r: string)
    ensures AllBlankPatterns(list) ==> r == text
  {
    SortKeepsBlank(list);
    ApplySorted(text, SortByLength(list))
  }

  lemma SortKeepsBlank(list: seq<Rule>)
    ensures AllBlankPatterns(list) ==> AllBlankPatterns(SortByLength(list))
  {
    var sorted := SortByLength(list);
    if AllBlankPatterns(list) {
      forall k | 0 <= k < |sorted| ensures sorted[k].pattern == [] {
        assert sorted[k] in multiset(list);
      }
    }
  }

  /**
   * One rule: on a text the page walker visits (not blank), the copied text
   * equals what the masked page shows.
   */
  lemma SingleRuleAgreesWithPage(s: string, r: Rule)
    requires r.pattern != [] && Scannable(s)
    ensures ApplyAll(s, [r]) == Shown(ApplyRule(r, [Text(s)], false))
  {
    var m := BuildRegex(r);
    var sorted := SortByLength([r]);
    assert multiset(sorted) == multiset{r};
    assert |sorted| == 1 by {
      assert |multiset(sorted)| == 1;
    }
    assert sorted[0] in multiset(sorted);
    assert sorted == [r];
    ReplaceAllIsShown(m, r.replacement, s);
    assert ApplySorted(s, [r]) == ApplySorted(ReplaceAll(m, r.replacement, s), []);
    assert RewriteNode(m, r.replacement, Text(s), false) == ReplaceInText(m, r.replacement, s);
    assert [Text(s)][1..] == [];
    var split := ReplaceInText(m, r.replacement, s);
    assert RewriteForest(m, r.replacement, [Text(s)], false) == split + [];
    assert split + [] == split;
  }
}
