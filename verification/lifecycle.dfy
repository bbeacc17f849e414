/**
 * The content script's state and its handlers: `enable`, `disable`, the
 * storage change listener and the mutation observer. Storage reads and the
 * asynchronous scheduling of the handlers are not modelled: the stored rule
 * list is a parameter.
 */
module Lifecycle {
  import opened Rules
  import opened Engine
  import opened Restore
  import opened Settle
  import opened Import
  import opened Stored
  import opened Wrappers
  import opened Chars
  import opened Pattern
  import opened Matcher

  /**
   * `enabled`, `currentRules` and the page body. `observing` says whether
   * the mutation observer exists, which `enable` creates only after the
   * load and the walk. `above` says whether an element above the body (the
   * document element) is excluded.
   */
  datatype Page = Page(enabled: bool, observing: bool, rules: seq<Rule>, body: Node, above: bool)

  /** An observer exists only while the flag is on: `disable` drops it. */
  predicate ObserverOnlyWhenOn(p: Page) {
    p.observing ==> p.enabled
  }

  /**
   * The body as a walk with the page's rules leaves it: no rule that has a
   * pattern finds anything more in the text the walker visits.
   */
  predicate Masked(p: Page)
    requires p.body.Elem?
  {
    SettledFor(p.rules, p.body.children, p.above || Excluded(p.body.tag, p.body.classes, p.body.editable))
  }

  /** `enable()`: a no-op when already on; otherwise load and sort the rules, then mask the body. */
  function Enable(p: Page, stored: seq<Rule>): (r: Page)
    requires p.body.Elem?
    ensures r.body.Elem? && r.above == p.above && r.enabled
    ensures p.enabled ==> r == p
    ensures !p.enabled ==> r.observing
    ensures !p.enabled ==> r.rules == SortByLength(stored)
    ensures !p.enabled ==> multiset(r.rules) == multiset(stored) && SortedByLengthDesc(r.rules)
    ensures !p.enabled ==> LayoutNode(ClearRoot(r.body)) == LayoutNode(ClearRoot(p.body))
    ensures !p.enabled && NoWholeWord(stored) ==> Masked(r)
    ensures !p.enabled && MaskFree(p.body.children) ==> MasksIn(Replacements(stored), r.body.children)
  {
    if p.enabled then p
    else
      var sorted := SortByLength(stored);
      ClearUndoesWalk(p.body, sorted, p.above);
      SortKeepsRuleSet(stored);
      WalkOutcome(p.body, sorted, p.above);
      Page(true, true, sorted, WalkAndReplace(p.body, sorted, p.above), p.above)
  }

  /**
   * `enable()` on the stored value itself: `enabled` is set before
   * `loadRules` runs, so when the load throws the page stays unmasked, no
   * observer is installed, and the flag still reads "on".
   */
  function EnableFromStore(p: Page, store: Json): (r: Page)
    requires p.body.Elem?
    ensures r.body.Elem? && r.enabled && r.above == p.above
    ensures p.enabled || LoadThrows(store) ==> r.body == p.body
    ensures LoadThrows(store) ==> r.observing == p.observing
    ensures ObserverOnlyWhenOn(p) ==> ObserverOnlyWhenOn(r)
    ensures !p.enabled && !LoadThrows(store) ==> r == Enable(p, DecodeRules(StoredItems(store)))
  {
    if p.enabled then p
    else match LoadRules(store)
      case None => p.(enabled := true)
      case Some(_) => Enable(p, DecodeRules(StoredItems(store)))
  }

  /**
   * Once a load has thrown, `enable` is stuck: the page is unmasked but
   * flagged on, so every later `enable` returns at once, whatever storage
   * holds by then, and with no observer an added element is not walked.
   */
  lemma EnableStuckAfterThrow(p: Page, store: Json, later: Json, n: Node, above: bool)
    requires p.body.Elem? && !p.enabled && ObserverOnlyWhenOn(p) && LoadThrows(store)
    ensures var r := EnableFromStore(p, store);
      r.enabled && !r.observing && r.body == p.body && EnableFromStore(r, later) == r
      && ObserveAdded(r, n, above) == n
  {
  }

  /**
   * With the import checking its elements, storage that loads keeps
   * loading after any import, so turning the page on loads them and walks the page.
   */
  lemma CheckedImportThenEnable(p: Page, store: Json, file: Option<Parsed>)
    requires p.body.Elem? && !p.enabled && !LoadThrows(store)
    ensures var s := ImportFileChecked(store, file).0;
      EnableFromStore(p, s) == Enable(p, DecodeRules(StoredItems(s)))
  {
    CheckedImportKeepsLoadable(store, file);
  }

  /** `disable()`: a no-op when already off; otherwise every mask goes. */
  function Disable(p: Page): (r: Page)
    requires p.body.Elem?
    ensures r.body.Elem? && r.above == p.above && !r.enabled && r.rules == p.rules
    ensures ObserverOnlyWhenOn(p) ==> !r.observing
    ensures !p.enabled ==> r == p
    ensures p.enabled ==> !r.observing && MaskFree(r.body.children)
  {
    if !p.enabled then p
    else p.(enabled := false, observing := false, body := ClearRoot(p.body))
  }

  /**
   * The storage listener on a new `rules` value (a removed value reads as
   * the empty list): the rules are re-sorted and, when on, the page is
   * cleared and masked again, so no mask of a dropped rule survives.
   */
  function RulesChanged(p: Page, newValue: seq<Rule>): (r: Page)
    requires p.body.Elem?
    ensures r.body.Elem? && r.enabled == p.enabled && r.observing == p.observing && r.above == p.above
    ensures r.rules == SortByLength(newValue)
    ensures multiset(r.rules) == multiset(newValue) && SortedByLengthDesc(r.rules)
    ensures !p.enabled ==> r.body == p.body
    ensures p.enabled ==> LayoutNode(ClearRoot(r.body)) == LayoutNode(ClearRoot(p.body))
    ensures p.enabled ==> MasksIn(Replacements(newValue), r.body.children)
    ensures p.enabled && NoWholeWord(newValue) ==> Masked(r)
  {
    var sorted := SortByLength(newValue);
    if p.enabled then
      var cleared := ClearRoot(p.body);
      ClearUndoesWalk(cleared, sorted, p.above);
      ClearIdempotent(p.body.children);
      SortKeepsRuleSet(newValue);
      WalkOutcome(cleared, sorted, p.above);
      p.(rules := sorted, body := WalkAndReplace(cleared, sorted, p.above))
    else p.(rules := sorted)
  }

  /** Sorting keeps the whole-word options and the replacements of the list. */
  lemma SortKeepsRuleSet(rules: seq<Rule>)
    ensures NoWholeWord(rules) ==> NoWholeWord(SortByLength(rules))
    ensures Replacements(SortByLength(rules)) == Replacements(rules)
  {
    var sorted := SortByLength(rules);
    PermutedRuleSet(sorted, rules);
    PermutedRuleSet(rules, sorted);
    assert NoWholeWord(rules) ==> NoWholeWord(sorted) by {
      if NoWholeWord(rules) {
        forall k | 0 <= k < |sorted| ensures !sorted[k].wholeWord {
          var j := PermutedIndex(sorted, rules, k);
        }
      }
    }
  }

  /** A rule of a permutation sits somewhere in the original list. */
  lemma PermutedIndex(a: seq<Rule>, b: seq<Rule>, k: nat) returns (j: nat)
    requires multiset(a) == multiset(b) && k < |a|
    ensures j < |b| && b[j] == a[k]
  {
    assert a[k] in multiset(b);
    j :| 0 <= j < |b| && b[j] == a[k];
  }

  /** The replacements of a permutation are among those of the original list. */
  lemma PermutedRuleSet(a: seq<Rule>, b: seq<Rule>)
    requires multiset(a) == multiset(b)
    ensures Replacements(a) <= Replacements(b)
  {
    forall x | x in Replacements(a) ensures x in Replacements(b) {
      var k :| 0 <= k < |a| && a[k].pattern != [] && a[k].replacement == x;
      var j := PermutedIndex(a, b, k);
    }
  }

  /**
   * What a walk leaves: with rules without whole-word nothing more to find,
   * and on a page without masks only masks of the walk's rules.
   */
  lemma WalkOutcome(body: Node, rules: seq<Rule>, above: bool)
    requires body.Elem?
    ensures var ex := above || Excluded(body.tag, body.classes, body.editable);
      NoWholeWord(rules) ==> SettledFor(rules, WalkAndReplace(body, rules, above).children, ex)
    ensures MaskFree(body.children) ==> MasksIn(Replacements(rules), WalkAndReplace(body, rules, above).children)
  {
    var ex := above || Excluded(body.tag, body.classes, body.editable);
    if NoWholeWord(rules) {
      WalkSettles(rules, body.children, ex);
    }
    if MaskFree(body.children) {
      MaskFreeMasksIn(Replacements(rules), body.children);
      WalkMasksIn(rules, Replacements(rules), body.children, ex);
    }
  }

  /**
   * The mutation observer on one added node, which sits where `above` says:
   * only an element node the exclusion selector does not match is walked,
   * and only while the observer exists.
   */
  function ObserveAdded(p: Page, n: Node, above: bool): (r: Node)
    ensures !p.observing ==> r == n
    ensures !n.Elem? ==> r == n
    ensures n.Elem? ==> r.Elem? && r.tag == n.tag && r.classes == n.classes && r.editable == n.editable
    ensures n.Elem? && Excluded(n.tag, n.classes, n.editable) ==> r == n
    ensures OriginalOf(r) == OriginalOf(n)
    ensures p.observing && n.Elem? && NoWholeWord(p.rules) ==> SettledFor(p.rules, r.children, above || Excluded(n.tag, n.classes, n.editable))
    ensures p.observing && n.Elem? && MaskFree(n.children) ==> MasksIn(Replacements(p.rules), r.children)
  {
    if p.observing && n.Elem? && !Excluded(n.tag, n.classes, n.editable) then
      WalkOutcome(n, p.rules, above);
      WalkAndReplace(n, p.rules, above)
    else if n.Elem? then
      ObservedUnwalked(p.rules, n, above);
      n
    else n
  }

  /** An element the observer skips: nothing to settle below an excluded element, and no mask when it had none. */
  lemma ObservedUnwalked(rules: seq<Rule>, n: Node, above: bool)
    requires n.Elem?
    ensures Excluded(n.tag, n.classes, n.editable) ==> SettledFor(rules, n.children, true)
    ensures MaskFree(n.children) ==> MasksIn(Replacements(rules), n.children)
  {
    if Excluded(n.tag, n.classes, n.editable) {
      SettledForExcluded(rules, n.children);
    }
    if MaskFree(n.children) {
      MaskFreeMasksIn(Replacements(rules), n.children);
    }
  }

  /**
   * As written the observer walks added elements only, so a text node added
   * on its own (what setting `textContent` inserts) keeps its match: with
   * the rule "5", an added text "5" is left unmasked.
   */
  lemma AddedTextStaysUnmasked(p: Page)
    requires p.observing && p.rules == [Rule("5", "#", false, false)]
    ensures ObserveAdded(p, Text("5"), false) == Text("5")
    ensures !SettledFor(p.rules, [ObserveAdded(p, Text("5"), false)], false)
  {
    var m := BuildRegex(p.rules[0]);
    var s := "5";
    CompiledPatternWitness(s, m.ignoreCase);
    assert s[0..|s|] == s;
    MatchAtCharacterized(m, s, 0);
    assert ScanAll(m, s) != [];
    assert !IsSpace(s[0]);
    assert !SettledNode(m, Text(s), false);
  }

  /**
   * The observer with an added text node walked as well, in the context of
   * the element it was added to (`above` says whether that element or one
   * above it is excluded). Elements are handled as before.
   */
  function ObserveAddedFixed(p: Page, n: Node, above: bool): (r: seq<Node>)
    ensures Original(r) == OriginalOf(n)
    ensures !n.Text? ==> r == [ObserveAdded(p, n, above)]
    ensures !p.observing ==> r == [n]
    ensures p.observing && n.Text? && NoWholeWord(p.rules) ==> SettledFor(p.rules, r, above)
  {
    if p.observing && n.Text? then
      AddedTextSettles(p.rules, n, above);
      OriginalSingleton(n);
      WalkForest(p.rules, [n], above)
    else
      OriginalSingleton(ObserveAdded(p, n, above));
      [ObserveAdded(p, n, above)]
  }

  lemma AddedTextSettles(rules: seq<Rule>, n: Node, above: bool)
    ensures NoWholeWord(rules) ==> SettledFor(rules, WalkForest(rules, [n], above), above)
  {
    if NoWholeWord(rules) {
      WalkSettles(rules, [n], above);
    }
  }

  /** Turning the script on and then off gives a page without masks in the layout it had. */
  lemma EnableDisableRestores(p: Page, stored: seq<Rule>)
    requires p.body.Elem? && !p.enabled && MaskFree(p.body.children)
    ensures LayoutNode(Disable(Enable(p, stored)).body) == LayoutNode(p.body)
    ensures ShownOf(Disable(Enable(p, stored)).body) == ShownOf(p.body)
    ensures MaskFree(Disable(Enable(p, stored)).body.children)
  {
    MaskThenClearRestoresPage(p.body, SortByLength(stored), p.above);
  }

  /**
   * An element added under an excluded element is left alone: the walk
   * rejects every text node below it.
   */
  lemma ObserverSkipsExcludedContext(p: Page, n: Node)
    requires n.Elem?
    ensures ObserveAdded(p, n, true) == n
  {
    if p.observing && !Excluded(n.tag, n.classes, n.editable) {
      WalkExcluded(p.rules, n.children);
    }
  }

  /** Re-walking an added element that is already masked by rules without the whole-word option adds nothing. */
  lemma ObserverIdempotent(p: Page, n: Node, above: bool)
    requires n.Elem? && NoWholeWord(p.rules)
    ensures ObserveAdded(p, ObserveAdded(p, n, above), above) == ObserveAdded(p, n, above)
  {
    if p.observing && !Excluded(n.tag, n.classes, n.editable) {
      WalkIdempotent(n, p.rules, above);
    }
  }
}
