# DataMask (Page Anonymizer) — a Dafny model of the masking core

DataMask is a browser extension that hides sensitive strings on a web page.
The user keeps a list of rules. Each rule has a pattern, a replacement, a
whole-word flag and a case-sensitivity flag. The content script turns each
pattern into a "number-aware" regular expression: a run of digits matches
with or without thousands separators, and it may carry a decimal tail. The
script then walks the page's text nodes. It splits every match out into a
`span.pa-anon` that shows the replacement and keeps the original in
`data-original`. Turning the extension off replaces every such span with a
text node that holds the original again. The popup adds and deletes rules
and copies a sanitised version of the page text. The options page adds,
deletes, exports and imports rules.

The model is in plain Dafny. It has one module per concern:

| module | file | what it models |
|---|---|---|
| `Wrappers` | wrappers.dfy | `Option` |
| `Chars` | chars.dfy | the character classes (digit, `\s`, pattern separator, decimal mark, word character), ASCII lower-casing, `trim` |
| `RegexEscape` | regex_escape.dfy | `escapeRegExp` |
| `Pattern` | pattern.dfy | `parseNumberToken` and `buildFlexibleBase` as token lists, the language of a token list, and the corrected compiler |
| `Matcher` | matcher.dfy | `buildRegex`, JavaScript's backtracking `exec` with the whole-word lookarounds, and the global `exec` loop |
| `Rules` | rules.dfy | the rule list: duplicate check, the popup and options "add", `splice` deletion, the length sort, the rule-row flags |
| `Html` | html.dfy | `esc` and `escapeHtml` |
| `Urls` | urls.dfy | `isRestrictedUrl` |
| `Import` | import.dfy | export and import of the rule file, over a parsed JSON value |
| `Engine` | engine.dfy | the DOM as a tree of text nodes, elements and mask spans; `replaceInTextNode`, `walkAndReplace`, `clearAnonymization` |
| `Restore` | restore.dfy | clearing undoes masking |
| `Settle` | settle.dfy | masking twice is masking once (for rules without whole-word) |
| `Lifecycle` | lifecycle.dfy | `enable`, `disable`, the storage listener and the mutation observer |
| `PopupApply` | popup_apply.dfy | the popup's `applyAll` and how it relates to the masked page |
| `Stored` | stored.dfy | what `loadRules` makes of the stored value when it is not a list of rule objects, and the import with its elements checked |

Modelling decisions:

- **Compiled regular expressions.** A compiled pattern is a list of tokens:
  - `Lit(c)`: an escaped literal character;
  - `Digit(d)`;
  - `OptSep`: the optional separator class;
  - `OptFrac`: the optional `[.,]\d{1,2}`;
  - `ExactFrac`: the fixed fraction branch.

  `Pattern.Accepts` gives the language of a token list. `Matcher.FirstEnd`
  gives the end that JavaScript's backtracking engine picks: optional
  groups are greedy, and `\d{1,2}` tries two digits before one.
- **`popup.js` copy.** The compiler in `extension/popup.js:94-137` is the
  same code as `extension/content.js:16-72` up to layout and local names. It
  is modelled once, and the popup's `applyAll` uses the same `Matcher.BuildRegex`.
- **Lengths.** JavaScript's `.length` counts UTF-16 code units, so the
  length sort uses `Chars.Utf16Length`: a character above U+FFFF counts twice.
  Everywhere else a string is a sequence of code points. Match positions
  and `slice` in `replaceInTextNode` are UTF-16 offsets, yet the split is
  the same. The expressions carry no `u` flag, so they work on code units,
  but no digit, separator or word-character class contains a surrogate, and
  a literal character above U+FFFF is compiled to its two units in order.
  A match therefore never starts or ends inside a surrogate pair, and the
  whole-word lookarounds treat either half of a pair as a non-word
  character, as `Chars.IsWordChar` treats the whole character.
- **Page tree.** A page is a tree of `Text`, `Elem` and `Mask` nodes:
  - a `Mask` is the `span.pa-anon` that `replaceInTextNode` creates;
  - an `Elem` carries its tag, class list and `contenteditable` state, which
    is what the exclusion selector reads;
  - the `above` flag says whether an element above the walk root matches the
    selector, as `closest()` would find it.
- **Comparing trees.** Clearing leaves the split text nodes unmerged, so
  trees are compared by their layout (`Restore.Layout`). The layout is the
  sequence of characters, element boundaries and masks in document order.
- **Storage and the browser.** Storage, messaging, clipboard and tab queries
  are left out. The stored rule list, the chosen file and the active tab's
  URL are parameters.

## Model

| member | source | states |
|---|---|---|
| RegexEscape.EscapeRegExp | extension/content.js:16 | the escaped text is at least as long as the input and at most twice as long (one backslash at most per character) |
| RegexEscape.EscapeIsLiteral | extension/content.js:16 | every regex metacharacter in the escaped text is preceded by a backslash, so the text is a literal regex source |
| RegexEscape.EscapeRoundTrip | extension/content.js:16 | removing the escapes gives back the original string |
| Chars.Trim | extension/popup.js:60 | the trimmed text is no longer than the input, neither starts nor ends with white space, and is empty exactly when every character is white space |
| Chars.Utf16Length | extension/content.js:121 | `.length` of a string lies between its number of characters and twice that; it is the number of characters when none lies above U+FFFF and twice it when all do |
| Chars.TrimBounds | extension/popup.js:60 | `trim()` keeps one contiguous slice: everything before it and after it is white space, the kept part neither starts nor ends with white space, and an all-space string keeps nothing |
| Chars.BlankIffAllSpace | extension/popup.js:66-70 | a pattern trims to empty exactly when every character is white space, which is when `addRule` returns early |
| Chars.TrimIdempotent | extension/popup.js:60-61 | trimming an already trimmed pattern changes nothing, so the key of a stored pattern is stable |
| Pattern.ScanRun | extension/content.js:27-32 | the run loop stops at the first character that is neither a digit nor a separator, having collected exactly the digits it passed |
| Pattern.FracTail | extension/content.js:34-39 | the fraction branch is taken exactly when a `.` or `,` is followed by a digit; then it collects the maximal digit run after the mark (every collected character is a digit and the next one is not) and returns the index after it; otherwise it returns the index unchanged |
| Pattern.ParseNumberToken | extension/content.js:22-47 | the token starts with the digit at `i`, advances past it, and its fixed-fraction part is always absent, because the run loop has already consumed every `.` and `,` |
| Pattern.FlexibleDigits | extension/content.js:20 | the empty run gives nothing; a run of n digits gives 2n-1 tokens, the k-th digit at position 2k and an optional separator at every odd position |
| Pattern.IntegerPartLanguage | extension/content.js:17-20 | a text matches the compiled digit run exactly when it is those digits in order with at most one separator between consecutive digits |
| Pattern.BuildFlexibleBase | extension/content.js:49-63 | the shortest text the compiled pattern spells is the pattern with every separator that follows a digit run deleted |
| Pattern.AcceptsSplit | extension/content.js:55 | a text matched by two concatenated token lists splits into a part matched by the first and a rest matched by the second |
| Pattern.WitnessShortest | extension/content.js:20-46 | no text a token list accepts is shorter than its witness, the text that takes every optional part empty |
| Pattern.CompiledPatternShortest | extension/content.js:49-63 | every text the compiled pattern matches is at least as long as the pattern without its dropped separators |
| Pattern.NumberPatternTokens | extension/content.js:41-46 | a pattern that is one digit run (digits and separators, starting with a digit) compiles to the flexible digits followed by the optional fraction |
| Pattern.NumberPatternLanguage | extension/content.js:17-46 | for such a pattern, a text matches exactly when it is the pattern's digits in order with at most one separator between neighbours, followed by nothing or by `.` or `,` and one or two digits |
| Pattern.NonEmptyPatternConsumes | extension/content.js:49-63 | a non-empty pattern compiles to an expression that never matches the empty string |
| Pattern.CompiledPatternWitness | extension/content.js:49-63 | the pattern with every separator after a digit run deleted is accepted by the compiled expression (`Pattern.CompiledPatternShortest` shows no accepted text is shorter) |
| Pattern.TrailingSeparatorBreaksSelfMatch | extension/content.js:27-32 | as written, the pattern "1 a" compiles to digit, optional fraction, literal `a`, so the space is lost and "1 a" is not in its own language |
| Pattern.OneSpaceATokens | extension/content.js:49-63 | the pattern "1 a" compiles to a digit, an optional fraction and the literal `a`, with no token for the space |
| Pattern.SelfMatch | extension/content.js:27-44 | with the run loop corrected to take a separator only before another digit, every pattern matches its own text |
| Pattern.FixedPatternConsumes | extension/content.js:49-63 | the corrected compiler still never accepts the empty string for a non-empty pattern |
| Matcher.BuildRegex | extension/content.js:65-72 | the expression carries the compiled pattern, the whole-word lookarounds exactly when the rule asks for them, and the `i` flag exactly when the rule is not case-sensitive |
| Matcher.FirstEnd | extension/content.js:67-69 | the end a backtracking attempt picks lies inside the text, and strictly after the start for a consuming pattern |
| Matcher.StepEnd | extension/content.js:67-69 | one token's step of the attempt stays inside the text, and moves forward when the token or the rest must consume |
| Matcher.FirstEndSound | extension/content.js:67-69 | the picked end is an end the pattern's language allows at that start, and the look-ahead holds there |
| Matcher.FirstEndComplete | extension/content.js:67-69 | when some end is allowed by the language and the look-ahead, the attempt does not fail |
| Matcher.MatchAt | extension/content.js:67-69 | an attempt at a position ends inside the text, and it ends strictly after the start for a non-empty pattern |
| Matcher.MatchAtCharacterized | extension/content.js:65-71 | an attempt succeeds exactly when some substring starting there is in the pattern's language and the lookarounds hold around it |
| Matcher.FindFrom | extension/content.js:82-83 | `exec` from `lastIndex` returns the leftmost position at which an attempt succeeds, or nothing when none does |
| Matcher.ScanFrom | extension/content.js:82-91 | the `exec` loop yields increasing, non-overlapping, non-empty matches, each leftmost after the previous one, and no match after the last |
| Matcher.ScanAll | extension/content.js:77-91 | the matches found in a whole text node tile it in order, as the global loop from `lastIndex` 0 finds them |
| Matcher.ScanUnique | extension/content.js:82-91 | there is only one sequence of matches with that leftmost, non-overlapping property |
| Matcher.GapMatchFree | extension/content.js:84 | without whole-word, the text between two matches contains no match of its own |
| Matcher.FactorMatchFree | extension/content.js:84-92 | without whole-word, a part of a text without matches has no match either |
| Matcher.WholeWordPieceCanMatch | extension/content.js:67-68 | with whole-word on, a piece cut out of a text can match where the whole text did not: "a-" matches "a-a-" only at 2, yet it matches the left piece "a-" |
| Matcher.OwnTextNotMatched | extension/content.js:27-32 | as written, a rule with pattern "1 a" finds nothing in a text node reading "1 a" |
| Matcher.BuildRegexFixed | extension/content.js:65-72 | the corrected compiler keeps the flags of `buildRegex` and still consumes input for a non-empty pattern |
| Matcher.CorrectedFindsOwnText | extension/content.js:27-32 | with the corrected compiler, the scan of a rule's own pattern text finds a match at position 0 |
| Rules.HasPattern | extension/popup.js:59-62 | true exactly when some stored rule's trimmed, lower-cased pattern equals the trimmed, lower-cased new pattern |
| Rules.KeyOfTrimmed | extension/popup.js:60-61 | comparing by key ignores surrounding white space |
| Rules.PopupAdd | extension/popup.js:64-89 | a blank pattern changes nothing; a pattern whose key is present changes nothing and reports it; otherwise the trimmed rule is appended |
| Rules.PopupAddKeepsKeysUnique | extension/popup.js:75-83 | adding through the popup keeps the patterns' keys pairwise distinct |
| Rules.OptionsAdd | extension/options.js:42-58 | a blank pattern changes nothing; otherwise the trimmed rule is appended with no duplicate check |
| Rules.OptionsAddCanDuplicate | extension/options.js:48-53 | the options page can store two rules with the same key ("a" and "A") |
| Rules.Key | extension/popup.js:60-61 | the key is no longer than the pattern and is empty exactly when the pattern is all white space |
| Rules.PatLen | extension/content.js:121 | a rule's sort length lies between its pattern's character count and twice that, and equals the character count when no character lies above U+FFFF |
| Rules.AstralPatternTies | extension/content.js:121 | "😀x" and "abc" both have length 3, so they tie and keep their stored order |
| Rules.SpliceStart | extension/popup.js:49 | `splice` normalises its start: an index in range is kept, a negative one at least minus the length counts from the end, one below that clamps to 0, and one past the end clamps to the length |
| Rules.DeleteAt | extension/popup.js:46-50 | deleting at an index in range removes exactly that rule and keeps the others in order; an index past the end changes nothing (the options page's copy is at extension/options.js:32-36) |
| Rules.DeleteKeepsKeysUnique | extension/popup.js:46-50 | deleting keeps the patterns' keys pairwise distinct |
| Rules.InsertByLength | extension/content.js:121 | insertion puts exactly one more copy of the rule into the list |
| Rules.InsertKeepsSorted | extension/content.js:121 | inserting into a list sorted by descending pattern length keeps it sorted |
| Rules.InsertStable | extension/content.js:121 | insertion keeps rules of equal pattern length in their relative order |
| Rules.SortByLength | extension/content.js:121 | the sorted list is a permutation of the stored list, ordered by descending pattern `.length` in UTF-16 code units, with ties in their stored order, as a stable `Array.prototype.sort` gives |
| Rules.RowFlags | extension/options.js:11-14 | the row shows "word" exactly when whole-word is on and "case" exactly when case-sensitive is on, "word" first |
| Html.EscChar | extension/popup.js:13 | each of the five special characters becomes an entity from `&` to `;`, and every other character is kept |
| Html.Esc | extension/popup.js:13 | escaping never shortens a string, and it keeps the length exactly when no special character occurs |
| Html.EscapeHtml | extension/options.js:4-8 | a missing value renders as the empty string, and a string is escaped like `esc` |
| Html.EscHasNoRawMarkup | extension/options.js:5-7 | the escaped text contains no `<`, `>`, `"` or `'` |
| Html.EscRoundTrip | extension/popup.js:13 | decoding the five entities gives back the original string |
| Html.EscFixedIff | extension/options.js:5-7 | escaping leaves a string unchanged exactly when it has no special character |
| Urls.IsRestrictedUrl | extension/popup.js:20-22 | a URL is restricted exactly when it starts, ignoring case, with one of the six listed schemes followed by a colon; the empty URL is not |
| Urls.FirstColon | extension/popup.js:21 | finds the first colon of the URL, or reports that there is none |
| Urls.RestrictedIffScheme | extension/popup.js:21 | a URL is restricted exactly when its lower-cased scheme, up to the first colon, is one of the six |
| Urls.MixedCaseRestricted | extension/popup.js:21 | "Chrome-Extension://x" is restricted: the match ignores case |
| Urls.OrdinarySiteAllowed | extension/popup.js:21 | "https://chrome.com" is allowed: the scheme must be at the start |
| Import.Lookup | extension/options.js:80-81 | a member lookup finds nothing exactly when no member has the key, and otherwise finds the last member with that key, as `JSON.parse` keeps the last duplicate |
| Import.ReadProp | extension/options.js:81 | reading `json.rules` throws exactly on `null`; a value comes only from an object's member |
| Import.ImportFile | extension/options.js:75-91 | no file changes nothing; a document whose `rules` is an array replaces the stored list with it; a parse error or a `null` document reports an invalid file; anything else reports the wrong shape; only an import writes to storage |
| Import.Export | extension/options.js:61-63 | the exported document has a `rules` array, and it is the stored list when that is an array |
| Import.ExportImportRoundTrip | extension/options.js:61-82 | importing an exported file restores the stored rule list |
| Import.RejectedDocuments | extension/options.js:81-88 | `null`, an array and an object whose `rules` is a string are all rejected, and storage is unchanged |
| Import.LastDuplicateDecides | extension/options.js:80-81 | when `rules` occurs twice in the file, the later member decides |
| Engine.Fragments | extension/content.js:80-92 | the fragment holds only text pieces and mask spans that carry the rule's replacement |
| Engine.FragmentsOriginal | extension/content.js:82-92 | the text pieces and the masks' originals, in order, spell the text from `last` on |
| Engine.FragmentsMasks | extension/content.js:85-88 | the masks' originals are exactly the matched substrings, in order |
| Engine.ReplaceInText | extension/content.js:74-94 | a text without a match is left as it is; otherwise it is split into pieces whose originals spell the text and whose masks are the scan's matches |
| Engine.RewriteForest | extension/content.js:108-110 | one rule's pass over a node list keeps its original text |
| Engine.RewriteNode | extension/content.js:99-110 | one rule's pass over a node keeps its original text |
| Engine.ApplyRule | extension/content.js:97-110 | a rule's pass keeps the original text, and a rule without a pattern is skipped |
| Engine.WalkForest | extension/content.js:96-111 | the walk over all rules keeps the original text of the page |
| Engine.WalkMasksIn | extension/content.js:85-88 | every mask a walk leaves carries the replacement of one of its rules, given that the masks already there do |
| Engine.ClearForest | extension/content.js:114-117 | clearing replaces node for node (what it leaves is stated by `Engine.ClearMaskFree`, `Restore.ClearIdempotent` and `Restore.ClearMaskFreeIdentity`) |
| Engine.WalkAndReplace | extension/content.js:96-112 | the walk keeps the root element and its attributes |
| Engine.RewriteExcluded | extension/content.js:99-106 | below an excluded element no text node is touched |
| Engine.WalkExcluded | extension/content.js:96-112 | a walk in excluded context is the identity, for every rule list |
| Engine.ClearRoot | extension/content.js:114-117 | after clearing no mask span remains, and the root element is kept |
| Engine.ClearMaskFree | extension/content.js:114-117 | clearing any forest leaves no mask span |
| Engine.RewriteAppend | extension/content.js:108-110 | one rule's pass over a node list is the concatenation of its passes over the parts |
| Restore.ReplaceInTextRestores | extension/content.js:84-92 | clearing a split text node gives back exactly its characters |
| Restore.ShownFromLayout | extension/content.js:87-88 | the text a page shows can be read off its layout: characters and each mask's replacement |
| Restore.WalkRestores | extension/content.js:96-117 | clearing after a walk over any rule list gives the layout that clearing before it gives |
| Restore.ClearUndoesWalk | extension/content.js:96-117 | clearing a walked page gives the same layout and the same text as clearing the page unwalked |
| Restore.ClearIdempotent | extension/content.js:114-117 | clearing twice is clearing once |
| Restore.ClearMaskFreeIdentity | extension/content.js:114-117 | clearing a page without masks leaves it as it is |
| Restore.MaskThenClearRestoresPage | extension/content.js:96-117 | on a page without masks, masking then clearing restores the page's layout and text |
| Settle.SettledAppend | extension/content.js:108-110 | a node list is settled (nothing left to mask) exactly when both of its parts are |
| Settle.RewriteSettledIdentity | extension/content.js:96-111 | a rule's pass over a settled page changes nothing |
| Settle.GapsSettled | extension/content.js:84-92 | without whole-word, the pieces a split leaves contain no further match |
| Settle.RewriteSettles | extension/content.js:96-111 | without whole-word, after one rule's pass that rule finds nothing more |
| Settle.RewriteKeepsSettled | extension/content.js:96-111 | a later rule's pass does not create anything for an earlier rule without whole-word to find |
| Settle.WalkKeepsSettled | extension/content.js:96-111 | a whole walk keeps a page settled for a rule without whole-word |
| Settle.WalkSettles | extension/content.js:96-111 | after a walk with rules without whole-word, every rule with a pattern finds nothing more |
| Settle.WalkSettledIdentity | extension/content.js:96-111 | a walk over a page settled for all its rules changes nothing |
| Settle.WalkIdempotent | extension/content.js:96-111 | walking twice with rules without whole-word is walking once |
| Lifecycle.Enable | extension/content.js:119-128 | when already on, nothing changes; otherwise the flag is set, the observer exists, the rules become the stored list sorted by length, clearing still gives back the unmasked layout, every mask on a previously unmasked page carries a stored rule's replacement, and for rules without whole-word the page is masked: no rule finds anything left outside excluded elements |
| Lifecycle.EnableFromStore | extension/content.js:119-141 | turning on from the stored value: already on changes nothing; a load that throws sets the flag but creates no observer and leaves the page unmasked; otherwise it is `Enable` with the decoded rules; an observer still exists only while the flag is on |
| Lifecycle.EnableStuckAfterThrow | extension/content.js:124-140 | after a load that throws, the page is flagged on but unmasked and has no observer, so an added element is not walked, and every later `enable` leaves it so whatever storage then holds |
| Lifecycle.WalkOutcome | extension/content.js:128 | the walk in `enable` leaves nothing to mask for rules without whole-word, and on an unmasked page every mask it makes carries one of the rules' replacements |
| Lifecycle.CheckedImportThenEnable | extension/options.js:81-83 | with the import checking its elements, turning on after any import from loadable storage does not throw: it is `Enable` with the stored rules |
| Lifecycle.Disable | extension/content.js:143-149 | when already off, nothing changes; otherwise the observer is dropped, no mask remains and the rules are kept |
| Lifecycle.RulesChanged | extension/content.js:152-160 | the new list, sorted by length, replaces the rules and the observer is neither created nor dropped; while off the page is untouched; while on the page is cleared and masked again: clearing gives the layout clearing gave before, every mask carries a new rule's replacement, and for new rules without whole-word the page is masked |
| Lifecycle.ObserveAdded | extension/content.js:129-140 | without an observer nothing is walked; a non-element node is not walked, an element keeps its attributes and its original text, and an element that matches the exclusion selector is left alone; with an observer an added element is left with nothing to mask for rules without whole-word, and an unmasked one gets only masks carrying a rule's replacement |
| Lifecycle.AddedTextStaysUnmasked | extension/content.js:129-137 | as written, with the rule "5" on, a text node "5" added on its own comes back from the observer unchanged and still holds a match |
| Lifecycle.ObserveAddedFixed | extension/content.js:129-137 | the observer that also walks an added text node keeps the node's original text, handles elements as before, does nothing while off, and for rules without whole-word leaves an added text node with nothing to mask |
| Lifecycle.EnableDisableRestores | extension/content.js:124-149 | turning on and then off returns a page without masks to the same layout and text |
| Lifecycle.ObserverSkipsExcludedContext | extension/content.js:99-106 | an element added below an excluded element is left alone, because the walk's `closest()` test looks above the added node |
| Lifecycle.ObserverIdempotent | extension/content.js:129-140 | observing an already processed element again adds nothing, for rules without whole-word |
| PopupApply.ReplaceAll | extension/popup.js:144 | a text without a match comes back unchanged |
| PopupApply.SpliceIsShown | extension/popup.js:144 | the literal replacement of a tiling of matches is the text of the corresponding split fragment |
| PopupApply.ReplaceAllIsShown | extension/popup.js:144 | `String.prototype.replace` with one rule gives exactly the text the page shows after `replaceInTextNode` splits the same text |
| PopupApply.ApplySorted | extension/popup.js:142-145 | the loop skips every rule without a pattern, so with no pattern at all the text comes back unchanged |
| PopupApply.ApplyAll | extension/popup.js:139-147 | with no rule that has a pattern, the text comes back unchanged |
| Stored.LoadRules | extension/content.js:119-122 | `loadRules` fails exactly when the comparator or `slice` would throw on the stored value; otherwise it gives a permutation of the decoded elements sorted by length |
| Stored.NullRulesImportBreaksLoad | extension/options.js:81-83 | as written, importing `{"rules": [null, null]}` stores that array, and `loadRules` then throws |
| Stored.ImportFileChecked | extension/options.js:81-86 | the import with its elements checked stores only arrays of objects, leaves storage alone otherwise, and agrees with the unchecked import on every file whose rules are objects and every file it rejects |
| Stored.CheckedImportKeepsLoadable | extension/options.js:81-83 | after a checked import, storage that loaded still loads |
| PopupApply.SingleRuleAgreesWithPage | extension/popup.js:139-147 | for one rule and a non-blank text, the copied text equals the text of the masked page |

## Left out

- `extension/sw.js` (the service worker) is not part of this model: it installs the default rules and relays messages.
- Chrome storage, messages, tabs, the clipboard, `setStatus`, the form reset and the rule-list HTML outside the flag pills are not modelled; the stored rules, the chosen file and the tab URL are parameters.
- The asynchrony of `enable` and the storage listener is not modelled: each handler runs to completion as one function.
- The mutation observer's `MutationRecord` plumbing is not modelled; `Lifecycle.ObserveAdded` is the handling of one added node.
- The CSS selector engine is not modelled: `Engine.Excluded` is the exclusion selector written as a predicate on tag, classes and editability; the document element's own match is the `above` flag.
- Chars.IsSpace: covers ASCII white space and the four Unicode spaces the separator class names, not every code point JavaScript's `\s` and `trim` accept.
- Chars.Lower: folds ASCII letters only, not the full Unicode case mapping of `toLowerCase` and the `i` flag.
- PopupApply.ReplaceAll: the replacement is taken literally; `$&`, `$1` and similar substitution patterns in a rule's replacement are not expanded.
- PopupApply.ApplySorted: the `try`/`catch` around `replace` is not modelled, because a pattern built from escaped characters always compiles.
- Html.EscapeHtml: only strings and missing values are modelled; `String(s || '')` on a number or an object is not.
- Html.Esc: a `null` argument, which would throw in `esc`, is not modelled.
- Import.ImportFile: `JSON.parse` is a parameter (a parsed value or a parse error); numbers are integers only.
- Lifecycle.EnableStuckAfterThrow: follows from the definitions without a proof of its own.
- Import.ExportImportRoundTrip, Import.RejectedDocuments and Import.LastDuplicateDecides: these follow from the definitions without a proof of their own.
- Settle.WalkIdempotent: holds only for rules without whole-word; with whole-word a piece of a split text can match where the whole text did not (`Matcher.WholeWordPieceCanMatch`).
- Lifecycle.ObserverIdempotent: the same whole-word restriction as `Settle.WalkIdempotent`.
- The popup's `applyAll` rescans replacement text with later rules, so no idempotence or page-agreement is claimed for more than one rule.
- The fixed-fraction branch (`extension/content.js:34-39`) is modelled, but it can never be taken (`Pattern.ParseNumberToken` proves that its fraction is absent).
- Import.ImportFile: the elements of an imported `rules` array are not checked, while the content script and the popup read each element as a rule object; `Stored` models what that does to `loadRules`, and the rest of the model takes the rule list as `seq<Rule>`.
- Stored.AsRule: a `pattern` or `replacement` that is present but not a string reads as empty rather than as `String(x)`.
- Lifecycle.Enable: the page is stated to be masked (`Lifecycle.Masked`) only for rules without whole-word; with whole-word a later rule's pass can create a match an earlier rule's pass did not take (`Matcher.WholeWordPieceCanMatch`).
- Lifecycle.RulesChanged: the same whole-word restriction for the re-mask.
- Lifecycle.EnableFromStore: the observer's `MutationObserver` object is not modelled; whether it exists is the page's `observing` flag, and what it does with an added node is `Lifecycle.ObserveAdded`.
- Engine.ClearNode: a `span.pa-anon` written by the page itself, without `data-original`, clears to an empty text node; the model has no `data-original` for an element it did not create, so a page-authored span with its own `data-original` is not modelled.
- Matcher.FirstEnd: which end is picked among several that the language allows is fixed by the definition (greedy optional parts, two fraction digits before one), not by a separate ordering proof.
- The popup's rule list and button wiring (`extension/popup.js:24-56`) are not modelled beyond `Rules.DeleteAt` and `Rules.RowFlags`.

## Findings

| source | as written | input that shows it | evidently intended | confidence | as-written member | corrected member |
|---|---|---|---|---|---|---|
| extension/content.js:27-32 | the digit-run loop also consumes separators after the last digit, so a space or dot between a number and the next word is dropped from the expression | pattern "1 a" compiles to `1(?:[.,]\d{1,2})?a`, which does not match the text "1 a" | a rule matches its own pattern text, so separators are consumed only between digits | high; not executed | Pattern.TrailingSeparatorBreaksSelfMatch | Pattern.SelfMatch |
| extension/options.js:81-83 | the import stores any array as `rules`; the content script's sort comparator reads `.pattern` of every element, and `enable` sets its flag before loading, so a throw leaves the page unmasked and every later `enable` returns at once | the file `{"rules":[null,null]}` (a single `null` is never compared, so the sort does not throw) | an import stores only arrays of rule objects | medium; not executed | Stored.NullRulesImportBreaksLoad | Stored.CheckedImportKeepsLoadable |
| extension/content.js:132 | the observer walks only added element nodes, so a text node added directly is never masked | with the rule "5" on, a script sets an element's `textContent` to "5"; the added node is a text node and the page shows "5" | new content is masked whether it arrives as an element or as text | low; not executed | Lifecycle.AddedTextStaysUnmasked | Lifecycle.ObserveAddedFixed |

The page engine (`Engine`, `Restore`, `Settle`, `Lifecycle`) compiles rules with `Matcher.BuildRegex`, which follows the code as written. On a page the discrepancy shows as `Matcher.OwnTextNotMatched`. The corrected compiler is `Matcher.BuildRegexFixed`, and `Matcher.CorrectedFindsOwnText` shows that it finds a rule's own text. The rewriting, restoring and settling lemmas are stated for any matcher that consumes input, so they hold for the corrected compiler as well.

The page model keeps the observer as written (`Lifecycle.ObserveAdded`); `Lifecycle.ObserveAddedFixed` is the corrected observer.

The import finding shows on a page as `Lifecycle.EnableStuckAfterThrow`. With the import checking its elements (`Stored.ImportFileChecked`), `Lifecycle.CheckedImportThenEnable` shows that turning the page on after any import loads the rules and walks the page as `Lifecycle.Enable` does.
