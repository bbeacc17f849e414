/**
 * The rule list: the record the extension stores, the popup's and the options
 * page's add and delete logic, the duplicate check, the length-descending sort
 * and the flag pills of a rule row.
 */
module Rules {
  import opened Chars

  /**
   * A stored rule. A missing `pattern` or `replacement` reads as the empty
   * string, as every consumer does with `|| ''` or `?? ''`.
   */
  datatype Rule = Rule(pattern: string, replacement: string, wholeWord: bool, caseSensitive: bool)

  /** The contents of the add form: the two text fields and the two check boxes. */
  datatype RuleForm = RuleForm(pattern: string, replacement: string, wholeWord: bool, caseSensitive: bool)

  /** Which status message the popup shows after an add. */
  datatype AddStatus = Added | Blank | Duplicate

  // ---------------------------------------------------------------------------
  // Duplicates
  // ---------------------------------------------------------------------------

  /** Patterns are compared trimmed and lower-cased. */
  function Key(p: string): (k: string)
    ensures |k| <= |p|
    ensures k == [] <==> forall i | 0 <= i < |p| :: IsSpace(p[i])
  {
    LowerStr(Trim(p))
  }

  /** `hasPattern`: some stored rule has the same key as `p`. */
  function HasPattern(rules: seq<Rule>, p: string): (b: bool)
    ensures b <==> exists k | 0 <= k < |rules| :: Key(rules[k].pattern) == Key(p)
  {
    if rules == [] then false
    else Key(rules[0].pattern) == Key(p) || HasPattern(rules[1..], p)
  }

  /** No two rules share a key: the popup's promise about the list it writes. */
  predicate UniqueKeys(rules: seq<Rule>) {
    forall i, j | 0 <= i < j < |rules| :: Key(rules[i].pattern) != Key(rules[j].pattern)
  }

  lemma KeyOfTrimmed(p: string)
    ensures Key(Trim(p)) == Key(p)
  {
    TrimIdempotent(p);
  }

  // ---------------------------------------------------------------------------
  // Adding and deleting
  // ---------------------------------------------------------------------------

  /** The rule an add form describes, with its pattern trimmed. */
  function FormRule(f: RuleForm): Rule {
    Rule(Trim(f.pattern), f.replacement, f.wholeWord, f.caseSensitive)
  }

  /**
   * The popup's `addRule`: a blank pattern is ignored, a pattern whose key is
   * already stored is refused, anything else is appended.
   */
  function PopupAdd(rules: seq<Rule>, f: RuleForm): (r: (seq<Rule>, AddStatus))
    ensures Trim(f.pattern) == [] ==> r == (rules, Blank)
    ensures Trim(f.pattern) != [] && HasPattern(rules, f.pattern) ==> r == (rules, Duplicate)
    ensures Trim(f.pattern) != [] && !HasPattern(rules, f.pattern) ==>
      && r.1 == Added && |r.0| == |rules| + 1 && r.0[..|rules|] == rules
      && r.0[|rules|].pattern == Trim(f.pattern) && r.0[|rules|].pattern != []
      && r.0[|rules|].replacement == f.replacement
      && r.0[|rules|].wholeWord == f.wholeWord && r.0[|rules|].caseSensitive == f.caseSensitive
  {
    var pattern := Trim(f.pattern);
    KeyOfTrimmed(f.pattern);
    if pattern == [] then (rules, Blank)
    else if HasPattern(rules, pattern) then (rules, Duplicate)
    else (rules + [FormRule(f)], Added)
  }

  /** Adding through the popup keeps the keys of the list distinct. */
  lemma PopupAddKeepsKeysUnique(rules: seq<Rule>, f: RuleForm)
    requires UniqueKeys(rules)
    ensures UniqueKeys(PopupAdd(rules, f).0)
  {
    var r := PopupAdd(rules, f).0;
    if r != rules {
      KeyOfTrimmed(f.pattern);
      assert forall i | 0 <= i < |rules| :: r[i] == rules[i];
      assert Key(r[|rules|].pattern) == Key(f.pattern);
    }
  }

  /** The options page's add: a blank pattern is ignored, anything else is appended, duplicates included. */
  function OptionsAdd(rules: seq<Rule>, f: RuleForm): (r: seq<Rule>)
    ensures Trim(f.pattern) == [] ==> r == rules
    ensures Trim(f.pattern) != [] ==>
      && |r| == |rules| + 1 && r[..|rules|] == rules
      && r[|rules|].pattern == Trim(f.pattern) && r[|rules|].replacement == f.replacement
      && r[|rules|].wholeWord == f.wholeWord && r[|rules|].caseSensitive == f.caseSensitive
  {
    if Trim(f.pattern) == [] then rules else rules + [FormRule(f)]
  }

  /** Unlike the popup, the options page can store two rules with the same key. */
  lemma OptionsAddCanDuplicate()
    ensures UniqueKeys([Rule("a", "x", false, false)])
    ensures !UniqueKeys(OptionsAdd([Rule("a", "x", false, false)], RuleForm("A", "y", false, false)))
  {
    var f := RuleForm("A", "y", false, false);
    TrimOfUnpadded("A");
    TrimOfUnpadded("a");
    var r := OptionsAdd([Rule("a", "x", false, false)], f);
    assert r == [Rule("a", "x", false, false), Rule("A", "y", false, false)];
    assert Key(r[0].pattern) == Key(r[1].pattern) by {
      assert LowerStr("A") == "a";
      assert LowerStr("a") == "a";
    }
  }

  /**
   * The index `splice(idx, 1)` starts at: a negative index counts from the end
   * (clamped at 0), a too large one is clamped to the length.
   */
  function SpliceStart(len: nat, idx: int): (k: nat)
    ensures k <= len
    ensures 0 <= idx <= len ==> k == idx
    ensures idx < 0 && len + idx >= 0 ==> k == len + idx
    ensures len + idx < 0 ==> k == 0
    ensures idx > len ==> k == len
  {
    if idx < 0 then (if len + idx < 0 then 0 else len + idx)
    else if idx > len then len
    else idx
  }

  /**
   * `rs.splice(idx, 1)`: the delete buttons of both the popup and the options
   * page. Exactly the element at the start index goes; the others keep their
   * order; an index past the end deletes nothing.
   */
  function DeleteAt(rules: seq<Rule>, idx: int): (r: seq<Rule>)
    ensures var k := SpliceStart(|rules|, idx);
      if k < |rules| then
        && |r| == |rules| - 1
        && (forall i | 0 <= i < k :: r[i] == rules[i])
        && (forall i | k <= i < |r| :: r[i] == rules[i + 1])
        && multiset(r) + multiset{rules[k]} == multiset(rules)
      else
        r == rules
  {
    var k := SpliceStart(|rules|, idx);
    if k < |rules| then
      RemoveOne(rules, k);
      rules[..k] + rules[k + 1..]
    else
      rules
  }

  lemma RemoveOne(rules: seq<Rule>, k: nat)
    requires k < |rules|
    ensures var r := rules[..k] + rules[k + 1..];
      && |r| == |rules| - 1
      && (forall i | 0 <= i < k :: r[i] == rules[i])
      && (forall i | k <= i < |r| :: r[i] == rules[i + 1])
      && multiset(r) + multiset{rules[k]} == multiset(rules)
  {
    assert rules == rules[..k] + [rules[k]] + rules[k + 1..];
  }

  /** Deleting a rule keeps the keys of the list distinct. */
  lemma DeleteKeepsKeysUnique(rules: seq<Rule>, idx: int)
    requires UniqueKeys(rules)
    ensures UniqueKeys(DeleteAt(rules, idx))
  {
    var k := SpliceStart(|rules|, idx);
    var r := DeleteAt(rules, idx);
    if k < |rules| {
      forall i, j | 0 <= i < j < |r| ensures Key(r[i].pattern) != Key(r[j].pattern) {
        var i' := if i < k then i else i + 1;
        var j' := if j < k then j else j + 1;
        assert r[i] == rules[i'] && r[j] == rules[j'] && i' < j';
      }
    }
  }

  // ---------------------------------------------------------------------------
  // Length-descending stable sort
  // ---------------------------------------------------------------------------

  /** `(rule.pattern || '').length`, counted in UTF-16 code units as JavaScript does. */
  function PatLen(r: Rule): (n: nat)
    ensures |r.pattern| <= n <= 2 * |r.pattern|
    ensures (forall k | 0 <= k < |r.pattern| :: !IsAstral(r.pattern[k])) ==> n == |r.pattern|
  {
    Utf16Length(r.pattern)
  }

  predicate SortedByLengthDesc(rs: seq<Rule>) {
    forall i, j | 0 <= i < j < |rs| :: PatLen(rs[i]) >= PatLen(rs[j])
  }

  /** The rules of pattern length `n`, in list order. */
  function WithLength(rs: seq<Rule>, n: nat): seq<Rule> {
    if rs == [] then []
    else (if PatLen(rs[0]) == n then [rs[0]] else []) + WithLength(rs[1..], n)
  }

  /** Insert `x` before the first rule no longer than it: after the longer ones, before its ties. */
  function InsertByLength(x: Rule, ys: seq<Rule>): (r: seq<Rule>)
    ensures multiset(r) == multiset(ys) + multiset{x}
  {
    if ys == [] || PatLen(x) >= PatLen(ys[0]) then
      [x] + ys
    else
      assert ys == [ys[0]] + ys[1..];
      [ys[0]] + InsertByLength(x, ys[1..])
  }

  lemma WithLengthCons(a: Rule, s: seq<Rule>, n: nat)
    ensures WithLength([a] + s, n) == (if PatLen(a) == n then [a] else []) + WithLength(s, n)
  {
    assert ([a] + s)[0] == a && ([a] + s)[1..] == s;
  }

  lemma SortedTail(ys: seq<Rule>)
    requires ys != [] && SortedByLengthDesc(ys)
    ensures SortedByLengthDesc(ys[1..])
    ensures forall e | e in ys[1..] :: PatLen(e) <= PatLen(ys[0])
  {
  }

  /** Every rule of an insertion result is the inserted one or came from the list, so is no longer than some bound both respect. */
  lemma InsertBounded(x: Rule, ys: seq<Rule>, bound: nat)
    requires PatLen(x) <= bound && forall e | e in ys :: PatLen(e) <= bound
    ensures forall e | e in InsertByLength(x, ys) :: PatLen(e) <= bound
  {
    forall e | e in InsertByLength(x, ys) ensures PatLen(e) <= bound {
      assert e in multiset(InsertByLength(x, ys));
      assert e in multiset(ys) + multiset{x};
      if e != x {
        assert e in multiset(ys);
      }
    }
  }

  lemma {:induction false} InsertKeepsSorted(x: Rule, ys: seq<Rule>)
    requires SortedByLengthDesc(ys)
    ensures SortedByLengthDesc(InsertByLength(x, ys))
  {
    if !(ys == [] || PatLen(x) >= PatLen(ys[0])) {
      var y := ys[0];
      SortedTail(ys);
      var tail := InsertByLength(x, ys[1..]);
      InsertByLengthLater(x, ys);
      InsertKeepsSorted(x, ys[1..]);
      InsertBounded(x, ys[1..], PatLen(y));
      SortedCons(y, tail);
    }
  }

  /** A rule no shorter than every rule of a sorted list can go in front of it. */
  lemma SortedCons(y: Rule, tail: seq<Rule>)
    requires SortedByLengthDesc(tail) && forall e | e in tail :: PatLen(e) <= PatLen(y)
    ensures SortedByLengthDesc([y] + tail)
  {
    var r := [y] + tail;
    forall i, j | 0 <= i < j < |r| ensures PatLen(r[i]) >= PatLen(r[j]) {
      var b := tail[j - 1];
      assert r[j] == b;
      if i > 0 {
        assert r[i] == tail[i - 1];
      } else {
        assert b in tail;
      }
    }
  }

  lemma InsertByLengthLater(x: Rule, ys: seq<Rule>)
    requires ys != [] && PatLen(x) < PatLen(ys[0])
    ensures InsertByLength(x, ys) == [ys[0]] + InsertByLength(x, ys[1..])
  {
  }

  /** Two rules of different lengths never both have length `n`, so their order does not matter to it. */
  lemma SwapDistinctLengths(a: Rule, b: Rule, w: seq<Rule>, n: nat)
    requires PatLen(a) != PatLen(b)
    ensures (if PatLen(a) == n then [a] else []) + ((if PatLen(b) == n then [b] else []) + w)
         == (if PatLen(b) == n then [b] else []) + ((if PatLen(a) == n then [a] else []) + w)
  {
  }

  lemma {:induction false} InsertStable(x: Rule, ys: seq<Rule>, n: nat)
    ensures WithLength(InsertByLength(x, ys), n) == WithLength([x] + ys, n)
  {
    if !(ys == [] || PatLen(x) >= PatLen(ys[0])) {
      var y := ys[0];
      var rest := ys[1..];
      var tail := InsertByLength(x, rest);
      InsertByLengthLater(x, ys);
      InsertStable(x, rest, n);
      WithLengthCons(y, tail, n);
      WithLengthCons(x, rest, n);
      WithLengthCons(x, ys, n);
      assert ys == [y] + rest;
      WithLengthCons(y, rest, n);
      SwapDistinctLengths(y, x, WithLength(rest, n), n);
    }
  }

  /**
   * The sort of `loadRules` (content script) and `applyAll` (popup): a stable
   * sort on the comparator `b.length - a.length`.
   */
  function SortByLength(rules: seq<Rule>): (r: seq<Rule>)
    ensures multiset(r) == multiset(rules)
    ensures SortedByLengthDesc(r)
    ensures forall n: nat :: WithLength(r, n) == WithLength(rules, n)
  {
    if rules == [] then []
    else
      var sortedTail := SortByLength(rules[1..]);
      SortStep(rules, sortedTail);
      InsertByLength(rules[0], sortedTail)
  }

  /**
   * The sort key is JavaScript's length: "\U{1F600}x" is three code units
   * long, as long as "abc", so the two keep their stored order.
   */
  lemma AstralPatternTies(a: Rule, b: Rule)
    requires a.pattern == "\U{1F600}x" && b.pattern == "abc"
    ensures PatLen(a) == PatLen(b) == 3
    ensures SortByLength([a, b]) == [a, b]
  {
    assert Utf16Length(a.pattern[1..][1..]) == 0;
    assert Utf16Length(b.pattern[1..][1..][1..]) == 0;
    assert [a, b][1..] == [b];
    assert [b][1..] == [];
    assert SortByLength([b]) == [b];
  }

  /** One step of the insertion sort: the head goes into the sorted tail. */
  lemma SortStep(rules: seq<Rule>, sortedTail: seq<Rule>)
    requires rules != []
    requires multiset(sortedTail) == multiset(rules[1..]) && SortedByLengthDesc(sortedTail)
    requires forall n: nat :: WithLength(sortedTail, n) == WithLength(rules[1..], n)
    ensures var r := InsertByLength(rules[0], sortedTail);
      && multiset(r) == multiset(rules)
      && SortedByLengthDesc(r)
      && forall n: nat :: WithLength(r, n) == WithLength(rules, n)
  {
    InsertKeepsSorted(rules[0], sortedTail);
    assert rules == [rules[0]] + rules[1..];
    InsertTailStable(rules, sortedTail);
  }

  /** Inserting the head into a tail that keeps every length class in order keeps the whole list's classes. */
  lemma InsertTailStable(rules: seq<Rule>, sortedTail: seq<Rule>)
    requires rules != []
    requires forall n: nat :: WithLength(sortedTail, n) == WithLength(rules[1..], n)
    ensures forall n: nat :: WithLength(InsertByLength(rules[0], sortedTail), n) == WithLength(rules, n)
  {
    forall n: nat ensures WithLength(InsertByLength(rules[0], sortedTail), n) == WithLength(rules, n) {
      InsertStable(rules[0], sortedTail, n);
      WithLengthCons(rules[0], sortedTail, n);
      WithLengthCons(rules[0], rules[1..], n);
      assert rules == [rules[0]] + rules[1..];
    }
  }

  // ---------------------------------------------------------------------------
  // Rule rows
  // ---------------------------------------------------------------------------

  /** The flag pills of a rule row (`rowHtml`, and the popup's list), in display order. */
  function RowFlags(r: Rule): (flags: seq<string>)
    ensures "word" in flags <==> r.wholeWord
    ensures "case" in flags <==> r.caseSensitive
    ensures |flags| == (if r.wholeWord then 1 else 0) + (if r.caseSensitive then 1 else 0)
    ensures forall i, j | 0 <= i < j < |flags| :: flags[i] == "word" && flags[j] == "case"
  {
    (if r.wholeWord then ["word"] else []) + (if r.caseSensitive then ["case"] else [])
  }
}
