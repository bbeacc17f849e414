/**
 * A second walk adds no masks. The walker never looks inside a mask, and once
 * a rule has split a text node none of the literal pieces it leaves holds a
 * match of that rule, nor of the rules before it. This holds for rules
 * without the whole-word option; with it, a piece cut out of a longer text
 * can match on its own (see `Matcher.WholeWordPieceCanMatch`).
 */
module Settle {
  import opened Pattern
  import opened Rules
  import opened Matcher
  import opened Engine

  /** No text node the walker would visit holds a match of `m`. */
  predicate Settled(m: Matcher, ns: seq<Node>, excl: bool)
    requires Consuming(m.tokens)
    decreases ns
  {
    ns == [] || (SettledNode(m, ns[0], excl) && Settled(m, ns[1..], excl))
  }

  predicate SettledNode(m: Matcher, n: Node, excl: bool)
    requires Consuming(m.tokens)
    decreases n
  {
    match n
    case Text(s) => excl || !Scannable(s) || ScanAll(m, s) == []
    case Mask(_, _) => true
    case Elem(tag, cls, ed, ch) => Settled(m, ch, excl || Excluded(tag, cls, ed))
  }

  lemma {:induction false} SettledAppend(m: Matcher, a: seq<Node>, b: seq<Node>, excl: bool)
    requires Consuming(m.tokens)
    ensures Settled(m, a + b, excl) <==> Settled(m, a, excl) && Settled(m, b, excl)
  {
    if a == [] {
      assert a + b == b;
    } else {
      assert (a + b)[0] == a[0] && (a + b)[1..] == a[1..] + b;
      SettledAppend(m, a[1..], b, excl);
    }
  }

  /** Literal texts and masks only: what a split leaves is settled when each literal text is. */
  lemma SettledPieces(m: Matcher, g: seq<Node>, excl: bool)
    requires Consuming(m.tokens)
    requires forall k | 0 <= k < |g| :: !g[k].Elem? && (g[k].Text? ==> ScanAll(m, g[k].s) == [])
    ensures Settled(m, g, excl)
    decreases |g|
  {
    if g != [] {
      SettledPieces(m, g[1..], excl);
    }
  }

  /** On a settled forest a rule changes nothing. */
  lemma {:induction false} RewriteSettledIdentity(m: Matcher, repl: string, ns: seq<Node>, excl: bool)
    requires Consuming(m.tokens) && Settled(m, ns, excl)
    ensures RewriteForest(m, repl, ns, excl) == ns
    decreases ns
  {
    if ns != [] {
      RewriteSettledIdentityNode(m, repl, ns[0], excl);
      RewriteSettledIdentity(m, repl, ns[1..], excl);
      assert ns == [ns[0]] + ns[1..];
    }
  }

  lemma {:induction false} RewriteSettledIdentityNode(m: Matcher, repl: string, n: Node, excl: bool)
    requires Consuming(m.tokens) && SettledNode(m, n, excl)
    ensures RewriteNode(m, repl, n, excl) == [n]
    decreases n
  {
    if n.Elem? {
      RewriteSettledIdentity(m, repl, n.children, excl || Excluded(n.tag, n.classes, n.editable));
    }
  }

  // ---------------------------------------------------------------------------
  // A rule settles what it rewrites
  // ---------------------------------------------------------------------------

  /** The literal pieces between and after the matches of a scan hold no match of the scanning rule. */
  lemma {:induction false} GapsSettled(m: Matcher, s: string, last: nat, spans: seq<Span>, repl: string, excl: bool)
    requires !m.wholeWord && Consuming(m.tokens) && last <= |s|
    requires IsScan(m, s, last, spans) && Tiling(spans, last, |s|)
    ensures Settled(m, Fragments(s, last, spans, repl), excl)
    decreases |spans|
  {
    if spans == [] {
      if last < |s| {
        GapMatchFree(m, s, last, |s|);
        assert s[last..|s|] == s[last..];
        SettledPieces(m, [Text(s[last..])], excl);
      }
    } else {
      var sp := spans[0];
      var gap := if last < sp.start then [Text(s[last..sp.start])] else [];
      var mask := [Mask(s[sp.start..sp.end], repl)];
      var rest := Fragments(s, sp.end, spans[1..], repl);
      FragmentsStep(s, last, spans, repl);
      GapsSettled(m, s, sp.end, spans[1..], repl, excl);
      if last < sp.start {
        GapMatchFree(m, s, last, sp.start);
      }
      SettledPieces(m, gap + mask, excl);
      SettledAppend(m, gap, mask + rest, excl);
      SettledAppend(m, mask, rest, excl);
      SettledAppend(m, gap, mask, excl);
    }
  }

  lemma {:induction false} RewriteSettles(m: Matcher, repl: string, ns: seq<Node>, excl: bool)
    requires !m.wholeWord && Consuming(m.tokens)
    ensures Settled(m, RewriteForest(m, repl, ns, excl), excl)
    decreases ns
  {
    if ns != [] {
      RewriteSettlesNode(m, repl, ns[0], excl);
      RewriteSettles(m, repl, ns[1..], excl);
      SettledAppend(m, RewriteNode(m, repl, ns[0], excl), RewriteForest(m, repl, ns[1..], excl), excl);
    }
  }

  lemma {:induction false} RewriteSettlesNode(m: Matcher, repl: string, n: Node, excl: bool)
    requires !m.wholeWord && Consuming(m.tokens)
    ensures Settled(m, RewriteNode(m, repl, n, excl), excl)
    decreases n
  {
    match n
    case Text(s) =>
      if excl || !Scannable(s) || ScanAll(m, s) == [] {
        assert RewriteNode(m, repl, n, excl) == [n];
        assert SettledNode(m, n, excl) && [n][1..] == [];
        assert Settled(m, [], excl);
      } else {
        GapsSettled(m, s, 0, ScanAll(m, s), repl, excl);
      }
    case Mask(_, _) =>
      assert RewriteNode(m, repl, n, excl) == [n];
      SettledSingleton(m, n, excl);
    case Elem(tag, cls, ed, ch) =>
      RewriteSettles(m, repl, ch, excl || Excluded(tag, cls, ed));
      var e := Elem(tag, cls, ed, RewriteForest(m, repl, ch, excl || Excluded(tag, cls, ed)));
      assert RewriteNode(m, repl, n, excl) == [e];
      SettledSingleton(m, e, excl);
  }

  lemma SettledSingleton(m: Matcher, n: Node, excl: bool)
    requires Consuming(m.tokens) && SettledNode(m, n, excl)
    ensures Settled(m, [n], excl)
  {
    assert [n][0] == n && [n][1..] == [];
  }

  /** Below an excluded element the walker visits nothing, so there is nothing to settle. */
  lemma {:induction false} SettledExcluded(m: Matcher, ns: seq<Node>)
    requires Consuming(m.tokens)
    ensures Settled(m, ns, true)
    decreases ns
  {
    if ns != [] {
      SettledExcludedNode(m, ns[0]);
      SettledExcluded(m, ns[1..]);
    }
  }

  lemma {:induction false} SettledExcludedNode(m: Matcher, n: Node)
    requires Consuming(m.tokens)
    ensures SettledNode(m, n, true)
    decreases n
  {
    if n.Elem? {
      SettledExcluded(m, n.children);
    }
  }

  /** Every rule with a pattern is settled on a forest in excluded context. */
  lemma SettledForExcluded(rules: seq<Rule>, ns: seq<Node>)
    ensures SettledFor(rules, ns, true)
  {
    forall k | 0 <= k < |rules| && rules[k].pattern != [] ensures Settled(BuildRegex(rules[k]), ns, true) {
      SettledExcluded(BuildRegex(rules[k]), ns);
    }
  }

  // ---------------------------------------------------------------------------
  // A rule keeps what other rules settled
  // ---------------------------------------------------------------------------

  /** Every literal piece of a split is a piece of a text without matches of `m2`, so has none either. */
  lemma {:induction false} PiecesStaySettled(m2: Matcher, s: string, last: nat, spans: seq<Span>, repl: string, excl: bool)
    requires !m2.wholeWord && Consuming(m2.tokens) && ScanAll(m2, s) == []
    requires Tiling(spans, last, |s|)
    ensures Settled(m2, Fragments(s, last, spans, repl), excl)
    decreases |spans|
  {
    if spans == [] {
      if last < |s| {
        FactorMatchFree(m2, s, last, |s|);
        assert s[last..|s|] == s[last..];
        SettledPieces(m2, [Text(s[last..])], excl);
      }
    } else {
      var sp := spans[0];
      var gap := if last < sp.start then [Text(s[last..sp.start])] else [];
      var mask := [Mask(s[sp.start..sp.end], repl)];
      var rest := Fragments(s, sp.end, spans[1..], repl);
      FragmentsStep(s, last, spans, repl);
      PiecesStaySettled(m2, s, sp.end, spans[1..], repl, excl);
      if last < sp.start {
        FactorMatchFree(m2, s, last, sp.start);
      }
      SettledPieces(m2, gap + mask, excl);
      SettledAppend(m2, gap, mask + rest, excl);
      SettledAppend(m2, mask, rest, excl);
      SettledAppend(m2, gap, mask, excl);
    }
  }

  lemma {:induction false} RewriteKeepsSettled(m: Matcher, m2: Matcher, repl: string, ns: seq<Node>, excl: bool)
    requires Consuming(m.tokens) && !m2.wholeWord && Consuming(m2.tokens)
    requires Settled(m2, ns, excl)
    ensures Settled(m2, RewriteForest(m, repl, ns, excl), excl)
    decreases ns
  {
    if ns != [] {
      RewriteKeepsSettledNode(m, m2, repl, ns[0], excl);
      RewriteKeepsSettled(m, m2, repl, ns[1..], excl);
      SettledAppend(m2, RewriteNode(m, repl, ns[0], excl), RewriteForest(m, repl, ns[1..], excl), excl);
    }
  }

  lemma {:induction false} RewriteKeepsSettledNode(m: Matcher, m2: Matcher, repl: string, n: Node, excl: bool)
    requires Consuming(m.tokens) && !m2.wholeWord && Consuming(m2.tokens)
    requires SettledNode(m2, n, excl)
    ensures Settled(m2, RewriteNode(m, repl, n, excl), excl)
    decreases n
  {
    match n
    case Text(s) =>
      if excl || !Scannable(s) || ScanAll(m, s) == [] {
        assert Settled(m2, [], excl);
      } else {
        PiecesStaySettled(m2, s, 0, ScanAll(m, s), repl, excl);
      }
    case Mask(_, _) =>
      assert Settled(m2, [], excl);
    case Elem(tag, cls, ed, ch) =>
      RewriteKeepsSettled(m, m2, repl, ch, excl || Excluded(tag, cls, ed));
      var e := Elem(tag, cls, ed, RewriteForest(m, repl, ch, excl || Excluded(tag, cls, ed)));
      assert RewriteNode(m, repl, n, excl) == [e];
      assert SettledNode(m2, e, excl) && [e][1..] == [];
      assert Settled(m2, [], excl);
  }

  // ---------------------------------------------------------------------------
  // The whole walk
  // ---------------------------------------------------------------------------

  predicate NoWholeWord(rules: seq<Rule>) {
    forall k | 0 <= k < |rules| :: !rules[k].wholeWord
  }

  /** Settled for every rule of the list that has a pattern. */
  predicate SettledFor(rules: seq<Rule>, ns: seq<Node>, excl: bool) {
    forall k | 0 <= k < |rules| && rules[k].pattern != [] :: Settled(BuildRegex(rules[k]), ns, excl)
  }

  /** The rest of the walk keeps a forest settled for any rule without the whole-word option. */
  lemma {:induction false} WalkKeepsSettled(rules: seq<Rule>, r2: Rule, ns: seq<Node>, excl: bool)
    requires !r2.wholeWord && r2.pattern != [] && Settled(BuildRegex(r2), ns, excl)
    ensures Settled(BuildRegex(r2), WalkForest(rules, ns, excl), excl)
    decreases |rules|
  {
    if rules != [] {
      if rules[0].pattern != [] {
        RewriteKeepsSettled(BuildRegex(rules[0]), BuildRegex(r2), rules[0].replacement, ns, excl);
      }
      WalkKeepsSettled(rules[1..], r2, ApplyRule(rules[0], ns, excl), excl);
    }
  }

  /** After the walk no visited text holds a match of any rule. */
  lemma {:induction false} WalkSettles(rules: seq<Rule>, ns: seq<Node>, excl: bool)
    requires NoWholeWord(rules)
    ensures SettledFor(rules, WalkForest(rules, ns, excl), excl)
    decreases |rules|
  {
    if rules != [] {
      var next := ApplyRule(rules[0], ns, excl);
      var out := WalkForest(rules, ns, excl);
      assert NoWholeWord(rules[1..]);
      WalkSettles(rules[1..], next, excl);
      if rules[0].pattern != [] {
        RewriteSettles(BuildRegex(rules[0]), rules[0].replacement, ns, excl);
        WalkKeepsSettled(rules[1..], rules[0], next, excl);
      }
      forall k | 0 <= k < |rules| && rules[k].pattern != [] ensures Settled(BuildRegex(rules[k]), out, excl) {
        if k > 0 {
          assert rules[k] == rules[1..][k - 1];
        }
      }
    }
  }

  /** A walk over a forest settled for all its rules changes nothing. */
  lemma {:induction false} WalkSettledIdentity(rules: seq<Rule>, ns: seq<Node>, excl: bool)
    requires SettledFor(rules, ns, excl)
    ensures WalkForest(rules, ns, excl) == ns
    decreases |rules|
  {
    if rules != [] {
      if rules[0].pattern != [] {
        RewriteSettledIdentity(BuildRegex(rules[0]), rules[0].replacement, ns, excl);
      }
      assert SettledFor(rules[1..], ns, excl) by {
        forall k | 0 <= k < |rules[1..]| && rules[1..][k].pattern != []
          ensures Settled(BuildRegex(rules[1..][k]), ns, excl)
        {
          assert rules[1..][k] == rules[k + 1];
        }
      }
      WalkSettledIdentity(rules[1..], ns, excl);
    }
  }

  /** Walking twice is walking once: a second pass adds no masks. */
  lemma WalkIdempotent(root: Node, rules: seq<Rule>, above: bool)
    requires root.Elem? && NoWholeWord(rules)
    ensures WalkAndReplace(WalkAndReplace(root, rules, above), rules, above) == WalkAndReplace(root, rules, above)
  {
    var ex := above || Excluded(root.tag, root.classes, root.editable);
    WalkSettles(rules, root.children, ex);
    WalkSettledIdentity(rules, WalkForest(rules, root.children, ex), ex);
  }
}
