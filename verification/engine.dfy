/**
 * The content script's mask/restore engine over an immutable page tree:
 * splitting a text node around the matches of a rule (`replaceInTextNode`),
 * the walk over the page rule by rule (`walkAndReplace`), and putting every
 * original back (`clearAnonymization`).
 */
module Engine {
  import opened Chars
  import opened Pattern
  import opened Rules
  import opened Matcher

  /**
   * A page node. `Mask` is the `span.pa-anon` the engine inserts: it shows
   * `replacement` and remembers `original` (its `data-original`). An element
   * carries its tag name (lower case, as HTML documents report it), its class
   * list and whether its `contenteditable` attribute is `"true"`.
   */
  datatype Node =
    | Text(s: string)
    | Elem(tag: string, classes: seq<string>, editable: bool, children: seq<Node>)
    | Mask(original: string, replacement: string)

  /** The tag names listed in `EXCLUDE_SELECTOR`. */
  const ExcludedTags: seq<string> := ["script", "style", "noscript", "textarea", "input", "select", "pre", "code", "kbd", "samp"]

  /** The class of an inserted mask. */
  const MaskClass: string := "pa-anon"

  /** An element `EXCLUDE_SELECTOR` matches: an excluded tag, an editable element or a mask. */
  predicate Excluded(tag: string, classes: seq<string>, editable: bool) {
    tag in ExcludedTags || editable || MaskClass in classes
  }

  /** The tree walker's filter on the text itself: not empty and not only white space. */
  predicate Scannable(s: string) {
    s != [] && Trim(s) != []
  }

  // ---------------------------------------------------------------------------
  // What a forest reads as
  // ---------------------------------------------------------------------------

  /** The text a forest held before masking: a mask stands for its original. */
  function Original(ns: seq<Node>): string
    decreases ns
  {
    if ns == [] then [] else OriginalOf(ns[0]) + Original(ns[1..])
  }

  function OriginalOf(n: Node): string
    decreases n
  {
    match n
    case Text(s) => s
    case Mask(o, _) => o
    case Elem(_, _, _, ch) => Original(ch)
  }

  /** The originals of the masks at the top level of a forest, in order. */
  function MaskOriginals(ns: seq<Node>): seq<string> {
    if ns == [] then []
    else (if ns[0].Mask? then [ns[0].original] else []) + MaskOriginals(ns[1..])
  }

  /** `textContent`: a mask shows its replacement. */
  function Shown(ns: seq<Node>): string
    decreases ns
  {
    if ns == [] then [] else ShownOf(ns[0]) + Shown(ns[1..])
  }

  function ShownOf(n: Node): string
    decreases n
  {
    match n
    case Text(s) => s
    case Mask(_, r) => r
    case Elem(_, _, _, ch) => Shown(ch)
  }

  lemma {:induction false} OriginalAppend(a: seq<Node>, b: seq<Node>)
    ensures Original(a + b) == Original(a) + Original(b)
  {
    if a == [] {
      assert a + b == b;
    } else {
      assert (a + b)[0] == a[0] && (a + b)[1..] == a[1..] + b;
      OriginalAppend(a[1..], b);
    }
  }

  lemma {:induction false} ShownAppend(a: seq<Node>, b: seq<Node>)
    ensures Shown(a + b) == Shown(a) + Shown(b)
  {
    if a == [] {
      assert a + b == b;
    } else {
      assert (a + b)[0] == a[0] && (a + b)[1..] == a[1..] + b;
      ShownAppend(a[1..], b);
    }
  }

  lemma {:induction false} MaskOriginalsAppend(a: seq<Node>, b: seq<Node>)
    ensures MaskOriginals(a + b) == MaskOriginals(a) + MaskOriginals(b)
  {
    if a == [] {
      assert a + b == b;
    } else {
      assert (a + b)[0] == a[0] && (a + b)[1..] == a[1..] + b;
      MaskOriginalsAppend(a[1..], b);
    }
  }

  // ---------------------------------------------------------------------------
  // Splitting one text node
  // ---------------------------------------------------------------------------

  /** The texts the matches cover, in order. */
  function Matched(s: string, last: nat, spans: seq<Span>): seq<string>
    requires Tiling(spans, last, |s|)
    decreases |spans|
  {
    if spans == [] then [] else [s[spans[0].start..spans[0].end]] + Matched(s, spans[0].end, spans[1..])
  }

  /** A piece of a split text node: a non-empty literal text or a mask showing `repl`. */
  predicate Piece(n: Node, repl: string) {
    (n.Text? && n.s != []) || (n.Mask? && n.replacement == repl)
  }

  /**
   * The fragment the `exec` loop builds from `last` on: the literal text
   * before each match (only when non-empty), a mask for the match, and the
   * literal rest after the last match (only when non-empty).
   */
  function Fragments(s: string, last: nat, spans: seq<Span>, repl: string): (r: seq<Node>)
    requires Tiling(spans, last, |s|)
    ensures forall k | 0 <= k < |r| :: Piece(r[k], repl)
    decreases |spans|
  {
    if spans == [] then
      if last < |s| then [Text(s[last..])] else []
    else
      var sp := spans[0];
      var gap := if last < sp.start then [Text(s[last..sp.start])] else [];
      gap + [Mask(s[sp.start..sp.end], repl)] + Fragments(s, sp.end, spans[1..], repl)
  }

  /** The fragments' unrolled shape: the gap before the first match, its mask, the rest. */
  lemma FragmentsStep(s: string, last: nat, spans: seq<Span>, repl: string)
    requires Tiling(spans, last, |s|) && spans != []
    ensures var sp := spans[0];
      Fragments(s, last, spans, repl)
        == (if last < sp.start then [Text(s[last..sp.start])] else [])
           + ([Mask(s[sp.start..sp.end], repl)] + Fragments(s, sp.end, spans[1..], repl))
  {
  }

  /** The literal texts and the masks' originals, in order, are exactly the text from `last` on. */
  lemma {:induction false} FragmentsOriginal(s: string, last: nat, spans: seq<Span>, repl: string)
    requires Tiling(spans, last, |s|)
    ensures Original(Fragments(s, last, spans, repl)) == s[last..]
    decreases |spans|
  {
    if spans == [] {
      if last < |s| {
        assert Original([Text(s[last..])]) == s[last..] + Original([]);
      }
    } else {
      var sp := spans[0];
      var gap := if last < sp.start then [Text(s[last..sp.start])] else [];
      var mask := [Mask(s[sp.start..sp.end], repl)];
      var rest := Fragments(s, sp.end, spans[1..], repl);
      FragmentsStep(s, last, spans, repl);
      FragmentsOriginal(s, sp.end, spans[1..], repl);
      OriginalAppend(gap, mask + rest);
      OriginalAppend(mask, rest);
      assert Original(gap) == s[last..sp.start] by {
        if last < sp.start {
          assert Original(gap) == s[last..sp.start] + Original([]);
        }
      }
      assert Original(mask) == s[sp.start..sp.end] + Original([]);
      assert last <= sp.start <= sp.end <= |s|;
      SliceThree(s, last, sp.start, sp.end);
    }
  }

  lemma SliceThree(s: string, a: nat, b: nat, c: nat)
    requires a <= b <= c <= |s|
    ensures s[a..] == s[a..b] + (s[b..c] + s[c..])
  {
    assert s[b..] == s[b..c] + s[c..];
    assert s[a..] == s[a..b] + s[b..];
  }

  /** The masks hold the matched texts, one per match, in order. */
  lemma {:induction false} FragmentsMasks(s: string, last: nat, spans: seq<Span>, repl: string)
    requires Tiling(spans, last, |s|)
    ensures MaskOriginals(Fragments(s, last, spans, repl)) == Matched(s, last, spans)
    decreases |spans|
  {
    if spans == [] {
      if last < |s| {
        assert MaskOriginals([Text(s[last..])]) == [] + MaskOriginals([]);
      }
    } else {
      var sp := spans[0];
      var gap := if last < sp.start then [Text(s[last..sp.start])] else [];
      var mask := [Mask(s[sp.start..sp.end], repl)];
      var rest := Fragments(s, sp.end, spans[1..], repl);
      FragmentsStep(s, last, spans, repl);
      FragmentsMasks(s, sp.end, spans[1..], repl);
      MaskOriginalsAppend(gap, mask + rest);
      MaskOriginalsAppend(mask, rest);
      assert MaskOriginals(gap) == [] by {
        if last < sp.start {
          assert MaskOriginals(gap) == [] + MaskOriginals([]);
        }
      }
      assert MaskOriginals(mask) == [s[sp.start..sp.end]] + MaskOriginals([]);
    }
  }

  /**
   * `replaceInTextNode`: a text without a match stays one text node;
   * otherwise it becomes the fragments of the leftmost-first scan.
   */
  function ReplaceInText(m: Matcher, repl: string, s: string): (r: seq<Node>)
    requires Consuming(m.tokens)
    ensures ScanAll(m, s) == [] ==> r == [Text(s)]
    ensures Original(r) == s
    ensures ScanAll(m, s) != [] ==>
      && MaskOriginals(r) == Matched(s, 0, ScanAll(m, s))
      && forall k | 0 <= k < |r| :: Piece(r[k], repl)
  {
    var spans := ScanAll(m, s);
    if s == [] || spans == [] then
      assert Original([Text(s)]) == s + Original([]);
      [Text(s)]
    else
      FragmentsOriginal(s, 0, spans, repl);
      FragmentsMasks(s, 0, spans, repl);
      Fragments(s, 0, spans, repl)
  }

  // ---------------------------------------------------------------------------
  // The walk
  // ---------------------------------------------------------------------------

  /**
   * One rule over a forest. `excl` says whether some enclosing element
   * (an ancestor of these nodes) is excluded: `closest()` looks at the parent
   * element and every element above it.
   */
  function RewriteForest(m: Matcher, repl: string, ns: seq<Node>, excl: bool): (r: seq<Node>)
    requires Consuming(m.tokens)
    ensures Original(r) == Original(ns)
    decreases ns
  {
    if ns == [] then []
    else
      var head := RewriteNode(m, repl, ns[0], excl);
      var tail := RewriteForest(m, repl, ns[1..], excl);
      OriginalAppend(head, tail);
      head + tail
  }

  function RewriteNode(m: Matcher, repl: string, n: Node, excl: bool): (r: seq<Node>)
    requires Consuming(m.tokens)
    ensures Original(r) == OriginalOf(n)
    decreases n
  {
    match n
    case Text(s) => if excl || !Scannable(s) then OriginalSingleton(n); [n] else ReplaceInText(m, repl, s)
    case Mask(_, _) => OriginalSingleton(n); [n]
    case Elem(tag, cls, ed, ch) =>
      var e := Elem(tag, cls, ed, RewriteForest(m, repl, ch, excl || Excluded(tag, cls, ed)));
      OriginalSingleton(e);
      [e]
  }

  lemma OriginalSingleton(n: Node)
    ensures Original([n]) == OriginalOf(n)
  {
    assert Original([n]) == OriginalOf(n) + Original([]);
  }

  /** The body of the rule loop: a rule without a pattern is skipped. */
  function ApplyRule(rule: Rule, ns: seq<Node>, excl: bool): (r: seq<Node>)
    ensures Original(r) == Original(ns)
    ensures rule.pattern == [] ==> r == ns
  {
    if rule.pattern == [] then ns
    else RewriteForest(BuildRegex(rule), rule.replacement, ns, excl)
  }

  /** The rules applied one after the other, each to the result of the ones before. */
  function WalkForest(rules: seq<Rule>, ns: seq<Node>, excl: bool): (r: seq<Node>)
    ensures Original(r) == Original(ns)
    decreases |rules|
  {
    if rules == [] then ns else WalkForest(rules[1..], ApplyRule(rules[0], ns, excl), excl)
  }

  /**
   * `walkAndReplace(root, rules)`: every rule rewrites the text below `root`;
   * `above` says whether an element above `root` is excluded.
   */
  function WalkAndReplace(root: Node, rules: seq<Rule>, above: bool): (r: Node)
    requires root.Elem?
    ensures r.Elem? && r.tag == root.tag && r.classes == root.classes && r.editable == root.editable
    ensures OriginalOf(r) == OriginalOf(root)
  {
    root.(children := WalkForest(rules, root.children, above || Excluded(root.tag, root.classes, root.editable)))
  }

  // ---------------------------------------------------------------------------
  // Clearing
  // ---------------------------------------------------------------------------

  /** What `span.pa-anon` selects: a mask, or a page element of that shape. */
  predicate IsMaskSpan(tag: string, classes: seq<string>) {
    tag == "span" && MaskClass in classes
  }

  /**
   * `clearAnonymization`: every mask becomes a text node holding its
   * original; a page `span.pa-anon` without a remembered original becomes an
   * empty text node. Adjacent text nodes are not merged.
   */
  function ClearForest(ns: seq<Node>): (r: seq<Node>)
    ensures |r| == |ns|
    decreases ns
  {
    if ns == [] then [] else [ClearNode(ns[0])] + ClearForest(ns[1..])
  }

  function ClearNode(n: Node): Node
    decreases n
  {
    match n
    case Text(_) => n
    case Mask(o, _) => Text(o)
    case Elem(tag, cls, ed, ch) => if IsMaskSpan(tag, cls) then Text([]) else Elem(tag, cls, ed, ClearForest(ch))
  }

  /** `clearAnonymization(root)` looks at the descendants of `root`, not at `root` itself. */
  function ClearRoot(root: Node): (r: Node)
    requires root.Elem?
    ensures r.Elem? && r.tag == root.tag && r.classes == root.classes && r.editable == root.editable
    ensures MaskFree(r.children)
  {
    ClearMaskFree(root.children);
    root.(children := ClearForest(root.children))
  }

  /** No mask and no `span.pa-anon` anywhere in the forest. */
  predicate MaskFree(ns: seq<Node>)
    decreases ns
  {
    ns == [] || (MaskFreeNode(ns[0]) && MaskFree(ns[1..]))
  }

  predicate MaskFreeNode(n: Node)
    decreases n
  {
    match n
    case Text(_) => true
    case Mask(_, _) => false
    case Elem(tag, cls, _, ch) => !IsMaskSpan(tag, cls) && MaskFree(ch)
  }

  lemma {:induction false} ClearMaskFree(ns: seq<Node>)
    ensures MaskFree(ClearForest(ns))
    decreases ns
  {
    if ns != [] {
      ClearMaskFree(ns[1..]);
      if ns[0].Elem? && !IsMaskSpan(ns[0].tag, ns[0].classes) {
        ClearMaskFree(ns[0].children);
      }
      assert ClearForest(ns)[1..] == ClearForest(ns[1..]);
    }
  }

  lemma {:induction false} RewriteAppend(m: Matcher, repl: string, a: seq<Node>, b: seq<Node>, excl: bool)
    requires Consuming(m.tokens)
    ensures RewriteForest(m, repl, a + b, excl) == RewriteForest(m, repl, a, excl) + RewriteForest(m, repl, b, excl)
  {
    if a == [] {
      assert a + b == b;
    } else {
      assert (a + b)[0] == a[0] && (a + b)[1..] == a[1..] + b;
      RewriteAppend(m, repl, a[1..], b, excl);
    }
  }

  lemma {:induction false} ClearAppend(a: seq<Node>, b: seq<Node>)
    ensures ClearForest(a + b) == ClearForest(a) + ClearForest(b)
  {
    if a == [] {
      assert a + b == b;
    } else {
      assert (a + b)[0] == a[0] && (a + b)[1..] == a[1..] + b;
      ClearAppend(a[1..], b);
    }
  }

  /** Below an excluded element nothing changes: the walker rejects every text node there. */
  lemma {:induction false} RewriteExcluded(m: Matcher, repl: string, ns: seq<Node>)
    requires Consuming(m.tokens)
    ensures RewriteForest(m, repl, ns, true) == ns
    decreases ns
  {
    if ns != [] {
      RewriteExcludedNode(m, repl, ns[0]);
      RewriteExcluded(m, repl, ns[1..]);
      assert ns == [ns[0]] + ns[1..];
    }
  }

  lemma {:induction false} RewriteExcludedNode(m: Matcher, repl: string, n: Node)
    requires Consuming(m.tokens)
    ensures RewriteNode(m, repl, n, true) == [n]
    decreases n
  {
    if n.Elem? {
      RewriteExcluded(m, repl, n.children);
    }
  }

  /** The whole walk leaves an excluded subtree as it is. */
  lemma {:induction false} WalkExcluded(rules: seq<Rule>, ns: seq<Node>)
    ensures WalkForest(rules, ns, true) == ns
    decreases |rules|
  {
    if rules != [] {
      if rules[0].pattern != [] {
        RewriteExcluded(BuildRegex(rules[0]), rules[0].replacement, ns);
      }
      WalkExcluded(rules[1..], ns);
    }
  }

  // ---------------------------------------------------------------------------
  // Where the masks come from
  // ---------------------------------------------------------------------------

  /** Every mask in the forest shows one of the replacements `reps`. */
  predicate MasksIn(reps: set<string>, ns: seq<Node>)
    decreases ns
  {
    ns == [] || (MasksInNode(reps, ns[0]) && MasksIn(reps, ns[1..]))
  }

  predicate MasksInNode(reps: set<string>, n: Node)
    decreases n
  {
    match n
    case Text(_) => true
    case Mask(_, r) => r in reps
    case Elem(_, _, _, ch) => MasksIn(reps, ch)
  }

  /** The replacements of the rules that have a pattern: the only ones a walk can insert. */
  function Replacements(rules: seq<Rule>): set<string> {
    set k | 0 <= k < |rules| && rules[k].pattern != [] :: rules[k].replacement
  }

  lemma {:induction false} MaskFreeMasksIn(reps: set<string>, ns: seq<Node>)
    requires MaskFree(ns)
    ensures MasksIn(reps, ns)
    decreases ns
  {
    if ns != [] {
      if ns[0].Elem? {
        MaskFreeMasksIn(reps, ns[0].children);
      }
      MaskFreeMasksIn(reps, ns[1..]);
    }
  }

  lemma {:induction false} MasksInAppend(reps: set<string>, a: seq<Node>, b: seq<Node>)
    requires MasksIn(reps, a) && MasksIn(reps, b)
    ensures MasksIn(reps, a + b)
  {
    if a == [] {
      assert a + b == b;
    } else {
      assert (a + b)[0] == a[0] && (a + b)[1..] == a[1..] + b;
      MasksInAppend(reps, a[1..], b);
    }
  }

  /** Split pieces show only the rule's replacement. */
  lemma {:induction false} PiecesMasksIn(reps: set<string>, ns: seq<Node>, repl: string)
    requires repl in reps && forall k | 0 <= k < |ns| :: Piece(ns[k], repl)
    ensures MasksIn(reps, ns)
  {
    if ns != [] {
      assert forall k | 0 <= k < |ns[1..]| :: ns[1..][k] == ns[k + 1];
      PiecesMasksIn(reps, ns[1..], repl);
    }
  }

  /** A rule's pass adds only masks that show its replacement. */
  lemma {:induction false} RewriteMasksIn(m: Matcher, repl: string, reps: set<string>, ns: seq<Node>, excl: bool)
    requires Consuming(m.tokens) && repl in reps && MasksIn(reps, ns)
    ensures MasksIn(reps, RewriteForest(m, repl, ns, excl))
    decreases ns
  {
    if ns != [] {
      RewriteMasksInNode(m, repl, reps, ns[0], excl);
      RewriteMasksIn(m, repl, reps, ns[1..], excl);
      MasksInAppend(reps, RewriteNode(m, repl, ns[0], excl), RewriteForest(m, repl, ns[1..], excl));
    }
  }

  lemma {:induction false} RewriteMasksInNode(m: Matcher, repl: string, reps: set<string>, n: Node, excl: bool)
    requires Consuming(m.tokens) && repl in reps && MasksInNode(reps, n)
    ensures MasksIn(reps, RewriteNode(m, repl, n, excl))
    decreases n
  {
    match n
    case Text(s) =>
      if excl || !Scannable(s) || ScanAll(m, s) == [] {
        assert MasksIn(reps, [n]);
      } else {
        PiecesMasksIn(reps, ReplaceInText(m, repl, s), repl);
      }
    case Mask(_, _) =>
      assert MasksIn(reps, [n]);
    case Elem(tag, cls, ed, ch) =>
      RewriteMasksIn(m, repl, reps, ch, excl || Excluded(tag, cls, ed));
      var e := Elem(tag, cls, ed, RewriteForest(m, repl, ch, excl || Excluded(tag, cls, ed)));
      assert MasksInNode(reps, e);
      assert [e][1..] == [];
      assert MasksIn(reps, [e]);
  }

  /** After a walk every mask shows a replacement it already showed or one of the walk's rules. */
  lemma {:induction false} WalkMasksIn(rules: seq<Rule>, reps: set<string>, ns: seq<Node>, excl: bool)
    requires Replacements(rules) <= reps && MasksIn(reps, ns)
    ensures MasksIn(reps, WalkForest(rules, ns, excl))
    decreases |rules|
  {
    if rules != [] {
      if rules[0].pattern != [] {
        assert rules[0].replacement in Replacements(rules);
        RewriteMasksIn(BuildRegex(rules[0]), rules[0].replacement, reps, ns, excl);
      }
      assert Replacements(rules[1..]) <= Replacements(rules) by {
        forall x | x in Replacements(rules[1..]) ensures x in Replacements(rules) {
          var k :| 0 <= k < |rules[1..]| && rules[1..][k].pattern != [] && rules[1..][k].replacement == x;
          assert rules[k + 1] == rules[1..][k];
        }
      }
      WalkMasksIn(rules[1..], reps, ApplyRule(rules[0], ns, excl), excl);
    }
  }
}
