/**
 * What clearing gives back. Clearing does not merge the text nodes a split
 * left behind, so trees are compared by their layout: the characters of the
 * text nodes, element boundaries with their tag, classes and editability, and
 * the masks, in document order.
 */
module Restore {
  import opened Pattern
  import opened Rules
  import opened Matcher
  import opened Engine

  datatype Atom =
    | Ch(c: char)
    | Open(tag: string, classes: seq<string>, editable: bool)
    | Close
    | Shows(original: string, replacement: string)

  function CharAtoms(s: string): (r: seq<Atom>)
    ensures |r| == |s| && forall k | 0 <= k < |s| :: r[k] == Ch(s[k])
  {
    seq(|s|, k requires 0 <= k < |s| => Ch(s[k]))
  }

  function Layout(ns: seq<Node>): seq<Atom>
    decreases ns
  {
    if ns == [] then [] else LayoutNode(ns[0]) + Layout(ns[1..])
  }

  function LayoutNode(n: Node): seq<Atom>
    decreases n
  {
    match n
    case Text(s) => CharAtoms(s)
    case Mask(o, r) => [Shows(o, r)]
    case Elem(tag, cls, ed, ch) => [Open(tag, cls, ed)] + Layout(ch) + [Close]
  }

  /** The text a layout shows: characters, and each mask's replacement. */
  function AtomText(xs: seq<Atom>): string {
    if xs == [] then []
    else
      (match xs[0] case Ch(c) => [c] case Shows(_, r) => r case _ => []) + AtomText(xs[1..])
  }

  lemma {:induction false} LayoutAppend(a: seq<Node>, b: seq<Node>)
    ensures Layout(a + b) == Layout(a) + Layout(b)
  {
    if a == [] {
      assert a + b == b;
    } else {
      assert (a + b)[0] == a[0] && (a + b)[1..] == a[1..] + b;
      LayoutAppend(a[1..], b);
    }
  }

  lemma LayoutCons(n: Node, ns: seq<Node>)
    ensures Layout([n] + ns) == LayoutNode(n) + Layout(ns)
  {
    assert ([n] + ns)[0] == n && ([n] + ns)[1..] == ns;
  }

  lemma {:induction false} AtomTextAppend(a: seq<Atom>, b: seq<Atom>)
    ensures AtomText(a + b) == AtomText(a) + AtomText(b)
  {
    if a == [] {
      assert a + b == b;
    } else {
      assert (a + b)[0] == a[0] && (a + b)[1..] == a[1..] + b;
      AtomTextAppend(a[1..], b);
    }
  }

  lemma {:induction false} AtomTextOfChars(s: string)
    ensures AtomText(CharAtoms(s)) == s
  {
    if s != [] {
      assert CharAtoms(s)[1..] == CharAtoms(s[1..]);
      AtomTextOfChars(s[1..]);
      assert s == [s[0]] + s[1..];
    }
  }

  /** The layout carries the shown text: `textContent` can be read off it. */
  lemma {:induction false} ShownFromLayout(ns: seq<Node>)
    ensures AtomText(Layout(ns)) == Shown(ns)
    decreases ns
  {
    if ns != [] {
      ShownFromLayoutNode(ns[0]);
      ShownFromLayout(ns[1..]);
      AtomTextAppend(LayoutNode(ns[0]), Layout(ns[1..]));
    }
  }

  lemma {:induction false} ShownFromLayoutNode(n: Node)
    ensures AtomText(LayoutNode(n)) == ShownOf(n)
    decreases n
  {
    match n
    case Text(s) => AtomTextOfChars(s);
    case Mask(o, r) =>
      assert AtomText([Shows(o, r)]) == r + AtomText([]);
    case Elem(tag, cls, ed, ch) =>
      ShownFromLayout(ch);
      AtomTextAppend([Open(tag, cls, ed)] + Layout(ch), [Close]);
      AtomTextAppend([Open(tag, cls, ed)], Layout(ch));
      assert AtomText([Open(tag, cls, ed)]) == [] + AtomText([]);
      assert AtomText([Close]) == [] + AtomText([]);
  }

  // ---------------------------------------------------------------------------
  // One text node
  // ---------------------------------------------------------------------------

  /** A forest without elements, as a split text node is. */
  predicate Flat(ns: seq<Node>) {
    forall k | 0 <= k < |ns| :: !ns[k].Elem?
  }

  lemma {:induction false} FlatClearLayout(ns: seq<Node>)
    requires Flat(ns)
    ensures Layout(ClearForest(ns)) == CharAtoms(Original(ns))
  {
    if ns != [] {
      assert Flat(ns[1..]) by {
        forall k | 0 <= k < |ns[1..]| ensures !ns[1..][k].Elem? {
          assert ns[1..][k] == ns[k + 1];
        }
      }
      FlatClearLayout(ns[1..]);
      LayoutCons(ClearNode(ns[0]), ClearForest(ns[1..]));
      var h := OriginalOf(ns[0]);
      assert LayoutNode(ClearNode(ns[0])) == CharAtoms(h);
      assert CharAtoms(h + Original(ns[1..])) == CharAtoms(h) + CharAtoms(Original(ns[1..]));
    }
  }

  /** Clearing a split text node gives back exactly its characters. */
  lemma ReplaceInTextRestores(m: Matcher, repl: string, s: string)
    requires Consuming(m.tokens)
    ensures Layout(ClearForest(ReplaceInText(m, repl, s))) == CharAtoms(s)
  {
    var r := ReplaceInText(m, repl, s);
    if ScanAll(m, s) != [] {
      assert forall k | 0 <= k < |r| :: Piece(r[k], repl);
    }
    assert Flat(r);
    FlatClearLayout(r);
  }

  // ---------------------------------------------------------------------------
  // The walk, then clearing
  // ---------------------------------------------------------------------------

  lemma {:induction false} RewriteRestores(m: Matcher, repl: string, ns: seq<Node>, excl: bool)
    requires Consuming(m.tokens)
    ensures Layout(ClearForest(RewriteForest(m, repl, ns, excl))) == Layout(ClearForest(ns))
    decreases ns
  {
    if ns != [] {
      var h := RewriteNode(m, repl, ns[0], excl);
      var t := RewriteForest(m, repl, ns[1..], excl);
      RewriteRestoresNode(m, repl, ns[0], excl);
      RewriteRestores(m, repl, ns[1..], excl);
      ClearAppend(h, t);
      LayoutAppend(ClearForest(h), ClearForest(t));
      LayoutCons(ClearNode(ns[0]), ClearForest(ns[1..]));
    }
  }

  lemma {:induction false} RewriteRestoresNode(m: Matcher, repl: string, n: Node, excl: bool)
    requires Consuming(m.tokens)
    ensures Layout(ClearForest(RewriteNode(m, repl, n, excl))) == LayoutNode(ClearNode(n))
    decreases n
  {
    match n
    case Text(s) =>
      if excl || !Scannable(s) {
        LayoutCons(ClearNode(n), []);
      } else {
        ReplaceInTextRestores(m, repl, s);
      }
    case Mask(_, _) =>
      LayoutCons(ClearNode(n), []);
    case Elem(tag, cls, ed, ch) =>
      var ex := excl || Excluded(tag, cls, ed);
      var n' := Elem(tag, cls, ed, RewriteForest(m, repl, ch, ex));
      LayoutCons(ClearNode(n'), []);
      if !IsMaskSpan(tag, cls) {
        RewriteRestores(m, repl, ch, ex);
      }
  }

  /** Clearing after the whole walk gives the layout clearing would have given before it. */
  lemma {:induction false} WalkRestores(rules: seq<Rule>, ns: seq<Node>, excl: bool)
    ensures Layout(ClearForest(WalkForest(rules, ns, excl))) == Layout(ClearForest(ns))
    decreases |rules|
  {
    if rules != [] {
      var next := ApplyRule(rules[0], ns, excl);
      WalkRestores(rules[1..], next, excl);
      if rules[0].pattern != [] {
        RewriteRestores(BuildRegex(rules[0]), rules[0].replacement, ns, excl);
      }
    }
  }

  /**
   * `clearAnonymization(root)` after `walkAndReplace(root, rules)` leaves the
   * page exactly as clearing it without the walk would: the same characters
   * in the same elements, so it reads as the original text again.
   */
  lemma ClearUndoesWalk(root: Node, rules: seq<Rule>, above: bool)
    requires root.Elem?
    ensures LayoutNode(ClearRoot(WalkAndReplace(root, rules, above))) == LayoutNode(ClearRoot(root))
    ensures ShownOf(ClearRoot(WalkAndReplace(root, rules, above))) == ShownOf(ClearRoot(root))
  {
    WalkRestores(rules, root.children, above || Excluded(root.tag, root.classes, root.editable));
    ShownFromLayoutNode(ClearRoot(WalkAndReplace(root, rules, above)));
    ShownFromLayoutNode(ClearRoot(root));
  }

  /** Clearing twice is clearing once. */
  lemma {:induction false} ClearIdempotent(ns: seq<Node>)
    ensures ClearForest(ClearForest(ns)) == ClearForest(ns)
    decreases ns
  {
    if ns != [] {
      ClearIdempotent(ns[1..]);
      if ns[0].Elem? && !IsMaskSpan(ns[0].tag, ns[0].classes) {
        ClearIdempotent(ns[0].children);
      }
      assert ClearForest(ns)[0] == ClearNode(ns[0]) && ClearForest(ns)[1..] == ClearForest(ns[1..]);
    }
  }

  /** A page without masks is left as it is by clearing. */
  lemma {:induction false} ClearMaskFreeIdentity(ns: seq<Node>)
    requires MaskFree(ns)
    ensures ClearForest(ns) == ns
    decreases ns
  {
    if ns != [] {
      ClearMaskFreeIdentity(ns[1..]);
      if ns[0].Elem? {
        ClearMaskFreeIdentity(ns[0].children);
      }
      assert ns == [ns[0]] + ns[1..];
    }
  }

  /** On a page without masks, masking and then clearing restores the page's layout and text. */
  lemma MaskThenClearRestoresPage(root: Node, rules: seq<Rule>, above: bool)
    requires root.Elem? && MaskFree(root.children)
    ensures LayoutNode(ClearRoot(WalkAndReplace(root, rules, above))) == LayoutNode(root)
    ensures ShownOf(ClearRoot(WalkAndReplace(root, rules, above))) == ShownOf(root)
  {
    ClearUndoesWalk(root, rules, above);
    ClearMaskFreeIdentity(root.children);
    assert ClearRoot(root) == root;
  }
}
