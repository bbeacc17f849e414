/**
 * HTML escaping of rule text before it is spliced into list markup: `esc` of
 * the popup and `escapeHtml` of the options page, which use the same table.
 */
module Html {
  import opened Wrappers

  /** The five characters the escaping table knows. */
  predicate IsSpecial(c: char) {
    c == '&' || c == '<' || c == '>' || c == '"' || c == '\''
  }

  /** The table: each special character to its entity, anything else to itself. */
  function EscChar(c: char): (r: string)
    ensures IsSpecial(c) ==> |r| >= 4 && r[0] == '&' && r[|r| - 1] == ';'
    ensures !IsSpecial(c) ==> r == [c]
  {
    match c
    case '&' => "&amp;"
    case '<' => "&lt;"
    case '>' => "&gt;"
    case '"' => "&quot;"
    case '\'' => "&#39;"
    case _ => [c]
  }

  /** `esc(s)`: the replacement applied to every character, left to right. */
  function Esc(s: string): (r: string)
    ensures |r| >= |s|
    ensures |r| == |s| <==> forall k | 0 <= k < |s| :: !IsSpecial(s[k])
  {
    if s == [] then [] else EscChar(s[0]) + Esc(s[1..])
  }

  /**
   * `escapeHtml(s)` of the options page: a missing value (or the empty
   * string) gives the empty string, anything else is escaped like `esc`.
   */
  function EscapeHtml(v: Option<string>): (r: string)
    ensures v.None? ==> r == []
    ensures v.Some? ==> r == Esc(v.value)
  {
    match v
    case None => []
    case Some(s) => Esc(s)
  }

  /** The entity that starts at the front of `t`, with the character it stands for. */
  function EntityAt(t: string): Option<(char, nat)> {
    if |t| >= 5 && t[..5] == "&amp;" then Some(('&', 5))
    else if |t| >= 4 && t[..4] == "&lt;" then Some(('<', 4))
    else if |t| >= 4 && t[..4] == "&gt;" then Some(('>', 4))
    else if |t| >= 6 && t[..6] == "&quot;" then Some(('"', 6))
    else if |t| >= 5 && t[..5] == "&#39;" then Some(('\'', 5))
    else None
  }

  /** What a browser reads back from escaped text: the five entities decoded. */
  function Decode(t: string): string
    decreases |t|
  {
    if t == [] then []
    else match EntityAt(t)
      case Some((c, n)) => if n <= |t| then [c] + Decode(t[n..]) else []
      case None => [t[0]] + Decode(t[1..])
  }

  /** Escaped text contains no raw `<`, `>`, `"` or `'`, so it cannot open a tag or close an attribute. */
  lemma {:induction false} EscHasNoRawMarkup(s: string)
    ensures forall k | 0 <= k < |Esc(s)| :: Esc(s)[k] !in {'<', '>', '"', '\''}
  {
    if s != [] {
      EscHasNoRawMarkup(s[1..]);
      var h := EscChar(s[0]);
      var t := Esc(s[1..]);
      EscCharHasNoRawMarkup(s[0]);
      assert Esc(s) == h + t;
      forall k | 0 <= k < |h + t| ensures (h + t)[k] !in {'<', '>', '"', '\''} {
        if k >= |h| {
          assert (h + t)[k] == t[k - |h|];
        } else {
          assert (h + t)[k] == h[k];
        }
      }
    }
  }

  lemma EscCharHasNoRawMarkup(c: char)
    ensures forall k | 0 <= k < |EscChar(c)| :: EscChar(c)[k] !in {'<', '>', '"', '\''}
  {
  }

  /** The entity an escaped character begins with is the one the decoder recognises. */
  lemma EntityOfEscChar(c: char, rest: string)
    requires IsSpecial(c)
    ensures EntityAt(EscChar(c) + rest) == Some((c, |EscChar(c)|))
  {
    var e := EscChar(c);
    var t := e + rest;
    assert t[..|e|] == e;
    if c == '&' {
    } else if c == '<' {
      if |t| >= 5 { assert t[..5][1] == 'l'; }
    } else if c == '>' {
      if |t| >= 5 { assert t[..5][1] == 'g'; }
      if |t| >= 4 { assert t[..4][1] == 'g'; }
    } else if c == '"' {
      if |t| >= 5 { assert t[..5][1] == 'q'; }
      if |t| >= 4 { assert t[..4][1] == 'q'; }
    } else {
      if |t| >= 5 { assert t[..5][1] == '#'; }
      if |t| >= 4 { assert t[..4][1] == '#'; }
      if |t| >= 6 { assert t[..6][1] == '#'; }
    }
  }

  lemma DecodeEntity(c: char, rest: string)
    ensures Decode(EscChar(c) + rest) == [c] + Decode(rest)
  {
    var t := EscChar(c) + rest;
    if IsSpecial(c) {
      EntityOfEscChar(c, rest);
      assert t[|EscChar(c)|..] == rest;
    } else {
      assert t[0] == c && t[1..] == rest;
      assert EntityAt(t).None? by {
        if |t| >= 4 { assert t[..4][0] == c; }
        if |t| >= 5 { assert t[..5][0] == c; }
        if |t| >= 6 { assert t[..6][0] == c; }
      }
    }
  }

  /** Decoding undoes escaping: the page shows exactly the rule's text. */
  lemma {:induction false} EscRoundTrip(s: string)
    ensures Decode(Esc(s)) == s
  {
    if s != [] {
      EscRoundTrip(s[1..]);
      DecodeEntity(s[0], Esc(s[1..]));
      assert s == [s[0]] + s[1..];
    }
  }

  /** Escaping changes a text exactly when it holds one of the five characters. */
  lemma EscFixedIff(s: string)
    ensures Esc(s) == s <==> forall k | 0 <= k < |s| :: !IsSpecial(s[k])
  {
    if Esc(s) == s {
      assert |Esc(s)| == |s|;
    } else if forall k | 0 <= k < |s| :: !IsSpecial(s[k]) {
      NoSpecialFixed(s);
    }
  }

  lemma {:induction false} NoSpecialFixed(s: string)
    requires forall k | 0 <= k < |s| :: !IsSpecial(s[k])
    ensures Esc(s) == s
  {
    if s != [] {
      assert !IsSpecial(s[0]);
      assert forall k | 0 <= k < |s[1..]| :: s[1..][k] == s[k + 1];
      NoSpecialFixed(s[1..]);
      assert s == [s[0]] + s[1..];
    }
  }
}
