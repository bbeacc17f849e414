/**
 * `escapeRegExp`: every regular-expression metacharacter gets a backslash in
 * front, so the result, read as a regular expression, denotes its input
 * literally. The compiler emits one `Lit` token per escaped character; this
 * module states why that reading is sound.
 */
module RegexEscape {

  /** The characters `[.*+?^${}()|[\]\\]` selects. */
  predicate IsMeta(c: char) {
    || c == '.' || c == '*' || c == '+' || c == '?' || c == '^' || c == '$'
    || c == '{' || c == '}' || c == '(' || c == ')' || c == '|' || c == '['
    || c == ']' || c == '\\'
  }

  function EscapeChar(c: char): string {
    if IsMeta(c) then ['\\', c] else [c]
  }

  function EscapeRegExp(s: string): (r: string)
    ensures |s| <= |r| <= 2 * |s|
  {
    if s == [] then [] else EscapeChar(s[0]) + EscapeRegExp(s[1..])
  }

  /**
   * A regular-expression source that contains no bare metacharacter: it is a
   * sequence of plain characters and backslash escapes.
   */
  predicate IsLiteralSource(t: string)
    decreases |t|
  {
    if t == [] then true
    else if t[0] == '\\' then |t| >= 2 && IsLiteralSource(t[2..])
    else !IsMeta(t[0]) && IsLiteralSource(t[1..])
  }

  /** The text a literal source matches: each escape stands for the escaped character. */
  function Unescape(t: string): string
    decreases |t|
  {
    if t == [] then []
    else if t[0] == '\\' && |t| >= 2 then [t[1]] + Unescape(t[2..])
    else [t[0]] + Unescape(t[1..])
  }

  lemma {:induction false} EscapeIsLiteral(s: string)
    ensures IsLiteralSource(EscapeRegExp(s))
  {
    if s != [] {
      var e := EscapeRegExp(s);
      EscapeIsLiteral(s[1..]);
      if IsMeta(s[0]) {
        assert e[2..] == EscapeRegExp(s[1..]);
      } else {
        assert e[1..] == EscapeRegExp(s[1..]);
      }
    }
  }

  /** Escaping is undone by reading the escapes back: the source denotes exactly `s`. */
  lemma {:induction false} EscapeRoundTrip(s: string)
    ensures Unescape(EscapeRegExp(s)) == s
  {
    if s != [] {
      var e := EscapeRegExp(s);
      EscapeRoundTrip(s[1..]);
      if IsMeta(s[0]) {
        assert e[2..] == EscapeRegExp(s[1..]);
      } else {
        assert e[1..] == EscapeRegExp(s[1..]);
      }
    }
  }
}
