/**
 * `isRestrictedUrl`: the popup refuses to inject into browser-internal pages,
 * recognised by a case-insensitive scheme prefix.
 */
module Urls {
  import opened Chars
  import opened Wrappers

  /** The alternatives of `^(chrome|chrome-extension|edge|devtools|about|view-source):`, in order. */
  const Schemes: seq<string> := ["chrome", "chrome-extension", "edge", "devtools", "about", "view-source"]

  /**
   * `p` followed by a colon starts `url`, ignoring ASCII case. The `i` flag of
   * a non-Unicode regular expression never folds a non-ASCII character onto an
   * ASCII one, so ASCII folding is exact for these lower-case ASCII schemes.
   */
  predicate SchemePrefix(p: string, url: string) {
    |p| < |url| && LowerStr(url[..|p|]) == p && url[|p|] == ':'
  }

  /** The alternation tried from alternative `k` on, as the engine does. */
  function TryFrom(url: string, k: nat): (b: bool)
    requires k <= |Schemes|
    ensures b <==> exists j | k <= j < |Schemes| :: SchemePrefix(Schemes[j], url)
    decreases |Schemes| - k
  {
    if k == |Schemes| then false
    else SchemePrefix(Schemes[k], url) || TryFrom(url, k + 1)
  }

  /** `isRestrictedUrl(url)`; a missing URL is the empty string and is not restricted. */
  function IsRestrictedUrl(url: string): (b: bool)
    ensures b <==> exists j | 0 <= j < |Schemes| :: SchemePrefix(Schemes[j], url)
    ensures url == [] ==> !b
  {
    TryFrom(url, 0)
  }

  /** The index of the first colon of `s`. */
  function FirstColon(s: string): (r: Option<nat>)
    ensures r.Some? ==> r.value < |s| && s[r.value] == ':' && forall k | 0 <= k < r.value :: s[k] != ':'
    ensures r.None? ==> forall k | 0 <= k < |s| :: s[k] != ':'
  {
    if s == [] then None
    else if s[0] == ':' then Some(0)
    else match FirstColon(s[1..])
      case None => None
      case Some(i) => Some(i + 1)
  }

  /** The URL's scheme: the lower-cased text before its first colon, if it has one. */
  function SchemeOf(url: string): Option<string> {
    match FirstColon(url)
    case None => None
    case Some(i) => Some(LowerStr(url[..i]))
  }

  lemma SchemesHaveNoColon()
    ensures forall j, k | 0 <= j < |Schemes| && 0 <= k < |Schemes[j]| :: Schemes[j][k] != ':'
  {
  }

  /** A URL is restricted exactly when its scheme is one of the six. */
  lemma RestrictedIffScheme(url: string)
    ensures IsRestrictedUrl(url) <==> SchemeOf(url).Some? && SchemeOf(url).value in Schemes
  {
    SchemesHaveNoColon();
    if IsRestrictedUrl(url) {
      var j :| 0 <= j < |Schemes| && SchemePrefix(Schemes[j], url);
      var p := Schemes[j];
      var c := FirstColon(url);
      assert forall k | 0 <= k < |p| :: Lower(url[k]) == p[k] && url[k] != ':' by {
        forall k | 0 <= k < |p| ensures Lower(url[k]) == p[k] && url[k] != ':' {
          assert LowerStr(url[..|p|])[k] == Lower(url[k]);
        }
      }
      assert c.Some? && c.value == |p|;
    }
    if SchemeOf(url).Some? && SchemeOf(url).value in Schemes {
      var i := FirstColon(url).value;
      var j :| 0 <= j < |Schemes| && Schemes[j] == LowerStr(url[..i]);
      assert SchemePrefix(Schemes[j], url);
    }
  }

  /** Case does not matter: an extension page written in mixed case is still restricted. */
  lemma MixedCaseRestricted()
    ensures IsRestrictedUrl("Chrome-Extension://x")
  {
    var u := "Chrome-Extension://x";
    assert u[..16] == "Chrome-Extension";
    assert LowerStr(u[..16]) == Schemes[1];
    assert SchemePrefix(Schemes[1], u);
  }

  /** Only the scheme counts: an ordinary site whose host names a browser is allowed. */
  lemma OrdinarySiteAllowed()
    ensures !IsRestrictedUrl("https://chrome.com")
  {
    var v := "https://chrome.com";
    assert v[6] == '/' && v[4] == 's' && v[8] == 'c' && v[11] == 'o' && v[16] == 'o';
    assert !SchemePrefix(Schemes[4], v) by {
      assert LowerStr(v[..5])[0] == 'h';
    }
  }
}
