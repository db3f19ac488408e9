/**
 The URL analyser of the live preview: pure facts derived from the preview
 address and from whether the hosting page itself is served over HTTPS.
 */
module UrlAnalyzer {

  import opened Wrappers

  const HttpPrefix: string := "http://"
  const HttpsPrefix: string := "https://"

  /** `data?.sandboxUrl ?? ""`: a missing fragment or a missing address reads as the empty string. */
  function RawUrl(sandboxUrl: Option<string>): (r: string)
    ensures sandboxUrl.Some? ==> r == sandboxUrl.value
    ensures r == "" <==> sandboxUrl.None? || sandboxUrl.value == ""
  {
    match sandboxUrl
    case None => ""
    case Some(url) => url
  }

  /**
   JavaScript's `s.startsWith(p)`: exact, character by character,
   case-sensitive. It holds exactly when `p` is a slice at the front of `s`.
   */
  function StartsWith(s: string, p: string): (r: bool)
    ensures r <==> |p| <= |s| && s[..|p|] == p
    decreases p
  {
    if p == [] then true
    else if s == [] then false
    else
      assert |p| <= |s| ==> s[..|p|] == [s[0]] + s[1..][..|p| - 1];
      assert p == [p[0]] + p[1..];
      s[0] == p[0] && StartsWith(s[1..], p[1..])
  }

  /** Lower-casing of the ASCII letters; every other character is its own canonical form. */
  function AsciiLower(c: char): char
  {
    if 'A' <= c <= 'Z' then (c as int + 32) as char else c
  }

  /**
   The match of a regular expression literal under the `i` flag, for a
   pattern of ASCII characters: the pattern is compared position by
   position, after lower-casing ASCII letters.
   */
  function StartsWithIgnoringCase(s: string, p: string): (r: bool)
    ensures r <==> |p| <= |s| && forall i | 0 <= i < |p| :: AsciiLower(s[i]) == AsciiLower(p[i])
    decreases p
  {
    if p == [] then true
    else if s == [] then false
    else
      assert forall i | 0 <= i < |p| - 1 && i < |s| - 1 :: s[1..][i] == s[i + 1] && p[1..][i] == p[i + 1];
      AsciiLower(s[0]) == AsciiLower(p[0]) && StartsWithIgnoringCase(s[1..], p[1..])
  }

  /** An exact prefix is in particular a prefix ignoring case. */
  lemma {:induction false} ExactPrefixIgnoringCase(s: string, p: string)
    requires StartsWith(s, p)
    ensures StartsWithIgnoringCase(s, p)
    decreases p
  {
    if p != [] {
      ExactPrefixIgnoringCase(s[1..], p[1..]);
    }
  }

  /** `s.replace(/^http:\/\//i, "https://")`: one replacement, anchored at the start, case-insensitive. */
  function ReplaceLeadingHttp(s: string): (r: string)
    ensures (|s| >= 7 && forall i | 0 <= i < 7 :: AsciiLower(s[i]) == HttpPrefix[i]) ==> r == HttpsPrefix + s[7..]
    ensures !(|s| >= 7 && forall i | 0 <= i < 7 :: AsciiLower(s[i]) == HttpPrefix[i]) ==> r == s
  {
    if StartsWithIgnoringCase(s, HttpPrefix) then HttpsPrefix + s[|HttpPrefix|..] else s
  }

  /** `isHttpUrl`: the address begins with exactly "http://". */
  function IsHttpUrl(rawUrl: string): (r: bool)
    ensures r <==> |rawUrl| >= 7 && rawUrl[..7] == HttpPrefix
  {
    StartsWith(rawUrl, HttpPrefix)
  }

  /** `isMixedContent`: an HTTPS page would embed an address that begins with exactly "http://". */
  function IsMixedContent(pageIsHttps: bool, rawUrl: string): (r: bool)
    ensures r <==> pageIsHttps && |rawUrl| >= 7 && rawUrl[..7] == HttpPrefix
  {
    pageIsHttps && IsHttpUrl(rawUrl)
  }

  /** The prefix test is case-sensitive, and a secure address is never flagged. */
  lemma MixedContentIsCaseSensitive(rest: string)
    ensures IsMixedContent(true, HttpPrefix + rest)
    ensures !IsMixedContent(false, HttpPrefix + rest)
    ensures !IsMixedContent(true, "HTTP://" + rest)
    ensures !IsMixedContent(true, "Http://" + rest)
    ensures !IsMixedContent(true, HttpsPrefix + rest)
    ensures !IsMixedContent(true, "")
  {
    assert (HttpPrefix + rest)[..7] == HttpPrefix;
    assert ("HTTP://" + rest)[0] == 'H' && ("Http://" + rest)[0] == 'H';
    assert (HttpsPrefix + rest)[4] == 's';
  }

  /** `httpsVariant`, the secure address suggested to the user (the embedded address is never rewritten). */
  function HttpsVariant(rawUrl: string): (r: string)
    ensures rawUrl == "" ==> r == ""
    ensures IsHttpUrl(rawUrl) ==> r == HttpsPrefix + rawUrl[7..]
    ensures !IsHttpUrl(rawUrl) ==> r == rawUrl
  {
    if rawUrl == "" then ""
    else if StartsWith(rawUrl, HttpPrefix) then
      ExactPrefixIgnoringCase(rawUrl, HttpPrefix);
      ReplaceLeadingHttp(rawUrl)
    else rawUrl
  }

  /** The suggestion is never itself an "http://" address, so suggesting again changes nothing. */
  lemma HttpsVariantIdempotent(rawUrl: string)
    ensures !IsHttpUrl(HttpsVariant(rawUrl))
    ensures HttpsVariant(HttpsVariant(rawUrl)) == HttpsVariant(rawUrl)
    ensures HttpsVariant(rawUrl) == "" <==> rawUrl == ""
  {
  }

  /** `srcForIframe`: the frame embeds the address as given, so an "http://" address is not upgraded to the suggestion. */
  function SrcForIframe(rawUrl: string): (r: string)
    ensures r == rawUrl
    ensures IsHttpUrl(rawUrl) ==> r != HttpsVariant(rawUrl)
  {
    rawUrl
  }

  /** The regular expression alone would also upgrade a mixed-case scheme; the exact test in front of it keeps it from doing so. */
  lemma UpperCaseSchemeKeptAsIs(rest: string)
    ensures ReplaceLeadingHttp("HTTP://" + rest) == HttpsPrefix + rest
    ensures HttpsVariant("HTTP://" + rest) == "HTTP://" + rest
  {
  }
}
