/**
  LINE Login: `makeLineOAuthUrlByVersion`, `makeLineLoginUrl` and `lineLogin`. The builder
  reads only `version` (default "v2.1") from the props and serializes a `URLSearchParams`
  it never adds to, so the query after `/authorize?` is always empty.
 */
module Line {
  import opened Record
  import opened FormUrlEncoded
  import opened AuthRequest
  import Navigation

  /** The default of the destructuring `version = 'v2.1'`. */
  const DefaultVersion: string := "v2.1"

  /** `makeLineOAuthUrlByVersion(version)`: the OAuth base of one LINE Login version. */
  function MakeLineOAuthUrlByVersion(version: string): string {
    "https://access.line.me/oauth2/" + version
  }

  /** The version the builder uses: the caller's, or "v2.1" when absent. */
  function LineVersion(props: seq<Entry>): string {
    GetOr(props, "version", DefaultVersion)
  }

  /** `makeLineLoginUrl(props)`: `${url}/authorize?` and a fresh, empty `URLSearchParams`. */
  function MakeLineLoginUrl(props: seq<Entry>): string {
    var params: seq<Pair> := [];
    QueryUrl(MakeLineOAuthUrlByVersion(LineVersion(props)) + "/authorize", params)
  }

  /** Different versions give different bases: the version can be read back from the URL. */
  lemma OAuthUrlByVersionInjective(v: string, w: string)
    ensures MakeLineOAuthUrlByVersion(v) == MakeLineOAuthUrlByVersion(w) <==> v == w
  {
    InfixInjective("https://access.line.me/oauth2/", v, w, "");
    assert MakeLineOAuthUrlByVersion(v) == "https://access.line.me/oauth2/" + v + "";
    assert MakeLineOAuthUrlByVersion(w) == "https://access.line.me/oauth2/" + w + "";
  }

  /**
    The LINE URL is the base of the caller's version, or of "v2.1" when the caller gives
    none, then `/authorize?` and nothing after it: none of the caller's properties reach the
    query.
   */
  lemma MakeLineLoginUrlSpec(props: seq<Entry>)
    ensures var url := MakeLineLoginUrl(props);
      var version := if Lookup(props, "version").Some? then Lookup(props, "version").value else "v2.1";
      var prefix := "https://access.line.me/oauth2/" + version + "/authorize?";
      url == prefix
  {
    var empty: seq<Pair> := [];
    SerializeEmpty(empty);
  }

  /**
    The LINE URL depends on the version alone: two props objects give the same URL exactly
    when they select the same version, whatever else they hold.
   */
  lemma LineUrlDependsOnlyOnVersion(p: seq<Entry>, q: seq<Entry>)
    ensures MakeLineLoginUrl(p) == MakeLineLoginUrl(q) <==> LineVersion(p) == LineVersion(q)
  {
    MakeLineLoginUrlSpec(p);
    MakeLineLoginUrlSpec(q);
    InfixInjective("https://access.line.me/oauth2/", LineVersion(p), LineVersion(q), "/authorize?");
  }

  /** `lineLogin(props)`: sends the tab to `makeLineLoginUrl(props)`; nothing else changes. */
  method LineLogin(location: Navigation.Location, props: seq<Entry>)
    modifies location
    ensures location.href == MakeLineLoginUrl(props)
  {
    var url := MakeLineLoginUrl(props);
    location.href := url;
  }
}
