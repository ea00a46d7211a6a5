/**
  Facebook Login: `makeFacebookOAuthUrlByVersion`, `makeFacebookLoginUrl` and
  `facebookLogin`. The builder destructures `version` (default "v24.0") and `response_type`
  (default "code"); the version picks the endpoint, and the query is `response_type`
  followed by the caller's other properties.
 */
module Facebook {
  import opened Wrappers
  import opened Record
  import opened FormUrlEncoded
  import opened AuthRequest
  import Navigation

  /** The default of the destructuring `version = 'v24.0'`. */
  const DefaultVersion: string := "v24.0"

  /** Every key the destructuring names; `...rest` holds the others. */
  const FacebookConsumed: set<string> := {"version", "response_type"}

  /** `makeFacebookOAuthUrlByVersion(version)`: the dialog endpoint of one Graph API version. */
  function MakeFacebookOAuthUrlByVersion(version: string): string {
    "https://www.facebook.com/" + version + "/dialog/oauth"
  }

  /** The version the builder uses: the caller's, or "v24.0" when absent. */
  function FacebookVersion(props: seq<Entry>): string {
    GetOr(props, "version", DefaultVersion)
  }

  /** The object `{ response_type, ...rest }` handed to `new URLSearchParams`. */
  function FacebookParams(props: seq<Entry>): seq<Pair> {
    ResponseTypeFirst(props, FacebookConsumed)
  }

  /** `makeFacebookLoginUrl(props)`. */
  function MakeFacebookLoginUrl(props: seq<Entry>): string {
    QueryUrl(MakeFacebookOAuthUrlByVersion(FacebookVersion(props)), FacebookParams(props))
  }

  /** Different versions give different endpoints: the version can be read back from the URL. */
  lemma OAuthUrlByVersionInjective(v: string, w: string)
    ensures MakeFacebookOAuthUrlByVersion(v) == MakeFacebookOAuthUrlByVersion(w) <==> v == w
  {
    InfixInjective("https://www.facebook.com/", v, w, "/dialog/oauth");
  }

  /**
    The Facebook URL is the dialog endpoint of the caller's version, or of "v24.0" when the
    caller gives none, then `?`, then a query that reads back as exactly `FacebookParams`.
   */
  lemma MakeFacebookLoginUrlSpec(props: seq<Entry>)
    ensures var url := MakeFacebookLoginUrl(props);
      var version := if Lookup(props, "version").Some? then Lookup(props, "version").value else "v24.0";
      var endpoint := "https://www.facebook.com/" + version + "/dialog/oauth";
      && |url| > |endpoint|
      && url[..|endpoint| + 1] == endpoint + "?"
      && ParseQuery(url[|endpoint| + 1..]) == Some(FacebookParams(props))
  {
    QueryUrlSpec(MakeFacebookOAuthUrlByVersion(FacebookVersion(props)), FacebookParams(props));
  }

  /**
    The Facebook query: `response_type` first, the caller's value or "code"; then the
    caller's other properties in the caller's order with their values unchanged; `version`
    never appears as a key; every key exactly once.
   */
  lemma FacebookParamsSpec(props: seq<Entry>)
    requires DistinctKeys(props)
    ensures var r := FacebookParams(props);
      && |r| >= 1
      && DistinctKeys(r)
      && r[0].0 == "response_type"
      && (Lookup(props, "response_type") == None ==> r[0].1 == "code")
      && (Lookup(props, "response_type").Some? ==> r[0].1 == Lookup(props, "response_type").value)
      && Subsequence(r[1..], props)
      && (forall i | 0 <= i < |r| :: r[i].0 != "version")
      && (forall k | k !in FacebookConsumed :: Lookup(r, k) == Lookup(props, k))
  {
    var r := FacebookParams(props);
    ResponseTypeFirstSpec(props, FacebookConsumed);
    LookupNone(r, "version");
  }

  /** `facebookLogin(props)`: sends the tab to `makeFacebookLoginUrl(props)`; nothing else changes. */
  method FacebookLogin(location: Navigation.Location, props: seq<Entry>)
    modifies location
    ensures location.href == MakeFacebookLoginUrl(props)
  {
    var url := MakeFacebookLoginUrl(props);
    location.href := url;
  }
}
