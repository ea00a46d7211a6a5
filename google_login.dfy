/**
  Sign in with Google: `makeGoogleLoginUrl` and `googleLogin`. The builder destructures
  `response_type` (default "code") and spreads the caller's other properties after it.
 */
module Google {
  import opened Wrappers
  import opened Record
  import opened FormUrlEncoded
  import opened AuthRequest
  import Navigation

  /** `GOOGLE_LOGIN_URL`, the authorization endpoint. */
  const GoogleLoginUrl: string := "https://accounts.google.com/o/oauth2/v2/auth"

  /** The keys the props type requires. */
  const GoogleRequired: set<string> := {"client_id", "redirect_uri", "scope"}

  /** Every key the props type declares. */
  const GoogleKeys: set<string> := GoogleRequired + {
    "response_type", "access_type", "state", "include_granted_scopes",
    "enable_granular_consent", "login_hint", "prompt"
  }

  /**
    A props object the builder's `Props` type accepts: distinct keys, with `client_id`,
    `redirect_uri` and `scope` present. Other keys may ride along when the props are passed
    through a variable.
   */
  predicate GoogleProps(props: seq<Entry>) {
    DistinctKeys(props) && HasRequired(props, GoogleRequired)
  }

  /** The object `{ response_type, ...rest }` handed to `new URLSearchParams`. */
  function GoogleParams(props: seq<Entry>): seq<Pair> {
    ResponseTypeFirst(props, {"response_type"})
  }

  /** `makeGoogleLoginUrl(props)`. */
  function MakeGoogleLoginUrl(props: seq<Entry>): string {
    QueryUrl(GoogleLoginUrl, GoogleParams(props))
  }

  /**
    The Google URL is the endpoint, `?`, and a query that reads back as exactly the pairs
    of `GoogleParams`.
   */
  lemma MakeGoogleLoginUrlSpec(props: seq<Entry>)
    ensures var url := MakeGoogleLoginUrl(props);
      && |url| > |GoogleLoginUrl|
      && url[..|GoogleLoginUrl| + 1] == GoogleLoginUrl + "?"
      && ParseQuery(url[|GoogleLoginUrl| + 1..]) == Some(GoogleParams(props))
  {
    QueryUrlSpec(GoogleLoginUrl, GoogleParams(props));
  }

  /**
    The Google query for any props its `Props` type accepts: `response_type` first, the caller's value or
    "code"; then the caller's other properties in the caller's order; `client_id`,
    `redirect_uri` and `scope` always present with the caller's values; any other key
    present exactly when the caller gave it, with the caller's value (an undeclared one
    included); no key twice.
   */
  lemma GoogleParamsSpec(props: seq<Entry>)
    requires GoogleProps(props)
    ensures var r := GoogleParams(props);
      && |r| >= 1
      && DistinctKeys(r)
      && r[0].0 == "response_type"
      && (Lookup(props, "response_type") == None ==> r[0].1 == "code")
      && (Lookup(props, "response_type").Some? ==> r[0].1 == Lookup(props, "response_type").value)
      && Subsequence(r[1..], props)
      && (forall k | k in GoogleRequired :: Lookup(r, k).Some? && Lookup(r, k) == Lookup(props, k))
      && (forall k | k != "response_type" :: Lookup(r, k) == Lookup(props, k))
  {
    ResponseTypeFirstSpec(props, {"response_type"});
  }

  /**
    For props holding only declared keys (an object literal written at the call), every key
    of the Google query is one the props type declares; in particular the query never holds
    `service`, `o2v` or `flowName`, whose `params.set` calls are commented out. The builder
    itself adds no key but `response_type`.
   */
  lemma GoogleParamsKeys(props: seq<Entry>)
    requires GoogleProps(props) && OnlyKeys(props, GoogleKeys)
    ensures var r := GoogleParams(props);
      && (forall i | 0 <= i < |r| :: r[i].0 in GoogleKeys)
      && (forall i | 0 <= i < |r| :: r[i].0 != "service" && r[i].0 != "o2v" && r[i].0 != "flowName")
  {
    ResponseTypeFirstKeys(props, {"response_type"}, GoogleKeys);
  }

  /** `googleLogin(props)`: sends the tab to `makeGoogleLoginUrl(props)`; nothing else changes. */
  method GoogleLogin(location: Navigation.Location, props: seq<Entry>)
    modifies location
    ensures location.href == MakeGoogleLoginUrl(props)
  {
    var url := MakeGoogleLoginUrl(props);
    location.href := url;
  }
}
