/**
  Kakao Login: `makeKakaoLoginUrl` and `kakaoLogin`. The builder destructures
  `response_type` (default "code") and spreads the caller's other properties after it.
 */
module Kakao {
  import opened Wrappers
  import opened Record
  import opened FormUrlEncoded
  import opened AuthRequest
  import Navigation

  /** `KAKAO_LOGIN_URL`, the authorization endpoint. */
  const KakaoLoginUrl: string := "https://kauth.kakao.com/oauth/authorize"

  /** The keys the props type requires. */
  const KakaoRequired: set<string> := {"client_id", "redirect_uri"}

  /** The optional keys the props type declares besides `response_type`. */
  const KakaoOptional: set<string> := {"scope", "prompt", "login_hint", "service_terms", "state", "nonce"}

  /** Every key the props type declares. */
  const KakaoKeys: set<string> := KakaoRequired + KakaoOptional + {"response_type"}

  /**
    A props object the builder's `Props` type accepts: distinct keys, with `client_id` and
    `redirect_uri` present. Other keys may ride along when the props are passed through a
    variable.
   */
  predicate KakaoProps(props: seq<Entry>) {
    DistinctKeys(props) && HasRequired(props, KakaoRequired)
  }

  /** The object `{ response_type, ...rest }` handed to `new URLSearchParams`. */
  function KakaoParams(props: seq<Entry>): seq<Pair> {
    ResponseTypeFirst(props, {"response_type"})
  }

  /** `makeKakaoLoginUrl(props)`. */
  function MakeKakaoLoginUrl(props: seq<Entry>): string {
    QueryUrl(KakaoLoginUrl, KakaoParams(props))
  }

  /**
    The Kakao URL is the endpoint, `?`, and a query that reads back as exactly the pairs
    of `KakaoParams`.
   */
  lemma MakeKakaoLoginUrlSpec(props: seq<Entry>)
    ensures var url := MakeKakaoLoginUrl(props);
      && |url| > |KakaoLoginUrl|
      && url[..|KakaoLoginUrl| + 1] == KakaoLoginUrl + "?"
      && ParseQuery(url[|KakaoLoginUrl| + 1..]) == Some(KakaoParams(props))
  {
    QueryUrlSpec(KakaoLoginUrl, KakaoParams(props));
  }

  /**
    The Kakao query for any props its `Props` type accepts: `response_type` first, the caller's value or
    "code"; then `client_id`, `redirect_uri` and the supplied optional fields in the
    caller's order; any other key, declared or not, appears exactly when the caller gave it,
    with the caller's value, so an optional field the caller left out does not appear; no
    key twice.
   */
  lemma KakaoParamsSpec(props: seq<Entry>)
    requires KakaoProps(props)
    ensures var r := KakaoParams(props);
      && |r| >= 3
      && DistinctKeys(r)
      && r[0].0 == "response_type"
      && (Lookup(props, "response_type") == None ==> r[0].1 == "code")
      && (Lookup(props, "response_type").Some? ==> r[0].1 == Lookup(props, "response_type").value)
      && Subsequence(r[1..], props)
      && Lookup(r, "client_id") == Lookup(props, "client_id") && Lookup(r, "client_id").Some?
      && Lookup(r, "redirect_uri") == Lookup(props, "redirect_uri") && Lookup(r, "redirect_uri").Some?
      && (forall k | k != "response_type" :: Lookup(r, k) == Lookup(props, k))
  {
    var r := KakaoParams(props);
    ResponseTypeFirstSpec(props, {"response_type"});
    var clientId, redirectUri := Lookup(r, "client_id"), Lookup(r, "redirect_uri");
    assert clientId.Some? && redirectUri.Some?;
    KakaoLength(r);
  }

  /**
    A list with distinct keys that holds `response_type`, `client_id` and `redirect_uri`
    has at least three entries.
   */
  lemma KakaoLength(r: seq<Pair>)
    requires DistinctKeys(r)
    requires |r| >= 1 && r[0].0 == "response_type"
    requires Lookup(r, "client_id").Some? && Lookup(r, "redirect_uri").Some?
    ensures |r| >= 3
  {
    LookupNone(r, "client_id");
    LookupNone(r, "redirect_uri");
    var i :| 0 <= i < |r| && r[i].0 == "client_id";
    var j :| 0 <= j < |r| && r[j].0 == "redirect_uri";
    assert i != 0 && j != 0 && i != j;
  }

  /**
    For props holding only declared keys (an object literal written at the call), every key
    of the Kakao query is one the props type declares: the builder adds no key but
    `response_type`.
   */
  lemma KakaoParamsKeys(props: seq<Entry>)
    requires KakaoProps(props) && OnlyKeys(props, KakaoKeys)
    ensures var r := KakaoParams(props);
      forall i | 0 <= i < |r| :: r[i].0 in KakaoKeys
  {
    ResponseTypeFirstKeys(props, {"response_type"}, KakaoKeys);
  }

  /** `kakaoLogin(props)`: sends the tab to `makeKakaoLoginUrl(props)`; nothing else changes. */
  method KakaoLogin(location: Navigation.Location, props: seq<Entry>)
    modifies location
    ensures location.href == MakeKakaoLoginUrl(props)
  {
    var url := MakeKakaoLoginUrl(props);
    location.href := url;
  }
}
