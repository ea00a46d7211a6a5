/**
  Naver Login: `naverLogin`. It appends four pairs to a fresh `URLSearchParams` in a fixed
  order, with no defaults, and sends the tab to the authorization endpoint followed by the
  serialized list. The caller's redirect URI travels under the key `redirect_url`. The URL
  it builds is given here as the pure builder `MakeNaverLoginUrl`.
 */
module Naver {
  import opened Wrappers
  import opened Record
  import opened FormUrlEncoded
  import opened AuthRequest
  import SearchParams
  import Navigation

  /** The props of `naverLogin`: four camel-case fields, all required. */
  datatype NaverProps = NaverProps(clientId: string, redirectUri: string, responseType: string, state: string)

  /** The authorization endpoint written into the template string. */
  const NaverLoginUrl: string := "https://nid.naver.com/oauth2.0/authorize"

  /** The list after the four `append` calls. */
  function NaverParams(p: NaverProps): seq<Pair> {
    [("client_id", p.clientId), ("redirect_url", p.redirectUri), ("response_type", p.responseType), ("state", p.state)]
  }

  /** The URL `naverLogin` navigates to. */
  function MakeNaverLoginUrl(p: NaverProps): string {
    QueryUrl(NaverLoginUrl, NaverParams(p))
  }

  /**
    The Naver URL is the endpoint, `?`, and a query that reads back as four pairs, in the
    order `client_id`, `redirect_url`, `response_type`, `state`, each holding the matching
    caller field unchanged, an empty one included.
   */
  lemma MakeNaverLoginUrlSpec(p: NaverProps)
    ensures var url := MakeNaverLoginUrl(p);
      && |url| > |NaverLoginUrl|
      && url[..|NaverLoginUrl| + 1] == NaverLoginUrl + "?"
      && ParseQuery(url[|NaverLoginUrl| + 1..]) ==
           Some([("client_id", p.clientId), ("redirect_url", p.redirectUri),
                 ("response_type", p.responseType), ("state", p.state)])
  {
    QueryUrlSpec(NaverLoginUrl, NaverParams(p));
  }

  /**
    Looked up by key, the Naver query gives each caller field under its own key, even when
    the field is empty; the redirect is under `redirect_url`, and `redirect_uri` is absent.
   */
  lemma NaverParamsLookup(p: NaverProps)
    ensures var r := NaverParams(p);
      && DistinctKeys(r)
      && Lookup(r, "client_id") == Some(p.clientId)
      && Lookup(r, "redirect_url") == Some(p.redirectUri)
      && Lookup(r, "response_type") == Some(p.responseType)
      && Lookup(r, "state") == Some(p.state)
      && Lookup(r, "redirect_uri") == None
  {
    var r := NaverParams(p);
    var afterClientId, afterRedirect, afterResponseType := r[1..], r[2..], r[3..];
    assert afterRedirect == afterClientId[1..] && afterResponseType == afterRedirect[1..];
    assert afterResponseType[1..] == [];
    assert Lookup(afterResponseType, "redirect_uri") == None;
    assert Lookup(afterClientId, "redirect_uri") == None;
    assert Lookup(afterRedirect, "state") == Some(p.state);
    assert Lookup(afterClientId, "response_type") == Some(p.responseType);
    assert Lookup(afterClientId, "state") == Some(p.state);
  }

  /** Different props give different URLs: the URL determines all four fields. */
  lemma MakeNaverLoginUrlInjective(p: NaverProps, q: NaverProps)
    ensures MakeNaverLoginUrl(p) == MakeNaverLoginUrl(q) <==> p == q
  {
    QueryUrlInjective(NaverLoginUrl, NaverParams(p), NaverParams(q));
    if NaverParams(p) == NaverParams(q) {
      assert NaverParams(p)[0] == NaverParams(q)[0] && NaverParams(p)[1] == NaverParams(q)[1];
      assert NaverParams(p)[2] == NaverParams(q)[2] && NaverParams(p)[3] == NaverParams(q)[3];
    }
  }

  /**
    `naverLogin(props)`: four `append` calls on a fresh `URLSearchParams`, then the tab is
    sent to the endpoint, `?` and the serialized list; nothing else changes.
   */
  method NaverLogin(location: Navigation.Location, p: NaverProps)
    modifies location
    ensures location.href == MakeNaverLoginUrl(p)
  {
    var params := new SearchParams.UrlSearchParams();
    params.Append("client_id", p.clientId);
    params.Append("redirect_url", p.redirectUri);
    params.Append("response_type", p.responseType);
    params.Append("state", p.state);
    assert params.list == NaverParams(p);
    var query := params.ToString();
    location.href := NaverLoginUrl + "?" + query;
  }
}
