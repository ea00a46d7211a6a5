/**
  Sign in with Apple: `makeAppleLoginUrl` and `appleLogin`. The builder destructures
  `response_type` (default "code") and `scope` (default "name email"), puts them first in a
  new object, spreads the caller's other properties after them, and appends the serialized
  object to the authorization endpoint.
 */
module Apple {
  import opened Wrappers
  import opened Record
  import opened FormUrlEncoded
  import opened AuthRequest
  import Navigation

  /** `APPLE_LOGIN_URL`, the authorization endpoint. */
  const AppleLoginUrl: string := "https://appleid.apple.com/auth/authorize"

  /** The destructured keys with their defaults, in the order the new object lists them. */
  const AppleDefaults: seq<Entry> := [("response_type", "code"), ("scope", "name email")]

  /** Every key the destructuring names; `...rest` holds the others. */
  const AppleConsumed: set<string> := {"response_type", "scope"}

  /** The object `{ response_type, scope, ...rest }` handed to `new URLSearchParams`. */
  function AppleParams(props: seq<Entry>): seq<Pair> {
    Spread(props, AppleDefaults, AppleConsumed)
  }

  /** `makeAppleLoginUrl(props)`. */
  function MakeAppleLoginUrl(props: seq<Entry>): string {
    QueryUrl(AppleLoginUrl, AppleParams(props))
  }

  /**
    The pairs of the Apple query: `response_type` first and `scope` second, each the
    caller's value when given and its default when not; then the caller's other properties
    in the caller's order with their values unchanged; every key exactly once.
   */
  lemma AppleParamsSpec(props: seq<Entry>)
    requires DistinctKeys(props)
    ensures var r := AppleParams(props);
      && |r| >= 2
      && DistinctKeys(r)
      && r[0].0 == "response_type"
      && (Lookup(props, "response_type") == None ==> r[0].1 == "code")
      && (Lookup(props, "response_type").Some? ==> r[0].1 == Lookup(props, "response_type").value)
      && r[1].0 == "scope"
      && (Lookup(props, "scope") == None ==> r[1].1 == "name email")
      && (Lookup(props, "scope").Some? ==> r[1].1 == Lookup(props, "scope").value)
      && Subsequence(r[2..], props)
      && (forall k :: Lookup(r[2..], k) == if k in AppleConsumed then None else Lookup(props, k))
      && (forall k | k !in AppleConsumed :: Lookup(r, k) == Lookup(props, k))
  {
    SpreadSpec(props, AppleDefaults, AppleConsumed);
  }

  /**
    The Apple URL is the endpoint, `?`, and a query that reads back as exactly the pairs of
    `AppleParams`.
   */
  lemma MakeAppleLoginUrlSpec(props: seq<Entry>)
    ensures var url := MakeAppleLoginUrl(props);
      && |url| > |AppleLoginUrl|
      && url[..|AppleLoginUrl| + 1] == AppleLoginUrl + "?"
      && ParseQuery(url[|AppleLoginUrl| + 1..]) == Some(AppleParams(props))
  {
    QueryUrlSpec(AppleLoginUrl, AppleParams(props));
  }

  /**
    A caller who gives no `scope` gets the scope "name email", which the query writes
    `name+email`: the space becomes `+`, not `%20`.
   */
  lemma AppleDefaultScope(props: seq<Entry>)
    requires DistinctKeys(props)
    requires Lookup(props, "scope") == None
    ensures var scope := AppleParams(props)[1];
      scope == ("scope", "name email") && EncodeComponent(scope.1) == "name+email"
  {
    AppleParamsSpec(props);
    NameEmailEncoded();
  }

  /**
    A caller who gives neither `response_type` nor `scope` gets a query that starts with the
    text `response_type=code&scope=name+email`: nothing follows it when the caller gave no
    other property, and `&` and the caller's first property follow it otherwise.
   */
  lemma AppleDefaultQueryHead(props: seq<Entry>)
    requires DistinctKeys(props)
    requires Lookup(props, "response_type") == None && Lookup(props, "scope") == None
    ensures var q := Serialize(AppleParams(props));
      var head := "response_type=code&scope=name+email";
      && (props == [] ==> q == head)
      && (props != [] ==> |q| > |head| && q[..|head| + 1] == head + "&")
  {
    AppleDefaultPairs(props);
    DefaultHeadText(AppleParams(props));
  }

  /**
    Without a caller `response_type` or `scope`, the list starts with the two default pairs,
    and it holds more than those two exactly when the caller gave some other property.
   */
  lemma AppleDefaultPairs(props: seq<Entry>)
    requires DistinctKeys(props)
    requires Lookup(props, "response_type") == None && Lookup(props, "scope") == None
    ensures var r := AppleParams(props);
      && |r| >= 2 && r[0] == ("response_type", "code") && r[1] == ("scope", "name email")
      && (|r| == 2 <==> props == [])
  {
    AppleParamsSpec(props);
    assert |AppleParams(props)| == 2 + |Omit(props, AppleConsumed)|;
    if props != [] {
      OmitLookup(props, AppleConsumed, props[0].0);
    }
  }

  /**
    A list that starts with the two default pairs serializes to a query that starts with
    `response_type=code&scope=name+email`.
   */
  lemma DefaultHeadText(r: seq<Pair>)
    requires |r| >= 2 && r[0] == ("response_type", "code") && r[1] == ("scope", "name email")
    ensures var q := Serialize(r);
      var head := "response_type=code&scope=name+email";
      && (|r| == 2 ==> q == head)
      && (|r| > 2 ==> |q| > |head| && q[..|head| + 1] == head + "&")
  {
    AppleHeadText();
    SerializeHead(r, "response_type=code&scope=name+email");
  }

  /** The two default pairs, serialized and joined: `response_type=code&scope=name+email`. */
  lemma AppleHeadText()
    ensures SerializePair(("response_type", "code")) + "&" + SerializePair(("scope", "name email"))
      == "response_type=code&scope=name+email"
  {
    ResponseTypePairText();
    ScopePairText();
    AppleHeadJoin();
  }

  /** The default `response_type` pair is written `response_type=code`. */
  lemma ResponseTypePairText()
    ensures SerializePair(("response_type", "code")) == "response_type" + "=" + "code"
  {
    AppleKeysPlain();
    EncodePlain("response_type");
    EncodePlain("code");
  }

  /** The default `scope` pair is written `scope=name+email`. */
  lemma ScopePairText()
    ensures SerializePair(("scope", "name email")) == "scope" + "=" + "name+email"
  {
    AppleKeysPlain();
    EncodePlain("scope");
    NameEmailEncoded();
  }

  /** The pieces of the default head, joined. */
  lemma AppleHeadJoin()
    ensures ("response_type" + "=" + "code") + "&" + ("scope" + "=" + "name+email")
      == "response_type=code&scope=name+email"
  {
  }

  /** The default keys and value are written with plain characters only. */
  lemma AppleKeysPlain()
    ensures AllPlain("code") && AllPlain("scope") && AllPlain("response_type")
  {
    AllPlainChars("code");
    AllPlainChars("scope");
    AllPlainChars("response_type");
  }

  /** `appleLogin(props)`: sends the tab to `makeAppleLoginUrl(props)`; nothing else changes. */
  method AppleLogin(location: Navigation.Location, props: seq<Entry>)
    modifies location
    ensures location.href == MakeAppleLoginUrl(props)
  {
    var url := MakeAppleLoginUrl(props);
    location.href := url;
  }
}
