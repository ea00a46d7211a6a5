/**
  What the login builders share. Each one ends with the template string
  `${endpoint}?${params.toString()}`, and the Facebook, Google and Kakao builders all build
  `params` the same way: `response_type` (default "code") pulled out of the props by
  destructuring and put first, the caller's other properties spread after it.
 */
module AuthRequest {
  import opened Wrappers
  import opened Record
  import opened FormUrlEncoded

  /** The default of the destructuring `response_type = 'code'`. */
  const DefaultResponseType: string := "code"

  /** The one defaulted key of `{ response_type, ...rest }`. */
  const ResponseTypeDefault: seq<Entry> := [("response_type", DefaultResponseType)]

  /**
    `{ response_type, ...rest }` after `const { response_type = 'code', ...rest } = props`,
    where the destructuring names the keys `consumed` (`response_type` and, for Facebook,
    `version`).
   */
  function ResponseTypeFirst(props: seq<Entry>, consumed: set<string>): seq<Pair> {
    Spread(props, ResponseTypeDefault, consumed)
  }

  /** The template string `${endpoint}?${params.toString()}`. */
  function QueryUrl(endpoint: string, ps: seq<Pair>): string {
    endpoint + "?" + Serialize(ps)
  }

  /**
    The list handed to `URLSearchParams`: `response_type` first, with the caller's value
    when given and "code" when not; then the caller's other properties in the caller's
    order, values unchanged; every key not named by the destructuring maps to the caller's
    value (absent when the caller left it out); a named key other than `response_type`
    never occurs; no key occurs twice.
   */
  lemma ResponseTypeFirstSpec(props: seq<Entry>, consumed: set<string>)
    requires DistinctKeys(props)
    requires "response_type" in consumed
    ensures var r := ResponseTypeFirst(props, consumed);
      && |r| >= 1
      && DistinctKeys(r)
      && r[0].0 == "response_type"
      && (Lookup(props, "response_type") == None ==> r[0].1 == "code")
      && (Lookup(props, "response_type").Some? ==> r[0].1 == Lookup(props, "response_type").value)
      && Subsequence(r[1..], props)
      && (forall k | k != "response_type" ::
            Lookup(r, k) == if k in consumed then None else Lookup(props, k))
  {
    var r := ResponseTypeFirst(props, consumed);
    SpreadSpec(props, ResponseTypeDefault, consumed);
    forall k | k != "response_type"
      ensures Lookup(r, k) == if k in consumed then None else Lookup(props, k)
    {
      assert r == [r[0]] + r[1..];
      LookupAppend([r[0]], r[1..], k);
    }
  }

  /**
    Every key of the list is one the caller's type allows, provided `response_type` is
    one: the list holds nothing but `response_type` and the caller's own properties.
   */
  lemma ResponseTypeFirstKeys(props: seq<Entry>, consumed: set<string>, allowed: set<string>)
    requires forall i | 0 <= i < |props| :: props[i].0 in allowed
    requires "response_type" in allowed
    ensures var r := ResponseTypeFirst(props, consumed);
      forall i | 0 <= i < |r| :: r[i].0 in allowed
  {
    var r := ResponseTypeFirst(props, consumed);
    var rest := Omit(props, consumed);
    assert r == WithDefaults(props, ResponseTypeDefault) + rest;
    forall i | 0 <= i < |r| ensures r[i].0 in allowed {
      if i == 0 {
        assert r[0].0 == "response_type";
      } else {
        assert r[i] == rest[i - 1] && rest[i - 1] in rest;
        var m :| 0 <= m < |props| && props[m] == r[i];
      }
    }
  }

  /**
    A URL built by the template reads back: it starts with the endpoint and `?`, and the
    rest parses to exactly the list that was serialized.
   */
  lemma QueryUrlSpec(endpoint: string, ps: seq<Pair>)
    ensures var url := QueryUrl(endpoint, ps);
      && |url| > |endpoint|
      && url[..|endpoint| + 1] == endpoint + "?"
      && ParseQuery(url[|endpoint| + 1..]) == Some(ps)
  {
    var url := QueryUrl(endpoint, ps);
    assert url[..|endpoint| + 1] == endpoint + "?";
    ParseAfter(endpoint + "?", ps);
  }

  /** Different queries after the same endpoint give different URLs. */
  lemma QueryUrlInjective(endpoint: string, ps: seq<Pair>, qs: seq<Pair>)
    ensures QueryUrl(endpoint, ps) == QueryUrl(endpoint, qs) <==> ps == qs
  {
    if QueryUrl(endpoint, ps) == QueryUrl(endpoint, qs) {
      QueryUrlSpec(endpoint, ps);
      QueryUrlSpec(endpoint, qs);
    }
  }

  /** A value placed between a fixed prefix and suffix can be read back from the result. */
  lemma InfixInjective(prefix: string, v: string, w: string, suffix: string)
    ensures prefix + v + suffix == prefix + w + suffix <==> v == w
  {
    if prefix + v + suffix == prefix + w + suffix {
      var s := prefix + v + suffix;
      assert |v| == |w|;
      assert v == s[|prefix|..|prefix| + |v|];
      assert w == (prefix + w + suffix)[|prefix|..|prefix| + |w|];
    }
  }
}
