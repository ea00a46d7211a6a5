# Social login redirect, modelled in Dafny

The `social-login-redirect` package builds OAuth 2.0 / OpenID Connect authorization URLs
for six identity providers (Apple, Facebook, Google, Kakao, LINE, Naver) and sends the
browser tab to them. The Apple, Facebook, Google and Kakao builders follow one recipe:

1. Take the caller's props object.
2. Pull a few keys out with destructuring defaults: `response_type` defaults to `code`,
   Apple's `scope` to `name email`, and `version` picks the endpoint.
3. Build a new object with the defaulted keys first, then spread the caller's other
   properties in the caller's order.
4. Serialize it with `URLSearchParams`, whose `toString` is the
   application/x-www-form-urlencoded serializer of section 5.2 of the WHATWG URL Standard.
5. Append the result to the endpoint after `?`.

LINE and Naver depart from steps 2 and 3 (see below). LINE reads only `version` and
serializes an empty `URLSearchParams`. `naverLogin` destructures four fields with no
defaults and no rest element, and appends four fixed pairs to a fresh `URLSearchParams`.

Apple, Facebook, Google, Kakao and LINE each also have a one-line wrapper that writes the
URL to `window.location.href`; `naverLogin` builds the URL and navigates in one function.

The model layout:

- `wrappers.dfy` holds `Option`.
- `utf8.dfy` holds UTF-8 encoding and decoding.
- `form_urlencoded.dfy` holds the serializer and, as its partner, the parser of section
  5.1 of the same standard.
- `record.dfy` holds a props object as an ordered list of distinct keys, with destructuring
  defaults (`WithDefaults`), the rest element (`Omit`) and the spread literal (`Spread`).
- `search_params.dfy` holds the `URLSearchParams` object Naver mutates: a class with a list
  field, `Append`, and a `ToString` loop.
- `navigation.dfy` holds the navigation target, a class with an `href` field.
- `auth_request.dfy` holds the shared recipe: `response_type` first, and the
  `${endpoint}?${query}` template.
- `apple_login.dfy`, `facebook_login.dfy`, `google_login.dfy`, `kakao_login.dfy`,
  `line_login.dfy` and `naver_login.dfy` each hold one provider: its builder as a
  function, its navigating wrapper as a method, and lemmas about the result.

The serializer is concrete. Every builder lemma that talks about "the query" proves it
through the round trip `ParseQuery(Serialize(ps)) == Some(ps)`. So what is proved about a
builder's pair list (which keys, in what order, with which values) is what the query
string says.

Two builders do not send what their names and comments lead a reader to expect; the model
follows the code:

- LINE: the doc comment of `makeLineLoginUrl` shows a result of the form
  `.../authorize?client_id=...`. But the builder serializes a fresh, empty
  `URLSearchParams`, so the URL always ends in `/authorize?` with nothing after it
  (`Line.MakeLineLoginUrlSpec`).
- Naver: the Apple, Facebook, Google and Kakao `Props` types name the redirect
  `redirect_uri`, the parameter name that section 4.1.1 of RFC 6749 defines. `naverLogin`
  appends it under `redirect_url` (`Naver.NaverParamsLookup`).

## Model

| member | source | states |
|---|---|---|
| Utf8.Encode | social-login-redirect/src/apple-login.ts:91 | no contract of its own: the UTF-8 encoding step of `toString`, stated by `Utf8.DecodeEncode` and `Utf8.EncodeInjective` |
| Utf8.EncodeChar | social-login-redirect/src/apple-login.ts:91 | each character of a name or value becomes one to four UTF-8 bytes, and an ASCII character becomes exactly its own code |
| Utf8.DecodeEncode | social-login-redirect/src/apple-login.ts:91 | UTF-8 decoding gives back every encoded string: the encoding step of `toString` loses nothing |
| Utf8.EncodeInjective | social-login-redirect/src/apple-login.ts:91 | two strings with the same UTF-8 bytes are the same string |
| FormUrlEncoded.PercentEncodeChars | social-login-redirect/src/apple-login.ts:91 | percent-encoded text holds only alphanumerics, `*-._`, `+` and `%`, so never `&`, `=` or a space |
| FormUrlEncoded.PercentDecodeEncode | social-login-redirect/src/apple-login.ts:91 | percent-decoding (with `+` read as a space) undoes percent-encoding byte for byte |
| FormUrlEncoded.DecodeEncodeComponent | social-login-redirect/src/apple-login.ts:91 | every name and value is written with safe characters only and reads back as itself |
| FormUrlEncoded.EncodeComponent | social-login-redirect/src/apple-login.ts:91 | no contract of its own: the percent-encoding of one name or value by `toString`, stated by `FormUrlEncoded.DecodeEncodeComponent`, `FormUrlEncoded.EncodePlain` and `FormUrlEncoded.SpaceAsPlus` |
| FormUrlEncoded.ParseSerializePair | social-login-redirect/src/apple-login.ts:91 | one serialized `name=value` reads back as that pair, even when the name or value holds `=` or `&` |
| FormUrlEncoded.Serialize | social-login-redirect/src/apple-login.ts:84-91 | no contract of its own: the serializer behind `params.toString()`, stated by `FormUrlEncoded.ParseSerialize`, `FormUrlEncoded.SerializeSnoc` and `SearchParams.UrlSearchParams.ToString` |
| FormUrlEncoded.ParseSerialize | social-login-redirect/src/apple-login.ts:84-91 | the parser reads the serializer's output back as exactly the list of pairs, in order |
| FormUrlEncoded.SerializeInjective | social-login-redirect/src/apple-login.ts:84-91 | two lists that serialize to the same query are the same list |
| FormUrlEncoded.SerializeSnoc | social-login-redirect/src/naver-login.ts:21 | serializing a list with one more pair appends `&` (unless the output is empty) and that pair's `name=value` |
| FormUrlEncoded.SerializeHead | social-login-redirect/src/apple-login.ts:84-91 | the first two pairs, serialized and joined by `&`, are the whole query of a two-pair list and the start of a longer list's query, followed by `&` |
| FormUrlEncoded.SerializeEmpty | social-login-redirect/src/line-login.ts:259-265 | the query is empty exactly when the list is empty |
| FormUrlEncoded.EncodePlain | social-login-redirect/src/apple-login.ts:91 | a name or value made only of alphanumerics and `*-._` is written unchanged |
| FormUrlEncoded.SerializePlainPair | social-login-redirect/src/apple-login.ts:91 | a pair whose name and value are plain is written `name=value` exactly as it stands |
| FormUrlEncoded.SpaceAsPlus | social-login-redirect/src/apple-login.ts:42 | a space is written `+`, not the `%20` the doc comment shows |
| FormUrlEncoded.EncodeTwoWords | social-login-redirect/src/apple-login.ts:80-86 | two plain words joined by a space are written joined by `+` |
| FormUrlEncoded.NameEmailEncoded | social-login-redirect/src/apple-login.ts:80-86 | the literal default Apple scope `name email` is written `name+email` |
| FormUrlEncoded.EncodeComponentAppend | social-login-redirect/src/apple-login.ts:91 | a name or value is encoded character by character, so the encoding of a concatenation is the concatenation of the encodings |
| Record.GetOr | social-login-redirect/src/apple-login.ts:79-80 | no contract of its own: a destructuring default, the caller's value or the default when absent, stated by `Record.WithDefaultsLookup` |
| Record.LookupIn | social-login-redirect/src/apple-login.ts:78-81 | with distinct keys, `props[k]` is `v` exactly when `(k, v)` is one of the properties |
| Record.LookupNone | social-login-redirect/src/apple-login.ts:78-81 | a key is absent exactly when no property carries it |
| Record.OmitLookup | social-login-redirect/src/apple-login.ts:81 | the rest element `...rest` holds the caller's value for every key the destructuring did not name, and nothing for the named keys |
| Record.OmitSubsequence | social-login-redirect/src/apple-login.ts:81 | the rest element keeps the caller's order |
| Record.OmitDistinct | social-login-redirect/src/apple-login.ts:81 | the rest element has distinct keys |
| Record.WithDefaultsLookup | social-login-redirect/src/apple-login.ts:79-80 | a defaulted key maps to the caller's value, or to its default when the caller left it out |
| Record.WithDefaults | social-login-redirect/src/apple-login.ts:79-80 | the destructuring defaults: one entry per defaulted key, in literal order, holding the caller's value or the default |
| Record.Omit | social-login-redirect/src/apple-login.ts:81 | the rest element: at most as long as the props, and it holds an entry exactly when the props hold it under a key the destructuring did not name |
| Record.Spread | social-login-redirect/src/apple-login.ts:84-88 | no contract of its own: the literal `{ k1, k2, ...rest }`, stated by `Record.SpreadSpec` and `Record.SpreadLookup` |
| Record.SpreadLookup | social-login-redirect/src/apple-login.ts:84-88 | in `{ k1, k2, ...rest }` a defaulted key maps to the caller's value or its default, another named key is absent, every other key keeps the caller's value, and no key occurs twice |
| Record.SpreadSpec | social-login-redirect/src/apple-login.ts:78-88 | `{ k1, k2, ...rest }` lists the defaulted keys first in literal order, then the caller's other properties in the caller's order with values unchanged, with no key twice |
| AuthRequest.ResponseTypeFirst | social-login-redirect/src/google-login.ts:104-112 | no contract of its own: `{ response_type, ...rest }` (also facebook-login.ts:91-97 and kakao-login.ts:147-154), stated by `AuthRequest.ResponseTypeFirstSpec` and `AuthRequest.ResponseTypeFirstKeys` |
| AuthRequest.ResponseTypeFirstSpec | social-login-redirect/src/google-login.ts:104-112 | `{ response_type, ...rest }` has `response_type` first, holding the caller's value or `code`; then the caller's other properties in order; every other key maps to the caller's value or is absent when the destructuring named it; no key twice |
| AuthRequest.ResponseTypeFirstKeys | social-login-redirect/src/google-login.ts:104-112 | the list holds no key other than `response_type` and the caller's own keys |
| AuthRequest.QueryUrl | social-login-redirect/src/google-login.ts:118 | no contract of its own: the template `${endpoint}?${params.toString()}` (also naver-login.ts:21), stated by `AuthRequest.QueryUrlSpec` and `AuthRequest.QueryUrlInjective` |
| AuthRequest.QueryUrlSpec | social-login-redirect/src/google-login.ts:118 | `${endpoint}?${params}` starts with the endpoint and `?`, and the rest parses back to exactly the serialized list |
| AuthRequest.QueryUrlInjective | social-login-redirect/src/google-login.ts:118 | two lists give the same URL after the same endpoint exactly when they are the same list |
| AuthRequest.InfixInjective | social-login-redirect/src/facebook-login.ts:68-69 | a value between a fixed prefix and suffix can be read back: equal results mean equal values |
| Apple.AppleParams | social-login-redirect/src/apple-login.ts:78-88 | no contract of its own: the object handed to `URLSearchParams`, stated by `Apple.AppleParamsSpec` and `Apple.AppleDefaultScope` |
| Apple.MakeAppleLoginUrl | social-login-redirect/src/apple-login.ts:78-92 | no contract of its own: `makeAppleLoginUrl`, stated by `Apple.AppleParamsSpec`, `Apple.MakeAppleLoginUrlSpec` and `Apple.AppleDefaultScope` |
| Apple.AppleParamsSpec | social-login-redirect/src/apple-login.ts:78-88 | `response_type` comes first and `scope` second, each the caller's value or its default (`code`, `name email`); then the caller's other properties in the caller's order, unchanged; no key twice |
| Apple.MakeAppleLoginUrlSpec | social-login-redirect/src/apple-login.ts:57-92 | the URL is `https://appleid.apple.com/auth/authorize?` followed by a query that parses to exactly the Apple pair list |
| Apple.AppleDefaultScope | social-login-redirect/src/apple-login.ts:80-86 | without a caller `scope`, the second pair is `("scope", "name email")` and its value is written `name+email` |
| Apple.AppleDefaultPairs | social-login-redirect/src/apple-login.ts:78-88 | without a caller `response_type` or `scope`, the list starts with `("response_type", "code")` and `("scope", "name email")`, and holds more pairs exactly when the caller gave any other property |
| Apple.AppleDefaultQueryHead | social-login-redirect/src/apple-login.ts:78-91 | without a caller `response_type` or `scope`, the query text is `response_type=code&scope=name+email` when the caller gave nothing else, and starts with it followed by `&` otherwise |
| Apple.AppleLogin | social-login-redirect/src/apple-login.ts:111-117 | the navigation target becomes exactly `makeAppleLoginUrl(props)`, and nothing else is modified |
| Facebook.MakeFacebookOAuthUrlByVersion | social-login-redirect/src/facebook-login.ts:68-69 | no contract of its own: the versioned endpoint, stated by `Facebook.OAuthUrlByVersionInjective` and `Facebook.MakeFacebookLoginUrlSpec` |
| Facebook.FacebookVersion | social-login-redirect/src/facebook-login.ts:91 | no contract of its own: `version = 'v24.0'`, stated by `Facebook.MakeFacebookLoginUrlSpec` |
| Facebook.FacebookParams | social-login-redirect/src/facebook-login.ts:91-97 | no contract of its own: the object handed to `URLSearchParams`, stated by `Facebook.FacebookParamsSpec` |
| Facebook.MakeFacebookLoginUrl | social-login-redirect/src/facebook-login.ts:89-104 | no contract of its own: `makeFacebookLoginUrl`, stated by `Facebook.MakeFacebookLoginUrlSpec` and `Facebook.FacebookParamsSpec` |
| Facebook.OAuthUrlByVersionInjective | social-login-redirect/src/facebook-login.ts:68-69 | `https://www.facebook.com/{version}/dialog/oauth` determines the version: two versions give the same endpoint exactly when they are equal |
| Facebook.MakeFacebookLoginUrlSpec | social-login-redirect/src/facebook-login.ts:89-104 | the URL is the dialog endpoint of the caller's version (of `v24.0` when absent), then `?`, then a query that parses to exactly the Facebook pair list |
| Facebook.FacebookParamsSpec | social-login-redirect/src/facebook-login.ts:91-97 | `response_type` comes first, holding the caller's value or `code`; the caller's other properties follow in order; `version` is never a key; other keys keep the caller's value; no key twice |
| Facebook.FacebookLogin | social-login-redirect/src/facebook-login.ts:123-129 | the navigation target becomes exactly `makeFacebookLoginUrl(props)` |
| Google.GoogleParams | social-login-redirect/src/google-login.ts:104-112 | no contract of its own: the object handed to `URLSearchParams`, stated by `Google.GoogleParamsSpec` and `Google.GoogleParamsKeys` |
| Google.MakeGoogleLoginUrl | social-login-redirect/src/google-login.ts:104-121 | no contract of its own: `makeGoogleLoginUrl`, stated by `Google.MakeGoogleLoginUrlSpec`, `Google.GoogleParamsSpec` and `Google.GoogleParamsKeys` |
| Google.MakeGoogleLoginUrlSpec | social-login-redirect/src/google-login.ts:104-121 | the URL is `https://accounts.google.com/o/oauth2/v2/auth?` followed by a query that parses to exactly the Google pair list |
| Google.GoogleParamsSpec | social-login-redirect/src/google-login.ts:104-112 | for props with distinct keys and `client_id`, `redirect_uri` and `scope` present (what the `Props` type guarantees), `response_type` comes first (caller's value or `code`); the required keys are present with the caller's values; any other key, declared or not, is present exactly when the caller gave it, with the caller's value; caller order kept; no key twice |
| Google.GoogleParamsKeys | social-login-redirect/src/google-login.ts:104-116 | for props holding only declared keys (an object literal at the call), every key of the query is one the props type declares, so `service`, `o2v` and `flowName` never appear: the builder adds no key but `response_type` |
| Google.GoogleLogin | social-login-redirect/src/google-login.ts:142-148 | the navigation target becomes exactly `makeGoogleLoginUrl(props)` |
| Kakao.KakaoParams | social-login-redirect/src/kakao-login.ts:147-154 | no contract of its own: the object handed to `URLSearchParams`, stated by `Kakao.KakaoParamsSpec` and `Kakao.KakaoParamsKeys` |
| Kakao.MakeKakaoLoginUrl | social-login-redirect/src/kakao-login.ts:147-157 | no contract of its own: `makeKakaoLoginUrl`, stated by `Kakao.MakeKakaoLoginUrlSpec`, `Kakao.KakaoParamsSpec` and `Kakao.KakaoParamsKeys` |
| Kakao.MakeKakaoLoginUrlSpec | social-login-redirect/src/kakao-login.ts:127-157 | the URL is `https://kauth.kakao.com/oauth/authorize?` followed by a query that parses to exactly the Kakao pair list |
| Kakao.KakaoParamsSpec | social-login-redirect/src/kakao-login.ts:147-154 | for props with distinct keys and `client_id` and `redirect_uri` present (what the `Props` type guarantees), `response_type` comes first (caller's value or `code`); `client_id` and `redirect_uri` are always present with the caller's values; any other key, an optional field or an undeclared one, appears exactly when the caller gave it, with the caller's value; caller order kept; at least three pairs; no key twice |
| Kakao.KakaoParamsKeys | social-login-redirect/src/kakao-login.ts:147-154 | for props holding only declared keys (an object literal at the call), every key of the query is one the props type declares: the builder adds no key but `response_type` |
| Kakao.KakaoLogin | social-login-redirect/src/kakao-login.ts:176-182 | the navigation target becomes exactly `makeKakaoLoginUrl(props)` |
| Line.MakeLineOAuthUrlByVersion | social-login-redirect/src/line-login.ts:236-237 | no contract of its own: the versioned base, stated by `Line.OAuthUrlByVersionInjective` and `Line.MakeLineLoginUrlSpec` |
| Line.LineVersion | social-login-redirect/src/line-login.ts:255 | no contract of its own: `version = 'v2.1'`, stated by `Line.MakeLineLoginUrlSpec` and `Line.LineUrlDependsOnlyOnVersion` |
| Line.MakeLineLoginUrl | social-login-redirect/src/line-login.ts:251-266 | no contract of its own: `makeLineLoginUrl`, stated by `Line.MakeLineLoginUrlSpec` and `Line.LineUrlDependsOnlyOnVersion` |
| Line.OAuthUrlByVersionInjective | social-login-redirect/src/line-login.ts:236-237 | `https://access.line.me/oauth2/{version}` determines the version |
| Line.MakeLineLoginUrlSpec | social-login-redirect/src/line-login.ts:251-266 | the URL is `https://access.line.me/oauth2/` + version (the caller's, or `v2.1`) + `/authorize?` and nothing after it, whatever else the props hold |
| Line.LineUrlDependsOnlyOnVersion | social-login-redirect/src/line-login.ts:251-266 | two props objects give the same URL exactly when they select the same version |
| Line.LineLogin | social-login-redirect/src/line-login.ts:288-296 | the navigation target becomes exactly `makeLineLoginUrl(props)` |
| Naver.NaverParams | social-login-redirect/src/naver-login.ts:14-19 | no contract of its own: the four pairs in `append` order, stated by `Naver.MakeNaverLoginUrlSpec` and `Naver.NaverParamsLookup` |
| Naver.MakeNaverLoginUrl | social-login-redirect/src/naver-login.ts:14-21 | no contract of its own: the URL `naverLogin` builds inline, stated by `Naver.MakeNaverLoginUrlSpec`, `Naver.NaverParamsLookup`, `Naver.MakeNaverLoginUrlInjective` and the ensures of `Naver.NaverLogin` |
| Naver.MakeNaverLoginUrlSpec | social-login-redirect/src/naver-login.ts:14-21 | the URL is `https://nid.naver.com/oauth2.0/authorize?` followed by a query that parses to exactly four pairs: `client_id`, `redirect_url`, `response_type`, `state`, in that order, each holding the matching caller field, empty ones included |
| Naver.NaverParamsLookup | social-login-redirect/src/naver-login.ts:16-19 | each caller field is found under its own key; the redirect is under `redirect_url`, and `redirect_uri` is absent; no key twice |
| Naver.MakeNaverLoginUrlInjective | social-login-redirect/src/naver-login.ts:8-21 | two props give the same URL exactly when all four fields are equal: no defaults, nothing dropped |
| Naver.NaverLogin | social-login-redirect/src/naver-login.ts:8-22 | four appends on a fresh `URLSearchParams`, then `toString`, send the tab to exactly `MakeNaverLoginUrl(props)` |
| SearchParams.UrlSearchParams.constructor | social-login-redirect/src/naver-login.ts:14 | a new `URLSearchParams` has an empty list |
| SearchParams.UrlSearchParams.Append | social-login-redirect/src/naver-login.ts:16-19 | `append` adds the pair at the end of the list, keeping everything already there |
| SearchParams.UrlSearchParams.ToString | social-login-redirect/src/naver-login.ts:21 | the loop over the list produces exactly `Serialize(list)`, the serializer whose output the parser reads back |

## Left out

- Property order: a JavaScript object lists integer-like keys (such as `"1"`) before other keys, whatever order they were written in. The model keeps the caller's written order for every key.
- Explicit `undefined`: an optional field passed as `undefined` survives the spread and serializes as the text `undefined`. The model treats an optional field as either present with a string value or absent.
- Value types: the TypeScript unions (`response_type`, `prompt`, `access_type`, `response_mode`) and LINE's number and boolean fields are compile-time checks only. Values are modelled as strings. For Google and Kakao the model states what the `Props` type guarantees of any accepted value: distinct keys and the required keys present (`GoogleProps`, `KakaoProps`). TypeScript rejects undeclared keys only in an object literal written at the call; a typed variable can carry them, and the builders serialize them. So only `Google.GoogleParamsKeys` and `Kakao.KakaoParamsKeys` assume declared keys alone (`Record.OnlyKeys`). The Apple, Facebook and LINE builders behave the same for any object with distinct keys, so their lemmas need no typing predicate.
- Browser navigation: writing `window.location.href` is one field write on `Navigation.Location`. Unloading the page, blocked redirects and the other `location` fields are not modelled.
- Lone surrogates: a JavaScript string may hold an unpaired surrogate, which `URLSearchParams` replaces with U+FFFD. Dafny's `char` is a Unicode scalar value, so such strings cannot be written.
- Parser leniency: `ParseQuery` returns `None` for bytes that are not UTF-8, where the standard substitutes U+FFFD. The parser is used only to read back the serializer's output, which is always well-formed.
- `social-login-redirect/index.ts` re-exports `makeNaverLoginUrl`, which `naver-login.ts` does not define. `Naver.MakeNaverLoginUrl` is the URL built inside `naverLogin`, written as a function; it does not model that missing export.
- `social-login-redirect/src/line-login .ts` (the file name contains a space) is an older `lineLogin` that calls `params.set` on camel-case props. `index.ts` imports `line-login.js`, so that file is not part of this model.
- `storage-helpers`, `useDatetime` and `usePage` are not part of this model. Their files hold only interfaces, type declarations, or a console-logging script whose implementation is not shown.
