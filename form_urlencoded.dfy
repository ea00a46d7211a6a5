/**
  The application/x-www-form-urlencoded format of the WHATWG URL Standard (section 5),
  which is what `URLSearchParams.prototype.toString` produces. The serializer (section 5.2)
  is the one every login builder relies on; the parser (section 5.1) is its partner, used to
  state that a query string reads back as exactly the list of pairs it was built from.
 */
module FormUrlEncoded {
  import opened Wrappers
  import Utf8

  type Byte = Utf8.Byte

  /** A name-value pair of a URLSearchParams list. */
  type Pair = (string, string)

  /**
    The bytes that the application/x-www-form-urlencoded percent-encode set leaves alone:
    ASCII alphanumerics and `*`, `-`, `.`, `_`. Every other byte is percent-encoded, except
    the space, which becomes `+`.
   */
  predicate Unreserved(b: Byte) {
    || (0x30 <= b <= 0x39)
    || (0x41 <= b <= 0x5A)
    || (0x61 <= b <= 0x7A)
    || b == 0x2A || b == 0x2D || b == 0x2E || b == 0x5F
  }

  /** The characters the serializer leaves as they are: the unreserved bytes, as characters. */
  predicate PlainChar(c: char) {
    c as int < 256 && Unreserved(c as int)
  }

  /** The characters an encoded name or value can contain: the plain ones, `+` and `%`. */
  predicate EncodedChar(c: char) {
    PlainChar(c) || c == '+' || c == '%'
  }

  predicate AllEncoded(s: string) {
    forall i | 0 <= i < |s| :: EncodedChar(s[i])
  }

  predicate IsHexDigit(c: char) {
    ('0' <= c <= '9') || ('A' <= c <= 'F') || ('a' <= c <= 'f')
  }

  /** The ASCII upper hex digit for `d`, as percent-encoding writes it. */
  function UpperHex(d: int): (c: char)
    requires 0 <= d < 16
    ensures IsHexDigit(c) && EncodedChar(c)
  {
    if d < 10 then ('0' as int + d) as char else ('A' as int + d - 10) as char
  }

  /** The value of a hex digit of either case. */
  function HexValue(c: char): (d: int)
    requires IsHexDigit(c)
    ensures 0 <= d < 16
  {
    if '0' <= c <= '9' then c as int - '0' as int
    else if 'A' <= c <= 'F' then c as int - 'A' as int + 10
    else c as int - 'a' as int + 10
  }

  /** One byte, encoded: itself, `+` for a space, or `%` and two upper hex digits. */
  function EncodeByte(b: Byte): string
  {
    if b == 0x20 then "+"
    else if Unreserved(b) then [b as char]
    else ['%', UpperHex(b / 16), UpperHex(b % 16)]
  }

  function PercentEncode(bs: seq<Byte>): string {
    if bs == [] then [] else EncodeByte(bs[0]) + PercentEncode(bs[1..])
  }

  /** An encoded byte is written with unreserved characters, `+` and `%` only. */
  lemma EncodeByteChars(b: Byte)
    ensures |EncodeByte(b)| >= 1 && AllEncoded(EncodeByte(b))
  {
  }

  /**
    Percent-encoded text holds no `&`, `=` or space, so the separators of a query are never
    confused with the pairs they separate.
   */
  lemma {:induction false} PercentEncodeChars(bs: seq<Byte>)
    ensures AllEncoded(PercentEncode(bs))
  {
    if bs != [] {
      EncodeByteChars(bs[0]);
      PercentEncodeChars(bs[1..]);
      var h, t := EncodeByte(bs[0]), PercentEncode(bs[1..]);
      assert forall i | |h| <= i < |h + t| :: (h + t)[i] == t[i - |h|];
    }
  }

  /** A name or a value as the serializer writes it: UTF-8 encoded, then percent-encoded. */
  function EncodeComponent(s: string): string {
    PercentEncode(Utf8.Encode(s))
  }

  function SerializePair(p: Pair): string {
    EncodeComponent(p.0) + "=" + EncodeComponent(p.1)
  }

  /** The serializer: each pair as `name=value`, the pairs joined by `&`. */
  function Serialize(ps: seq<Pair>): string {
    if ps == [] then ""
    else if |ps| == 1 then SerializePair(ps[0])
    else SerializePair(ps[0]) + "&" + Serialize(ps[1..])
  }

  /** Percent-decoding, with `+` read as a space, over the UTF-8 bytes of the input. */
  function PercentDecode(s: string): seq<Byte>
    decreases |s|
  {
    if s == [] then []
    else if s[0] == '%' && |s| >= 3 && IsHexDigit(s[1]) && IsHexDigit(s[2]) then
      [HexValue(s[1]) * 16 + HexValue(s[2])] + PercentDecode(s[3..])
    else if s[0] == '+' then [0x20] + PercentDecode(s[1..])
    else Utf8.EncodeChar(s[0]) + PercentDecode(s[1..])
  }

  /** A name or value as the parser reads it; None when the bytes are not UTF-8. */
  function DecodeComponent(s: string): Option<string> {
    Utf8.Decode(PercentDecode(s))
  }

  /** The first index of `c` in `s`, or `|s|` when there is none. */
  function IndexOf(s: string, c: char): (r: nat)
    ensures r <= |s|
    ensures forall j | 0 <= j < r :: s[j] != c
    ensures r < |s| ==> s[r] == c
  {
    if s == [] then 0 else if s[0] == c then 0 else 1 + IndexOf(s[1..], c)
  }

  /** One `&`-free sequence of a query: split at its first `=` and decoded. */
  function ParsePair(s: string): Option<Pair> {
    var i := IndexOf(s, '=');
    var name := s[..i];
    var value := if i < |s| then s[i + 1..] else [];
    match (DecodeComponent(name), DecodeComponent(value))
    case (Some(n), Some(v)) => Some((n, v))
    case _ => None
  }

  /** The parser: split at `&`, skip empty sequences, read each as a pair. */
  function ParseQuery(q: string): Option<seq<Pair>>
    decreases |q|
  {
    if q == [] then Some([])
    else
      var i := IndexOf(q, '&');
      var rest := if i < |q| then q[i + 1..] else [];
      match ParseQuery(rest)
      case None => None
      case Some(tail) =>
        if i == 0 then Some(tail)
        else match ParsePair(q[..i])
          case None => None
          case Some(p) => Some([p] + tail)
  }

  /** Decoding the encoding of one byte gives that byte back and stops where the encoding ends. */
  lemma DecodeEncodeByte(b: Byte, rest: string)
    ensures PercentDecode(EncodeByte(b) + rest) == [b] + PercentDecode(rest)
  {
    var s := EncodeByte(b) + rest;
    if b == 0x20 {
      assert s[0] == '+' && s[1..] == rest;
    } else if Unreserved(b) {
      assert s[0] == b as char && s[1..] == rest;
    } else {
      assert s[0] == '%' && s[1] == UpperHex(b / 16) && s[2] == UpperHex(b % 16) && s[3..] == rest;
      assert HexValue(s[1]) * 16 + HexValue(s[2]) == b;
    }
  }

  /** Percent-decoding undoes percent-encoding. */
  lemma {:induction false} PercentDecodeEncode(bs: seq<Byte>)
    ensures PercentDecode(PercentEncode(bs)) == bs
  {
    if bs != [] {
      DecodeEncodeByte(bs[0], PercentEncode(bs[1..]));
      PercentDecodeEncode(bs[1..]);
      assert [bs[0]] + bs[1..] == bs;
    }
  }

  /** Every name and every value reads back as itself. */
  lemma DecodeEncodeComponent(s: string)
    ensures AllEncoded(EncodeComponent(s))
    ensures DecodeComponent(EncodeComponent(s)) == Some(s)
  {
    PercentEncodeChars(Utf8.Encode(s));
    PercentDecodeEncode(Utf8.Encode(s));
    Utf8.DecodeEncode(s);
  }

  /** When `c` does not occur in `a`, the first `c` of `a + [c] + b` is at `|a|`. */
  lemma IndexOfAfter(a: string, c: char, b: string)
    requires forall j | 0 <= j < |a| :: a[j] != c
    ensures IndexOf(a + [c] + b, c) == |a|
  {
    var s := a + [c] + b;
    assert s[|a|] == c;
  }

  /** A serialized pair contains no `&`, and its only `=` is the one between name and value. */
  lemma SerializePairShape(p: Pair)
    ensures forall j | 0 <= j < |SerializePair(p)| :: SerializePair(p)[j] != '&'
    ensures forall j | 0 <= j < |EncodeComponent(p.0)| :: EncodeComponent(p.0)[j] != '='
  {
    var n, v := EncodeComponent(p.0), EncodeComponent(p.1);
    DecodeEncodeComponent(p.0);
    DecodeEncodeComponent(p.1);
    forall j | 0 <= j < |SerializePair(p)| ensures SerializePair(p)[j] != '&' {
      if j < |n| {
        assert SerializePair(p)[j] == n[j];
      } else if j > |n| {
        assert SerializePair(p)[j] == v[j - |n| - 1];
      }
    }
  }

  /** A serialized pair reads back as that pair. */
  lemma ParseSerializePair(p: Pair)
    ensures ParsePair(SerializePair(p)) == Some(p)
  {
    var n, v := EncodeComponent(p.0), EncodeComponent(p.1);
    SerializePairShape(p);
    IndexOfAfter(n, '=', v);
    var s := SerializePair(p);
    assert s[..|n|] == n;
    assert s[|n| + 1..] == v;
    DecodeEncodeComponent(p.0);
    DecodeEncodeComponent(p.1);
  }

  /** A query of one non-empty, `&`-free sequence reads as that sequence's pair. */
  lemma ParseOne(head: string, p: Pair)
    requires head != [] && forall j | 0 <= j < |head| :: head[j] != '&'
    requires ParsePair(head) == Some(p)
    ensures ParseQuery(head) == Some([p])
  {
    var i := IndexOf(head, '&');
    assert i == |head|;
    assert head[..i] == head;
    var empty: string := [];
    assert ParseQuery(empty) == Some([]);
    assert [p] + [] == [p];
  }

  /** A non-empty, `&`-free sequence followed by `&` and more: its pair, then the rest. */
  lemma ParseCons(head: string, rest: string, p: Pair, tail: seq<Pair>)
    requires head != [] && forall j | 0 <= j < |head| :: head[j] != '&'
    requires ParsePair(head) == Some(p) && ParseQuery(rest) == Some(tail)
    ensures ParseQuery(head + "&" + rest) == Some([p] + tail)
  {
    var q := head + "&" + rest;
    IndexOfAfter(head, '&', rest);
    assert q[..|head|] == head;
    assert q[|head| + 1..] == rest;
  }

  /** A serialized pair is non-empty, holds no `&`, and reads back as that pair. */
  lemma SerializedPairParses(p: Pair)
    ensures var head := SerializePair(p);
      && head != []
      && (forall j | 0 <= j < |head| :: head[j] != '&')
      && ParsePair(head) == Some(p)
  {
    SerializePairShape(p);
    ParseSerializePair(p);
    assert |SerializePair(p)| == |EncodeComponent(p.0)| + 1 + |EncodeComponent(p.1)|;
  }

  /**
    Round trip: the parser reads a serialized list back as exactly that list, every pair
    in its place. So whatever is proved about a builder's pair list is what its query says.
   */
  lemma {:induction false} ParseSerialize(ps: seq<Pair>)
    ensures ParseQuery(Serialize(ps)) == Some(ps)
  {
    if ps != [] {
      var head := SerializePair(ps[0]);
      SerializedPairParses(ps[0]);
      if |ps| == 1 {
        ParseOne(head, ps[0]);
        assert ps == [ps[0]];
      } else {
        ParseSerialize(ps[1..]);
        ParseCons(head, Serialize(ps[1..]), ps[0], ps[1..]);
        assert [ps[0]] + ps[1..] == ps;
      }
    }
  }

  /** Two lists serialize to the same query only if they are the same list. */
  lemma SerializeInjective(ps: seq<Pair>, qs: seq<Pair>)
    requires Serialize(ps) == Serialize(qs)
    ensures ps == qs
  {
    ParseSerialize(ps);
    ParseSerialize(qs);
  }

  /**
    The serializer read as the standard writes it, one pair at a time: append `&` unless
    the output is still empty, then `name=value`.
   */
  lemma {:induction false} SerializeSnoc(ps: seq<Pair>, p: Pair)
    ensures Serialize(ps + [p]) == (if ps == [] then "" else Serialize(ps) + "&") + SerializePair(p)
  {
    if ps != [] && |ps| > 1 {
      assert (ps + [p])[1..] == ps[1..] + [p];
      SerializeSnoc(ps[1..], p);
    } else if |ps| == 1 {
      assert (ps + [p])[1..] == [p];
    }
  }

  /** Only the empty list serializes to the empty string. */
  lemma SerializeEmpty(ps: seq<Pair>)
    ensures Serialize(ps) == "" <==> ps == []
  {
    if ps != [] {
      assert |SerializePair(ps[0])| > 0 by {
        assert SerializePair(ps[0])[|EncodeComponent(ps[0].0)|] == '=';
      }
    }
  }

  /** The query of `prefix + Serialize(ps)`, read back after the prefix, is `ps`. */
  lemma ParseAfter(prefix: string, ps: seq<Pair>)
    ensures (prefix + Serialize(ps))[|prefix|..] == Serialize(ps)
    ensures ParseQuery((prefix + Serialize(ps))[|prefix|..]) == Some(ps)
  {
    assert (prefix + Serialize(ps))[|prefix|..] == Serialize(ps);
    ParseSerialize(ps);
  }

  /** Percent-encoding works byte by byte, so it distributes over concatenation. */
  lemma {:induction false} PercentEncodeAppend(a: seq<Byte>, b: seq<Byte>)
    ensures PercentEncode(a + b) == PercentEncode(a) + PercentEncode(b)
  {
    if a != [] {
      assert (a + b)[1..] == a[1..] + b;
      PercentEncodeAppend(a[1..], b);
    } else {
      assert a + b == b;
    }
  }

  /** The serializer encodes a name or value character by character. */
  lemma EncodeComponentAppend(s: string, t: string)
    ensures EncodeComponent(s + t) == EncodeComponent(s) + EncodeComponent(t)
  {
    Utf8EncodeAppend(s, t);
    PercentEncodeAppend(Utf8.Encode(s), Utf8.Encode(t));
  }

  lemma {:induction false} Utf8EncodeAppend(s: string, t: string)
    ensures Utf8.Encode(s + t) == Utf8.Encode(s) + Utf8.Encode(t)
  {
    if s != [] {
      assert (s + t)[1..] == s[1..] + t;
      Utf8EncodeAppend(s[1..], t);
    } else {
      assert s + t == t;
    }
  }

  predicate AllPlain(s: string) {
    s == [] || (PlainChar(s[0]) && AllPlain(s[1..]))
  }

  /** `AllPlain` holds of a string whose every character is plain. */
  lemma {:induction false} AllPlainChars(s: string)
    requires forall i | 0 <= i < |s| :: PlainChar(s[i])
    ensures AllPlain(s)
  {
    if s != [] {
      AllPlainChars(s[1..]);
    }
  }

  /** A name or value made only of plain characters is written unchanged. */
  lemma {:induction false} EncodePlain(s: string)
    requires AllPlain(s)
    ensures EncodeComponent(s) == s
  {
    if s != [] {
      EncodePlain(s[1..]);
      EncodeComponentAppend([s[0]], s[1..]);
      assert [s[0]] + s[1..] == s;
      assert Utf8.Encode([s[0]]) == [s[0] as int];
      assert PercentEncode([s[0] as int]) == EncodeByte(s[0] as int);
    }
  }

  /** A pair whose name and value are plain is written `name=value` as it stands. */
  lemma SerializePlainPair(p: Pair)
    requires AllPlain(p.0) && AllPlain(p.1)
    ensures SerializePair(p) == p.0 + "=" + p.1
  {
    EncodePlain(p.0);
    EncodePlain(p.1);
  }

  /**
    A list whose first two pairs serialize to `head` gives a query that is `head` when the
    list has two pairs, and that starts with `head` and `&` when it has more.
   */
  lemma SerializeHead(ps: seq<Pair>, head: string)
    requires |ps| >= 2 && SerializePair(ps[0]) + "&" + SerializePair(ps[1]) == head
    ensures |ps| == 2 ==> Serialize(ps) == head
    ensures |ps| > 2 ==> |Serialize(ps)| > |head| && Serialize(ps)[..|head| + 1] == head + "&"
  {
    if |ps| > 2 {
      SerializeTwoMore(ps);
      var a, b, t := SerializePair(ps[0]), SerializePair(ps[1]), Serialize(ps[2..]);
      assert a + "&" + (b + "&" + t) == head + "&" + t;
      assert (head + "&" + t)[..|head| + 1] == head + "&";
    }
  }

  /** A list of more than two pairs serializes to its first two pairs, `&`, and the rest. */
  lemma SerializeTwoMore(ps: seq<Pair>)
    requires |ps| > 2
    ensures Serialize(ps)
      == SerializePair(ps[0]) + "&" + (SerializePair(ps[1]) + "&" + Serialize(ps[2..]))
  {
    assert ps[1..][1..] == ps[2..];
  }

  /** A space is written as `+`, not `%20`. */
  lemma SpaceAsPlus()
    ensures EncodeComponent(" ") == "+"
  {
    assert Utf8.Encode(" ") == [0x20];
  }

  /** Two plain words joined by a space are written joined by `+`. */
  lemma EncodeTwoWords(a: string, b: string)
    requires AllPlain(a) && AllPlain(b)
    ensures EncodeComponent(a + " " + b) == a + "+" + b
  {
    SpaceAsPlus();
    EncodePlain(a);
    EncodePlain(b);
    EncodeComponentAppend(a, " ");
    EncodeComponentAppend(a + " ", b);
  }

  /** The scope "name email" reads "name+email" in the query, not "name%20email". */
  lemma NameEmailEncoded()
    ensures EncodeComponent("name email") == "name+email"
  {
    NameEmailPlain();
    EncodeTwoWords("name", "email");
    assert "name" + " " + "email" == "name email";
    assert "name" + "+" + "email" == "name+email";
  }

  /** The two words of the default Apple scope are plain. */
  lemma NameEmailPlain()
    ensures AllPlain("name") && AllPlain("email")
  {
    assert AllPlain("name"[3..]) && AllPlain("email"[4..]);
  }
}
