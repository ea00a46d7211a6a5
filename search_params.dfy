/**
  The part of a URLSearchParams object the builders use: an ordered list of name-value
  pairs that `append` grows in place, and `toString`, which runs the serializer of section
  5.2 of the WHATWG URL Standard over the list.
 */
module SearchParams {
  import opened FormUrlEncoded

  class UrlSearchParams {
    /** The object's list of pairs, in insertion order; names may repeat. */
    var list: seq<Pair>

    /** `new URLSearchParams()`: an empty list. */
    constructor ()
      ensures list == []
    {
      list := [];
    }

    /** `append(name, value)`: adds the pair at the end, even when the name is already there. */
    method Append(name: string, value: string)
      modifies this
      ensures list == old(list) + [(name, value)]
    {
      list := list + [(name, value)];
    }

    /**
      `toString()`: for each pair in order, `&` unless the output is still empty, then the
      encoded name, `=`, and the encoded value.
     */
    method ToString() returns (s: string)
      ensures s == Serialize(list)
    {
      s := "";
      var i := 0;
      while i < |list|
        invariant 0 <= i <= |list|
        invariant s == Serialize(list[..i])
      {
        ghost var done := list[..i];
        var name, value := list[i].0, list[i].1;
        var pair := EncodeComponent(name) + "=" + EncodeComponent(value);
        SerializeEmpty(done);
        SerializeSnoc(done, (name, value));
        if s != "" {
          s := s + "&";
        }
        s := s + pair;
        assert list[..i + 1] == done + [(name, value)];
        i := i + 1;
      }
      assert list[..i] == list;
    }
  }
}
