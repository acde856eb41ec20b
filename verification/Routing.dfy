/** Routing metadata: tags of at most 255 bytes, each after its length. */
module Routing {
  import opened Bytes
  import opened Options

  type Tag = seq<byte>

  predicate TooLong(tag: Tag) {
    |tag| > 0xFF
  }

  /** The byte list of tags that all fit. */
  function Encoded(tags: seq<Tag>): seq<byte> {
    if tags == [] then [] else [|tags[0]| % 256] + tags[0] + Encoded(tags[1..])
  }

  /** EncodeRouting: the first tag is a parameter of its own. */
  method EncodeRouting(tag: Tag, otherTags: seq<Tag>) returns (raw: Option<seq<byte>>)
    ensures raw == if exists t :: t in [tag] + otherTags && TooLong(t) then None else Some(Encoded([tag] + otherTags))
  {
    if |tag| > 0xFF {
      assert tag in [tag] + otherTags && TooLong(tag);
      return None;
    }
    var bytes := [|tag|];
    bytes := bytes + tag;
    assert Encoded([tag]) == bytes;
    for i := 0 to |otherTags|
      invariant forall k :: 0 <= k < i ==> !TooLong(otherTags[k])
      invariant bytes == Encoded([tag] + otherTags[..i])
    {
      var it := otherTags[i];
      if |it| > 0xFF {
        assert it in [tag] + otherTags && TooLong(it);
        return None;
      }
      EncodedSnoc([tag] + otherTags[..i], it);
      assert [tag] + otherTags[..i + 1] == [tag] + otherTags[..i] + [it];
      bytes := bytes + [|it|] + it;
    }
    assert otherTags[..|otherTags|] == otherTags;
    return Some(bytes);
  }

  lemma {:induction false} EncodedSnoc(tags: seq<Tag>, last: Tag)
    ensures Encoded(tags + [last]) == Encoded(tags) + [|last| % 256] + last
    decreases |tags|
  {
    if tags == [] {
      assert [] + [last] == [last];
    } else {
      assert (tags + [last])[1..] == tags[1..] + [last];
      EncodedSnoc(tags[1..], last);
    }
  }

  /** The tags in front of the first illegal length, and whether there is one. */
  function Parsed(bs: seq<byte>): (seq<Tag>, bool)
    decreases |bs|
  {
    if bs == [] then ([], true)
    else if 1 + bs[0] as int > |bs| then ([], false)
    else
      var (rest, ok) := Parsed(bs[1 + bs[0]..]);
      ([bs[1..1 + bs[0]]] + rest, ok)
  }

  /** ParseRoutingTags: the tags found before an error are returned with it. */
  method ParseRoutingTags(bs: seq<byte>) returns (tags: seq<Tag>, ok: bool)
    ensures (tags, ok) == Parsed(bs)
  {
    tags := [];
    var totals := |bs|;
    var cursor := 0;
    assert bs[0..] == bs;
    assert [] + Parsed(bs).0 == Parsed(bs).0;
    while cursor < totals
      invariant 0 <= cursor <= totals
      invariant Parsed(bs) == (tags + Parsed(bs[cursor..]).0, Parsed(bs[cursor..]).1)
    {
      var tagLen := bs[cursor];
      var end := cursor + 1 + tagLen;
      if end > totals {
        assert tags + [] == tags;
        return tags, false;
      }
      ParseOne(bs, cursor, tags);
      tags := tags + [bs[cursor + 1..end]];
      cursor := end;
    }
    assert tags + [] == tags;
    return tags, true;
  }

  lemma ParseOne(bs: seq<byte>, cursor: nat, tags: seq<Tag>)
    requires cursor < |bs| && cursor + 1 + bs[cursor] <= |bs|
    ensures var end := cursor + 1 + bs[cursor];
            && tags + Parsed(bs[cursor..]).0 == tags + [bs[cursor + 1..end]] + Parsed(bs[end..]).0
            && Parsed(bs[cursor..]).1 == Parsed(bs[end..]).1
  {
    var rest := bs[cursor..];
    var end := cursor + 1 + bs[cursor];
    assert rest[1..1 + rest[0]] == bs[cursor + 1..end] && rest[1 + rest[0]..] == bs[end..];
  }

  /** Tags that fit are parsed back. */
  lemma {:induction false} ParseEncoded(tags: seq<Tag>)
    requires forall t :: t in tags ==> !TooLong(t)
    ensures Parsed(Encoded(tags)) == (tags, true)
    decreases |tags|
  {
    if tags != [] {
      var bs := Encoded(tags);
      assert tags[0] in tags;
      assert bs[0] == |tags[0]| && tags == [tags[0]] + tags[1..];
      assert bs[1..1 + |tags[0]|] == tags[0] && bs[1 + |tags[0]|..] == Encoded(tags[1..]);
      ParseEncoded(tags[1..]);
    }
  }

  /** Every accepted byte string is the encoding of its tags, all of which fit. */
  lemma {:induction false} EncodeParsed(bs: seq<byte>)
    requires Parsed(bs).1
    ensures Encoded(Parsed(bs).0) == bs
    ensures forall t :: t in Parsed(bs).0 ==> !TooLong(t)
    ensures bs != [] ==> Parsed(bs).0 != []
    decreases |bs|
  {
    if bs != [] {
      var n := 1 + bs[0] as int;
      EncodeParsed(bs[n..]);
      var tags := Parsed(bs).0;
      assert tags[0] == bs[1..n] && tags[1..] == Parsed(bs[n..]).0;
      assert bs == [bs[0]] + bs[1..n] + bs[n..];
    }
  }

  /** Each tag on the wire: one byte that is its length, and its bytes. */
  lemma {:induction false} TagOnWire(tag: Tag, more: seq<Tag>)
    requires |tag| <= 255
    ensures var bs := Encoded([tag] + more);
            && |bs| == 1 + |tag| + |Encoded(more)|
            && bs[0] == |tag| && bs[1..1 + |tag|] == tag && bs[1 + |tag|..] == Encoded(more)
  {
    assert ([tag] + more)[1..] == more;
  }
}
