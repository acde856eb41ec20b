/** The joiner: the fragments of one payload received so far. */
module Joiner {
  import opened BufferedFrame
  import opened Bytes
  import opened FrameHeader
  import opened Options
  import opened PayloadFrames
  import opened Splitter

  function Append(a: Option<seq<byte>>, b: Option<seq<byte>>): Option<seq<byte>> {
    match (a, b)
    case (None, _) => b
    case (_, None) => a
    case (Some(x), Some(y)) => Some(x + y)
  }

  /** The metadata of the leading fragments that claim metadata. */
  function JoinMetadata(root: seq<Frame>): Option<seq<byte>> {
    if root == [] || !FlagsOf(root[0]).metadata then None
    else Append(MetadataOf(root[0]), JoinMetadata(root[1..]))
  }

  function JoinData(root: seq<Frame>): seq<byte> {
    if root == [] then [] else DataOf(root[0]) + JoinData(root[1..])
  }

  lemma AppendAssoc(a: Option<seq<byte>>, b: Option<seq<byte>>, c: Option<seq<byte>>)
    ensures Append(Append(a, b), c) == Append(a, Append(b, c))
  {
    if a.Some? && b.Some? && c.Some? {
      assert a.value + b.value + c.value == a.value + (b.value + c.value);
    }
  }

  /** One turn of the loops over the list. */
  lemma From(root: seq<Frame>, cur: nat)
    requires cur < |root|
    ensures JoinData(root[cur..]) == DataOf(root[cur]) + JoinData(root[cur+1..])
    ensures JoinMetadata(root[cur..])
         == if FlagsOf(root[cur]).metadata then Append(MetadataOf(root[cur]), JoinMetadata(root[cur+1..])) else None
  {
    assert root[cur..][1..] == root[cur+1..];
  }

  lemma DataFrom(data: seq<byte>, root: seq<Frame>, cur: nat)
    requires cur < |root|
    ensures data + JoinData(root[cur..]) == (data + DataOf(root[cur])) + JoinData(root[cur+1..])
    ensures DataOf(root[cur]) == [] ==> data + DataOf(root[cur]) == data
  {
    From(root, cur);
    assert data + (DataOf(root[cur]) + JoinData(root[cur+1..])) == (data + DataOf(root[cur])) + JoinData(root[cur+1..]);
  }

  class ImplJoiner {
    var root: seq<Frame>

    /** NewJoiner. */
    constructor (first: Frame)
      ensures root == [first]
    {
      root := [first];
    }

    method Push(elem: Frame) returns (end: bool)
      modifies this
      ensures root == old(root) + [elem]
      ensures end <==> !FlagsOf(elem).follow
    {
      root := root + [elem];
      end := !FlagsOf(elem).follow;
    }

    method Header() returns (h: seq<byte>)
      requires root != []
      ensures h == root[0][..HEADER_LEN]
    {
      h := root[0][..HEADER_LEN];
    }

    method Metadata() returns (metadata: seq<byte>, ok: bool)
      ensures JoinMetadata(root) == if ok then Some(metadata) else None
    {
      metadata, ok := [], false;
      var cur := 0;
      assert root[0..] == root;
      while cur < |root|
        invariant cur <= |root|
        invariant JoinMetadata(root) == Append(if ok then Some(metadata) else None, JoinMetadata(root[cur..]))
        invariant !ok ==> metadata == []
      {
        var f := root[cur];
        From(root, cur);
        AppendAssoc(if ok then Some(metadata) else None, MetadataOf(f), JoinMetadata(root[cur+1..]));
        if !FlagsOf(f).metadata {
          break;
        }
        var m := MetadataOf(f);
        if m.Some? {
          assert !ok ==> metadata + m.value == m.value;
          metadata := metadata + m.value;
          ok := true;
        }
        cur := cur + 1;
      }
    }

    method Data() returns (data: seq<byte>)
      ensures data == JoinData(root)
    {
      data := [];
      var cur := 0;
      assert root[0..] == root;
      while cur < |root|
        invariant cur <= |root|
        invariant JoinData(root) == data + JoinData(root[cur..])
      {
        var d := DataOf(root[cur]);
        DataFrom(data, root, cur);
        if |d| > 0 {
          data := data + d;
        }
        cur := cur + 1;
      }
    }
  }

  // Joining what the splitter cut

  /** fs decode to the fragments rs. */
  predicate Decode(fs: seq<Frame>, rs: seq<SplitResult>) {
    && |fs| == |rs|
    && forall i :: 0 <= i < |fs| ==>
         && (FlagsOf(fs[i]).metadata <==> rs[i].metadata != [])
         && MetadataOf(fs[i]) == NonEmpty(rs[i].metadata)
         && DataOf(fs[i]) == rs[i].data
  }

  lemma {:induction false} JoinDataOfSplit(fs: seq<Frame>, rs: seq<SplitResult>)
    requires Decode(fs, rs)
    ensures JoinData(fs) == AllData(rs)
    decreases |fs|
  {
    if fs != [] {
      JoinDataOfSplit(fs[1..], rs[1..]);
    }
  }

  lemma {:induction false} NoMetadataLeft(rs: seq<SplitResult>)
    requires forall r :: r in rs ==> r.metadata == []
    ensures AllMetadata(rs) == []
    decreases |rs|
  {
    if rs != [] {
      NoMetadataLeft(rs[1..]);
    }
  }

  /** Because metadata comes first, stopping at the first fragment without metadata loses none. */
  lemma {:induction false} JoinMetadataOfSplit(fs: seq<Frame>, rs: seq<SplitResult>)
    requires Decode(fs, rs) && MetadataFirst(rs)
    ensures JoinMetadata(fs) == NonEmpty(AllMetadata(rs))
    decreases |fs|
  {
    if fs != [] {
      if rs[0].metadata == [] {
        NoMetadataLeft(rs[1..]);
      } else {
        JoinMetadataOfSplit(fs[1..], rs[1..]);
        assert rs[0].metadata + [] == rs[0].metadata;
      }
    }
  }

  /** A frame that is not fragmented reads the same alone and as a joiner of one. */
  lemma JoinOne(f: Frame)
    ensures JoinData([f]) == DataOf(f)
    ensures JoinMetadata([f]) == MetadataOf(f)
  {
    assert [f][1..] == [];
  }
}
