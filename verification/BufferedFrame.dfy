/** Reading the parts of a received frame, with every bounds check of the accessors. */
module BufferedFrame {
  import opened Bytes
  import opened FrameHeader
  import opened Options

  const METADATA_LENGTH_SIZE := 3

  /** Six bytes at least, as FromBytes demands. */
  type Frame = f: seq<byte> | |f| >= HEADER_LEN witness [0, 0, 0, 0, 0, 0]

  function Body(frame: Frame): seq<byte> {
    frame[HEADER_LEN..]
  }

  // Reading without a bounds check: outside the bytes it panics

  function Slice(raw: seq<byte>, lo: int, hi: int): Outcome<seq<byte>> {
    if 0 <= lo <= hi <= |raw| then Returns(raw[lo..hi]) else Panics
  }

  function U8At(raw: seq<byte>, i: nat): Outcome<byte> {
    if i < |raw| then Returns(raw[i]) else Panics
  }

  function U16At(raw: seq<byte>, i: nat): Outcome<uint16> {
    if i + 2 <= |raw| then Returns(ReadU16(raw[i..])) else Panics
  }

  function U32At(raw: seq<byte>, i: nat): Outcome<uint32> {
    if i + 4 <= |raw| then Returns(ReadU32(raw[i..])) else Panics
  }

  /** trySeekMetadataLen: the length field (or -1) and whether the frame claims metadata. */
  function TrySeekMetadataLen(frame: Frame, offset: nat): (int, bool) {
    if offset >= |Body(frame)| then (-1, false)
    else if !FlagsOf(frame).metadata then (0, false)
    else if |Body(frame)[offset..]| < METADATA_LENGTH_SIZE then (-1, true)
    else (ReadU24(Body(frame)[offset..]) as int, true)
  }

  function TrySliceMetadata(frame: Frame, offset: nat): Option<seq<byte>> {
    var (n, ok) := TrySeekMetadataLen(frame, offset);
    var start := offset + METADATA_LENGTH_SIZE;
    if !ok || n < 0 || n > |Body(frame)| - start then None
    else Some(Body(frame)[start..start + n])
  }

  /** A nil result and an empty one are both the empty sequence. */
  function TrySliceData(frame: Frame, offset: nat): seq<byte> {
    var (n, ok) := TrySeekMetadataLen(frame, offset);
    var start := offset + METADATA_LENGTH_SIZE;
    if !ok then (if offset > |Body(frame)| then [] else Body(frame)[offset..])
    else if n < 0 || n > |Body(frame)| - start then []
    else Body(frame)[start + n..]
  }

  /** What writePayload puts after the fixed fields of a frame. */
  function PayloadBody(data: seq<byte>, metadata: seq<byte>): seq<byte> {
    (if metadata == [] then [] else PutU24(|metadata|) + metadata) + data
  }

  function NonEmpty(metadata: seq<byte>): Option<seq<byte>> {
    if metadata == [] then None else Some(metadata)
  }

  /** The frame claims metadata, carries none, and has data that will be taken for its length. */
  predicate FalseClaim(flags: Flags, data: seq<byte>, metadata: seq<byte>) {
    flags.metadata && metadata == [] && data != []
  }

  /**
   The accessors recover data and metadata exactly when the Metadata flag tells the truth about a
   payload that has data.
   */
  lemma PayloadBodyRoundTrip(frame: Frame, fixed: seq<byte>, data: seq<byte>, metadata: seq<byte>)
    requires Body(frame) == fixed + PayloadBody(data, metadata)
    requires |metadata| <= MAX_UINT24
    requires metadata != [] ==> FlagsOf(frame).metadata
    ensures (TrySliceMetadata(frame, |fixed|) == NonEmpty(metadata) && TrySliceData(frame, |fixed|) == data)
        <==> !FalseClaim(FlagsOf(frame), data, metadata)
  {
    var rest := Body(frame)[|fixed|..];
    assert rest == PayloadBody(data, metadata);
    if metadata != [] {
      RoundTripWithMetadata(frame, fixed, data, metadata);
    }
  }

  lemma RoundTripWithMetadata(frame: Frame, fixed: seq<byte>, data: seq<byte>, metadata: seq<byte>)
    requires Body(frame) == fixed + PayloadBody(data, metadata)
    requires 0 < |metadata| <= MAX_UINT24 && FlagsOf(frame).metadata
    ensures TrySliceMetadata(frame, |fixed|) == Some(metadata)
    ensures TrySliceData(frame, |fixed|) == data
  {
    var rest := Body(frame)[|fixed|..];
    assert rest == PutU24(|metadata|) + (metadata + data);
    ReadU24Prefix(PutU24(|metadata|), metadata + data);
    var start := |fixed| + METADATA_LENGTH_SIZE;
    assert Body(frame)[start..] == metadata + data;
    assert Body(frame)[start..start + |metadata|] == metadata;
    assert Body(frame)[start + |metadata|..] == data;
  }

  lemma Digits(a: byte, b: byte, c: byte)
    ensures PutU24(a as int * 65536 + b as int * 256 + c) == [a, b, c]
  {
    var n := a as int * 65536 + b as int * 256 + c;
    assert n == 256 * (256 * a as int + b) + c;
    assert n / 256 == 256 * a as int + b;
    assert n == 65536 * a as int + (256 * b as int + c);
    assert n / 65536 == a;
  }

  lemma LengthCovers(bs: seq<byte>)
    requires |bs| >= 3
    ensures PutU24(ReadU24(bs)) == bs[..3]
  {
    Digits(bs[0], bs[1], bs[2]);
  }

  /** What is read at offset, when the length field is there and the metadata with it. */
  lemma SlicesOfRest(frame: Frame, offset: nat, rest: seq<byte>, n: nat)
    requires offset < |Body(frame)| && rest == Body(frame)[offset..] && FlagsOf(frame).metadata
    requires |rest| >= 3 && n == ReadU24(rest) && 3 + n <= |rest|
    ensures TrySliceMetadata(frame, offset) == Some(rest[3..3 + n]) && TrySliceData(frame, offset) == rest[3 + n..]
  {
    var start := offset + METADATA_LENGTH_SIZE;
    assert Body(frame)[start..start + n] == rest[3..3 + n] && Body(frame)[start + n..] == rest[3 + n..];
  }

  /**
   The other way round, for every frame: what is read is what is there. Without a claim all is data; with
   one, a length field, as many bytes of metadata as it says, and data; and if those bytes are not there,
   neither metadata nor data.
   */
  lemma SlicesCover(frame: Frame, offset: nat)
    requires offset < |Body(frame)|
    ensures var rest := Body(frame)[offset..];
            var metadata, data := TrySliceMetadata(frame, offset), TrySliceData(frame, offset);
            && (!FlagsOf(frame).metadata ==> metadata == None && data == rest)
            && (FlagsOf(frame).metadata ==>
                  if |rest| >= 3 && 3 + ReadU24(rest) <= |rest|
                  then metadata.Some? && rest == PutU24(|metadata.value|) + metadata.value + data
                  else metadata == None && data == [])
  {
    var rest := Body(frame)[offset..];
    if FlagsOf(frame).metadata && |rest| >= 3 && 3 + ReadU24(rest) <= |rest| {
      var n := ReadU24(rest);
      SlicesOfRest(frame, offset, rest, n);
      LengthCovers(rest);
      assert rest == rest[..3] + rest[3..3 + n] + rest[3 + n..];
    }
  }
}
