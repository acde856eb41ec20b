/**
 The frames that carry a payload: PAYLOAD, REQUEST_RESPONSE and REQUEST_FNF directly after the
 header, REQUEST_STREAM and REQUEST_CHANNEL after a 32-bit initial request N.
 */
module PayloadFrames {
  import opened BufferedFrame
  import opened Bytes
  import opened FrameHeader
  import opened Options

  predicate HasRequestN(ty: FrameType) {
    ty == REQUEST_STREAM || ty == REQUEST_CHANNEL
  }

  predicate CarriesPayload(ty: FrameType) {
    ty == PAYLOAD || ty == REQUEST_RESPONSE || ty == REQUEST_FNF || HasRequestN(ty)
  }

  function FixedFields(ty: FrameType, n: uint32): seq<byte> {
    if HasRequestN(ty) then PutU32(n) else []
  }

  function PayloadOffset(ty: FrameType): nat {
    if HasRequestN(ty) then 4 else 0
  }

  function CalcPayloadFrameSize(data: seq<byte>, metadata: seq<byte>): nat {
    HEADER_LEN + |data| + if metadata == [] then 0 else 3 + |metadata|
  }

  /** Every constructor sets the Metadata flag when there is metadata. */
  function Marked(flags: Flags, metadata: seq<byte>): Flags {
    if metadata == [] then flags else flags.(metadata := true)
  }

  /** The layout the protocol gives these frames. */
  function Encode(sid: uint32, ty: FrameType, n: uint32, data: seq<byte>, metadata: seq<byte>, flags: Flags): (f: Frame)
    ensures |f| == CalcPayloadFrameSize(data, metadata) + PayloadOffset(ty)
  {
    Header(sid, ty, Marked(flags, metadata)) + (FixedFields(ty, n) + PayloadBody(data, metadata))
  }

  // The two printers

  /** NewPayloadFrame, NewRequestResponseFrame: the buffered frame, written piece by piece. */
  method NewPayloadFrame(sid: uint32, ty: FrameType, data: seq<byte>, metadata: seq<byte>, flags: Flags)
    returns (frame: Frame)
    requires !HasRequestN(ty) && |metadata| <= MAX_UINT24
    ensures frame == Encode(sid, ty, 0, data, metadata, flags)
  {
    var fg := flags;
    if |metadata| > 0 {
      fg := fg.(metadata := true);
    }
    var b := new Writer();
    var _ := b.Write(Header(sid, ty, fg));
    if |metadata| > 0 {
      var _ := b.Write(PutU24(|metadata|));
      var _ := b.Write(metadata);
    }
    if |data| > 0 {
      var _ := b.Write(data);
    }
    frame := b.contents;
  }

  /** NewRequestStreamFrame, NewRequestChannelFrame. */
  method NewRequestFrame(sid: uint32, ty: FrameType, n: uint32, data: seq<byte>, metadata: seq<byte>, flags: Flags)
    returns (frame: Frame)
    requires HasRequestN(ty) && |metadata| <= MAX_UINT24
    ensures frame == Encode(sid, ty, n, data, metadata, flags)
  {
    var fg := flags;
    if |metadata| > 0 {
      fg := fg.(metadata := true);
    }
    var b := new Writer();
    var _ := b.Write(Header(sid, ty, fg));
    var _ := b.Write(PutU32(n));
    if |metadata| > 0 {
      var _ := b.Write(PutU24(|metadata|));
      var _ := b.Write(metadata);
    }
    if |data| > 0 {
      var _ := b.Write(data);
    }
    frame := b.contents;
  }

  /** The frame object the sending side keeps until it is written; n is used by the request frames. */
  datatype WriteableFrame =
    WriteableFrame(header: seq<byte>, ty: FrameType, n: uint32, data: seq<byte>, metadata: seq<byte>)

  /** The NewWriteable... constructors. */
  function NewWriteable(sid: uint32, ty: FrameType, n: uint32, data: seq<byte>, metadata: seq<byte>,
                        flags: Flags): WriteableFrame {
    WriteableFrame(Header(sid, ty, Marked(flags, metadata)), ty, n, data, metadata)
  }

  method WritePayload(w: Writer, data: seq<byte>, metadata: seq<byte>) returns (n: nat)
    requires |metadata| <= MAX_UINT24
    modifies w
    ensures w.contents == old(w.contents) + PayloadBody(data, metadata)
    ensures n == |PayloadBody(data, metadata)|
  {
    n := 0;
    if |metadata| > 0 {
      var wrote := w.Write(PutU24(|metadata|));
      n := n + wrote;
      wrote := w.Write(metadata);
      n := n + wrote;
    }
    if |data| > 0 {
      var wrote := w.Write(data);
      n := n + wrote;
    }
  }

  function Len(f: WriteableFrame): nat {
    CalcPayloadFrameSize(f.data, f.metadata) + PayloadOffset(f.ty)
  }

  method WriteTo(f: WriteableFrame, w: Writer) returns (n: nat)
    requires |f.metadata| <= MAX_UINT24 && |f.header| == HEADER_LEN
    modifies w
    ensures w.contents == old(w.contents) + f.header + FixedFields(f.ty, f.n) + PayloadBody(f.data, f.metadata)
    ensures n == Len(f)
  {
    n := w.Write(f.header);
    if HasRequestN(f.ty) {
      var v := w.Write(PutU32(f.n));
      n := n + v;
    }
    var wrote := WritePayload(w, f.data, f.metadata);
    n := n + wrote;
  }

  /** Both printers give the same bytes, and Len is their number. */
  method PrintersAgree(sid: uint32, ty: FrameType, n: uint32, data: seq<byte>, metadata: seq<byte>, flags: Flags)
    returns (built: seq<byte>, written: seq<byte>, len: nat)
    requires CarriesPayload(ty) && |metadata| <= MAX_UINT24
    ensures built == written == Encode(sid, ty, n, data, metadata, flags)
    ensures len == |written|
  {
    if HasRequestN(ty) {
      built := NewRequestFrame(sid, ty, n, data, metadata, flags);
    } else {
      built := NewPayloadFrame(sid, ty, data, metadata, flags);
    }
    var w := new Writer();
    var f := NewWriteable(sid, ty, n, data, metadata, flags);
    var _ := WriteTo(f, w);
    written := w.contents;
    len := Len(f);
    assert written == f.header + (FixedFields(ty, n) + PayloadBody(data, metadata));
  }

  // The accessors

  function MetadataOf(frame: Frame): Option<seq<byte>> {
    TrySliceMetadata(frame, PayloadOffset(Type(frame)))
  }

  function DataOf(frame: Frame): seq<byte> {
    TrySliceData(frame, PayloadOffset(Type(frame)))
  }

  /** The Validate methods of these frames. */
  predicate Valid(frame: Frame) {
    |Body(frame)| >= PayloadOffset(Type(frame)) + if FlagsOf(frame).metadata then 3 else 0
  }

  function InitialRequestN(frame: Frame): uint32
    requires HasRequestN(Type(frame)) && Valid(frame)
  {
    ReadU32(Body(frame))
  }

  lemma EncodedParts(sid: uint32, ty: FrameType, n: uint32, data: seq<byte>, metadata: seq<byte>, flags: Flags)
    ensures var f := Encode(sid, ty, n, data, metadata, flags);
            && StreamID(f) == sid && Type(f) == ty && FlagsOf(f) == Marked(flags, metadata)
            && Body(f) == FixedFields(ty, n) + PayloadBody(data, metadata)
  {
    HeaderRoundTrip(sid, ty, Marked(flags, metadata), FixedFields(ty, n) + PayloadBody(data, metadata));
  }

  /**
   Decoding recovers stream id, type, flags, request N, data and metadata of every encoded frame,
   unless the caller set the Metadata flag on a frame without metadata that has data; and then it
   does not.
   */
  lemma RoundTrip(sid: uint32, ty: FrameType, n: uint32, data: seq<byte>, metadata: seq<byte>, flags: Flags)
    requires |metadata| <= MAX_UINT24
    ensures var f := Encode(sid, ty, n, data, metadata, flags);
            && StreamID(f) == sid && Type(f) == ty && FlagsOf(f) == Marked(flags, metadata)
            && (HasRequestN(ty) && Valid(f) ==> InitialRequestN(f) == n)
            && ((MetadataOf(f) == NonEmpty(metadata) && DataOf(f) == data) <==> !FalseClaim(flags, data, metadata))
  {
    var f := Encode(sid, ty, n, data, metadata, flags);
    EncodedParts(sid, ty, n, data, metadata, flags);
    PayloadBodyRoundTrip(f, FixedFields(ty, n), data, metadata);
    if HasRequestN(ty) {
      ReadU32Prefix(PutU32(n), PayloadBody(data, metadata));
    }
  }

  /** The receiver's validation accepts an encoded frame exactly when a claimed length field is there. */
  lemma AcceptedExactly(sid: uint32, ty: FrameType, n: uint32, data: seq<byte>, metadata: seq<byte>, flags: Flags)
    ensures Valid(Encode(sid, ty, n, data, metadata, flags))
       <==> (flags.metadata && metadata == [] ==> |data| >= 3)
  {
    EncodedParts(sid, ty, n, data, metadata, flags);
  }

  /** The frame says that its metadata is present and empty, or longer than what is there. */
  predicate HollowClaim(f: Frame) {
    FlagsOf(f).metadata && (MetadataOf(f) == None || MetadataOf(f) == Some([]))
  }

  /** What is read from a frame, encoded again. */
  function Reencoded(f: Frame): seq<byte>
    requires Valid(f)
  {
    Encode(StreamID(f), Type(f), if HasRequestN(Type(f)) then InitialRequestN(f) else 0, DataOf(f), MetadataRead(f),
           FlagsOf(f))
  }

  function MetadataRead(f: Frame): seq<byte> {
    if MetadataOf(f).Some? then MetadataOf(f).value else []
  }

  /**
   Decoding loses nothing of a valid frame, whoever has sent it: encoding what was read gives back its
   bytes, exactly unless its claim of metadata is hollow.
   */
  lemma ReencodesExactly(f: Frame)
    requires CarriesPayload(Type(f)) && Valid(f)
    ensures Reencoded(f) == f <==> !HollowClaim(f)
  {
    var offset := PayloadOffset(Type(f));
    ReencodedParts(f, offset);
    PayloadOfFrame(f, offset, MetadataRead(f));
    SamePayload(f[..HEADER_LEN], Body(f)[..offset], Body(f)[offset..], PayloadBody(DataOf(f), MetadataRead(f)));
    assert f == f[..HEADER_LEN] + (Body(f)[..offset] + Body(f)[offset..]);
  }

  lemma ReencodedParts(f: Frame, offset: nat)
    requires Valid(f) && offset == PayloadOffset(Type(f)) <= |Body(f)|
    ensures Reencoded(f) == f[..HEADER_LEN] + (Body(f)[..offset] + PayloadBody(DataOf(f), MetadataRead(f)))
  {
    HeaderOfFrame(f);
    FixedOfFrame(f, if HasRequestN(Type(f)) then InitialRequestN(f) else 0);
    PayloadOfFrame(f, offset, MetadataRead(f));
    assert Marked(FlagsOf(f), MetadataRead(f)) == FlagsOf(f);
  }

  lemma SamePayload(h: seq<byte>, fixed: seq<byte>, rest: seq<byte>, payload: seq<byte>)
    ensures h + (fixed + payload) == h + (fixed + rest) <==> payload == rest
  {
    assert (h + (fixed + payload))[|h| + |fixed|..] == payload;
    assert (h + (fixed + rest))[|h| + |fixed|..] == rest;
  }

  lemma PayloadOfFrame(f: Frame, offset: nat, metadata: seq<byte>)
    requires Valid(f) && offset == PayloadOffset(Type(f)) <= |Body(f)|
    requires metadata == MetadataRead(f)
    ensures PayloadBody(DataOf(f), metadata) == Body(f)[offset..] <==> !HollowClaim(f)
    ensures metadata != [] ==> FlagsOf(f).metadata
  {
    if offset < |Body(f)| {
      SlicesCover(f, offset);
    }
  }

  lemma HeaderOfFrame(f: Frame)
    ensures Header(StreamID(f), Type(f), FlagsOf(f)) == f[..HEADER_LEN]
  {
    assert f[..HEADER_LEN][..4] == f[..4] && f[..HEADER_LEN][4..6] == f[4..6];
    HeaderCovers(f[..HEADER_LEN]);
  }

  lemma FixedOfFrame(f: Frame, n: uint32)
    requires Valid(f) && n == if HasRequestN(Type(f)) then InitialRequestN(f) else 0
    ensures FixedFields(Type(f), n) == Body(f)[..PayloadOffset(Type(f))]
  {
    if HasRequestN(Type(f)) {
      ReadU32Prefix(Body(f)[..4], Body(f)[4..]);
      assert Body(f)[..4] + Body(f)[4..] == Body(f);
      PutReadU32(Body(f)[..4]);
    }
  }

  // The layout on the wire, in numbers

  /** Only REQUEST_STREAM (0x06) and REQUEST_CHANNEL (0x07) have four bytes in front of their payload. */
  lemma PayloadStart(ty: FrameType)
    ensures CarriesPayload(ty) <==> ty in {0x04, 0x05, 0x06, 0x07, 0x0A}
    ensures HEADER_LEN + PayloadOffset(ty) == if ty == 0x06 || ty == 0x07 then 10 else 6
  {
  }

  lemma {:induction false} OnWire(sid: uint32, ty: FrameType, n: uint32, data: seq<byte>, metadata: seq<byte>,
                                  flags: Flags)
    requires |metadata| <= 0xFF_FFFF
    ensures var f, at := Encode(sid, ty, n, data, metadata, flags), if ty == 0x06 || ty == 0x07 then 10 else 6;
            && |f| >= at
            && (at == 10 ==> Number(f[6..10]) == n)
            && (metadata == [] ==> f[at..] == data)
            && (metadata != [] ==>
                  && |f| >= at + 3 + |metadata|
                  && Number(f[at..at + 3]) == |metadata|
                  && f[at + 3..at + 3 + |metadata|] == metadata && f[at + 3 + |metadata|..] == data)
  {
    var h := Header(sid, ty, Marked(flags, metadata));
    BigEndian32(n, PutU32(n));
    BigEndian24(|metadata|, PutU24(|metadata|));
    PartsOnWire(h, FixedFields(ty, n), PutU24(|metadata|), metadata, data);
  }

  lemma PartsOnWire(h: seq<byte>, fixed: seq<byte>, length: seq<byte>, metadata: seq<byte>, data: seq<byte>)
    requires |length| == 3
    ensures var f, at := h + (fixed + (length + metadata + data)), |h| + |fixed|;
            && f[|h|..at] == fixed && f[at..at + 3] == length
            && f[at + 3..at + 3 + |metadata|] == metadata && f[at + 3 + |metadata|..] == data
    ensures (h + (fixed + ([] + data)))[|h| + |fixed|..] == data
    ensures (h + (fixed + ([] + data)))[|h|..|h| + |fixed|] == fixed
  {
  }
}
