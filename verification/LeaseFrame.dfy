/** The LEASE frame: a time to live in milliseconds, a number of requests and unprefixed metadata. */
module LeaseFrame {
  import opened BufferedFrame
  import opened Bytes
  import opened Durations
  import opened FrameHeader
  import opened Options

  function LeaseFlags(metadata: seq<byte>): Flags {
    NO_FLAGS.(metadata := metadata != [])
  }

  function Fields(ttl: Duration, n: uint32, metadata: seq<byte>): seq<byte> {
    PutU32(Millis(ttl)) + (PutU32(n) + metadata)
  }

  function Encode(ttl: Duration, n: uint32, metadata: seq<byte>): Frame {
    Header(0, LEASE, LeaseFlags(metadata)) + Fields(ttl, n, metadata)
  }

  // The two printers

  method NewLeaseFrame(ttl: Duration, n: uint32, metadata: seq<byte>) returns (frame: Frame)
    ensures frame == Encode(ttl, n, metadata)
  {
    var fg := NO_FLAGS;
    if |metadata| > 0 {
      fg := fg.(metadata := true);
    }
    var header, time, requests := Header(0, LEASE, fg), PutU32(Millis(ttl)), PutU32(n);
    var b := new Writer();
    var _ := b.Write(header);
    var _ := b.Write(time);
    var _ := b.Write(requests);
    if |metadata| > 0 {
      var _ := b.Write(metadata);
    }
    frame := b.contents;
    Assemble([], header, time, requests, metadata);
    assert frame == [] + header + time + requests + metadata;
  }

  lemma Assemble(w: seq<byte>, h: seq<byte>, t: seq<byte>, n: seq<byte>, m: seq<byte>)
    ensures w + h + t + n + m == w + (h + (t + (n + m)))
  {
  }

  datatype WriteableLeaseFrame =
    WriteableLeaseFrame(header: seq<byte>, ttl: seq<byte>, n: seq<byte>, metadata: seq<byte>)

  function NewWriteable(ttl: Duration, n: uint32, metadata: seq<byte>): WriteableLeaseFrame {
    WriteableLeaseFrame(Header(0, LEASE, LeaseFlags(metadata)), PutU32(Millis(ttl)), PutU32(n), metadata)
  }

  predicate Claims(header: seq<byte>) {
    |header| == HEADER_LEN && FlagsOf(header).metadata
  }

  method WriteTo(f: WriteableLeaseFrame, w: Writer) returns (n: nat)
    requires |f.header| == HEADER_LEN && |f.ttl| == |f.n| == 4
    modifies w
    ensures w.contents == old(w.contents) + (f.header + (f.ttl + (f.n + if Claims(f.header) then f.metadata else [])))
    ensures n == Len(f)
  {
    ghost var was := w.contents;
    n := w.Write(f.header);
    var v := w.Write(f.ttl);
    n := n + v;
    v := w.Write(f.n);
    n := n + v;
    if Claims(f.header) {
      v := w.Write(f.metadata);
      n := n + v;
    }
    Assemble(was, f.header, f.ttl, f.n, if Claims(f.header) then f.metadata else []);
  }

  function Len(f: WriteableLeaseFrame): nat
    requires |f.header| == HEADER_LEN
  {
    HEADER_LEN + 8 + if Claims(f.header) then |f.metadata| else 0
  }

  lemma ClaimsMetadata(metadata: seq<byte>)
    ensures Claims(Header(0, LEASE, LeaseFlags(metadata))) <==> metadata != []
  {
    var h := Header(0, LEASE, LeaseFlags(metadata));
    HeaderRoundTrip(0, LEASE, LeaseFlags(metadata), []);
    assert h + [] == h;
  }

  /** Both printers give the same bytes, and Len is their number. */
  method PrintersAgree(ttl: Duration, n: uint32, metadata: seq<byte>)
    returns (built: seq<byte>, written: seq<byte>, len: nat)
    ensures built == written == Encode(ttl, n, metadata)
    ensures len == |written|
  {
    built := NewLeaseFrame(ttl, n, metadata);
    ClaimsMetadata(metadata);
    var w := new Writer();
    len := WriteTo(NewWriteable(ttl, n, metadata), w);
    written := w.contents;
  }

  // The accessors

  predicate Valid(frame: Frame) {
    |Body(frame)| >= 8
  }

  function TimeToLive(frame: Frame): Outcome<Duration> {
    var v :- U32At(Body(frame), 0);
    Returns(FromMillis(v))
  }

  function NumberOfRequests(frame: Frame): Outcome<uint32> {
    U32At(Body(frame), 4)
  }

  function Metadata(frame: Frame): Outcome<seq<byte>> {
    if !FlagsOf(frame).metadata then Returns([]) else Slice(Body(frame), 8, |Body(frame)|)
  }

  /** Everything comes back, the time to live in whole milliseconds modulo 2^32 of them. */
  lemma RoundTrip(ttl: Duration, n: uint32, metadata: seq<byte>)
    ensures var f := Encode(ttl, n, metadata);
            && Type(f) == LEASE && StreamID(f) == 0 && Valid(f)
            && TimeToLive(f) == Returns(FromMillis(Millis(ttl)))
            && NumberOfRequests(f) == Returns(n) && Metadata(f) == Returns(metadata)
  {
    HeaderRoundTrip(0, LEASE, LeaseFlags(metadata), Fields(ttl, n, metadata));
    var f := Encode(ttl, n, metadata);
    var t := PutU32(Millis(ttl));
    assert Body(f) == t + (PutU32(n) + metadata);
    ReadU32Prefix(t, PutU32(n) + metadata);
    assert Body(f)[4..] == PutU32(n) + metadata;
    ReadU32Prefix(PutU32(n), metadata);
    assert Body(f)[8..|Body(f)|] == metadata;
  }

  /** Validation accepts exactly the frames on which no accessor panics. */
  lemma ValidExactly(frame: Frame)
    ensures Valid(frame) <==> TimeToLive(frame).Returns? && NumberOfRequests(frame).Returns? && Metadata(frame).Returns?
  {
  }

  /** On the wire: time to live in milliseconds, number of requests, and the metadata without a length. */
  lemma OnWire(ttl: Duration, n: uint32, metadata: seq<byte>)
    ensures var f := Encode(ttl, n, metadata);
            && |f| == 14 + |metadata|
            && f[6..10] == PutU32(Millis(ttl)) && f[10..14] == PutU32(n) && f[14..] == metadata
  {
    PartsOnWire(Header(0, LEASE, LeaseFlags(metadata)), PutU32(Millis(ttl)), PutU32(n), metadata);
  }

  lemma PartsOnWire(h: seq<byte>, ttl: seq<byte>, n: seq<byte>, metadata: seq<byte>)
    requires |h| == 6 && |ttl| == |n| == 4
    ensures var f := h + (ttl + (n + metadata));
            |f| == 14 + |metadata| && f[6..10] == ttl && f[10..14] == n && f[14..] == metadata
  {
  }
}
