/** The RESUME frame, whose accessors compute every offset behind the token in 16 bits. */
module ResumeFrame {
  import opened BufferedFrame
  import opened Bytes
  import opened FrameHeader
  import opened Options
  import opened SetupFrame

  const MAX_TOKEN := 65535

  datatype Resume = Resume(version: Version, token: seq<byte>, firstAvailable: uint64, lastReceived: uint64)

  function TokenPart(token: seq<byte>): seq<byte> {
    PutU16(|token| % 0x1_0000) + token
  }

  function Positions(last: seq<byte>, first: seq<byte>): seq<byte> {
    last + first
  }

  function Fields(r: Resume): seq<byte> {
    VersionBytes(r.version) + TokenPart(r.token) + Positions(PutU64(r.lastReceived), PutU64(r.firstAvailable))
  }

  function Encode(r: Resume): Frame {
    Header(0, RESUME, NO_FLAGS) + Fields(r)
  }

  // The two printers; only the first refuses a token that is too long for its length field

  method NewResumeFrame(r: Resume) returns (frame: Outcome<Frame>)
    ensures frame == if |r.token| <= 65535 then Returns(Encode(r)) else Panics
  {
    var n := |r.token|;
    if n > MAX_TOKEN {
      return Panics;
    }
    var bs := FillResumeFrame(Header(0, RESUME, NO_FLAGS), VersionBytes(r.version), PutU16(n % 0x1_0000), r.token,
                              PutU64(r.lastReceived), PutU64(r.firstAvailable));
    frame := Returns(bs);
  }

  method FillResumeFrame(header: seq<byte>, version: seq<byte>, length: seq<byte>, token: seq<byte>,
                         last: seq<byte>, first: seq<byte>) returns (bs: seq<byte>)
    ensures bs == header + (version + (length + token) + Positions(last, first))
  {
    var b := new Writer();
    var _ := b.Write(header);
    var _ := b.Write(version);
    var _ := b.Write(length);
    if |token| > 0 {
      var _ := b.Write(token);
    }
    assert b.contents == [] + header + version + length + token;
    var _ := b.Write(last);
    var _ := b.Write(first);
    bs := b.contents;
    Assemble([], header, version, length, token, last, first);
  }

  lemma Assemble(w: seq<byte>, h: seq<byte>, v: seq<byte>, n: seq<byte>, t: seq<byte>, a: seq<byte>, b: seq<byte>)
    ensures w + h + v + n + t + a + b == w + (h + (v + (n + t) + (a + b)))
  {
  }

  datatype WriteableResumeFrame = WriteableResumeFrame(
    header: seq<byte>, version: Version, token: seq<byte>, posFirst: seq<byte>, posLast: seq<byte>)

  function NewWriteable(r: Resume): WriteableResumeFrame {
    WriteableResumeFrame(Header(0, RESUME, NO_FLAGS), r.version, r.token,
                         PutU64(r.firstAvailable), PutU64(r.lastReceived))
  }

  method WriteTo(f: WriteableResumeFrame, w: Writer) returns (n: nat)
    requires |f.header| == HEADER_LEN && |f.posFirst| == |f.posLast| == 8
    modifies w
    ensures w.contents == old(w.contents) + (f.header +
            (VersionBytes(f.version) + TokenPart(f.token) + Positions(f.posLast, f.posFirst)))
    ensures n == Len(f)
  {
    ghost var was := w.contents;
    n := w.Write(f.header);
    var v := w.Write(VersionBytes(f.version));
    n := n + v;
    var _ := w.Write(PutU16(|f.token| % 0x1_0000));
    n := n + 2;
    v := w.Write(f.token);
    n := n + v;
    v := w.Write(f.posLast);
    n := n + v;
    v := w.Write(f.posFirst);
    n := n + v;
    Assemble(was, f.header, VersionBytes(f.version), PutU16(|f.token| % 0x1_0000), f.token, f.posLast, f.posFirst);
  }

  function Len(f: WriteableResumeFrame): nat {
    HEADER_LEN + 2 + 8 + 8 + 4 + |f.token|
  }

  /** The printers agree on every token the first one accepts; the second one's Len is always right. */
  method PrintersAgree(r: Resume) returns (built: Outcome<Frame>, written: seq<byte>, len: nat)
    ensures written == Encode(r) && len == |written|
    ensures built == Returns(written) <==> |r.token| <= 65535
  {
    built := NewResumeFrame(r);
    var w := new Writer();
    len := WriteTo(NewWriteable(r), w);
    written := w.contents;
  }

  // The accessors

  predicate Valid(frame: Frame) {
    |Body(frame)| >= 22
  }

  function TokenLength(frame: Frame): Outcome<uint16> {
    U16At(Body(frame), 4)
  }

  function Token(frame: Frame): Outcome<seq<byte>> {
    var n :- TokenLength(frame);
    Slice(Body(frame), 6, Offset(6, n))
  }

  function U64At(raw: seq<byte>, i: nat): Outcome<uint64> {
    if i + 8 <= |raw| then Returns(ReadU64(raw[i..])) else Panics
  }

  /** Sums of 16-bit numbers wrap around. */
  function Offset(k: nat, n: uint16): uint16 {
    (k + n) % 0x1_0000
  }

  function LastReceived(frame: Frame): Outcome<uint64> {
    var n :- TokenLength(frame);
    U64At(Body(frame), Offset(6, n))
  }

  function FirstAvailable(frame: Frame): Outcome<uint64> {
    var n :- TokenLength(frame);
    U64At(Body(frame), Offset(6 + 8, n))
  }

  // What they recover

  lemma EncodedParts(r: Resume)
    ensures var f := Encode(r);
            StreamID(f) == 0 && Type(f) == RESUME && FlagsOf(f) == NO_FLAGS && Body(f) == Fields(r)
  {
    HeaderRoundTrip(0, RESUME, NO_FLAGS, Fields(r));
  }

  /** The version, the length field, and what starts at offset 6. */
  lemma FixedParts(r: Resume)
    ensures VersionOf(Encode(r)) == Returns(r.version)
    ensures TokenLength(Encode(r)) == Returns(|r.token| % 0x1_0000)
    ensures |Body(Encode(r))| == 22 + |r.token|
    ensures Body(Encode(r))[6..] == r.token + Positions(PutU64(r.lastReceived), PutU64(r.firstAvailable))
  {
    EncodedParts(r);
    var raw, n := Body(Encode(r)), PutU16(|r.token| % 0x1_0000);
    var positions := Positions(PutU64(r.lastReceived), PutU64(r.firstAvailable));
    PartsAt(raw, VersionBytes(r.version), n, r.token, positions);
    VersionRead(r.version, n + (r.token + positions));
    ReadU16Prefix(n, r.token + positions);
  }

  /** Where the parts of a body lie. */
  lemma PartsAt(raw: seq<byte>, v: seq<byte>, n: seq<byte>, t: seq<byte>, p: seq<byte>)
    requires raw == v + (n + t) + p && |v| == 4 && |n| == 2
    ensures raw == v + (n + (t + p))
    ensures raw[4..] == n + (t + p) && raw[6..] == t + p
  {
  }

  /** The token is read back exactly up to 65529 bytes. */
  lemma TokenExactly(r: Resume)
    ensures Token(Encode(r)) == Returns(r.token) <==> |r.token| <= 65529
  {
    FixedParts(r);
    WrappedSlice(Body(Encode(r)), r.token, Positions(PutU64(r.lastReceived), PutU64(r.firstAvailable)));
  }

  lemma WrappedSlice(raw: seq<byte>, token: seq<byte>, rest: seq<byte>)
    requires |raw| >= 6 && raw[6..] == token + rest
    ensures Slice(raw, 6, Wrapped(6, |token|)) == Returns(token) <==> |token| <= 65529
  {
    WrappedEnd(6, |token|);
    assert raw[6..6 + |token|] == raw[6..][..|token|];
  }

  /** An offset k bytes behind a token of n bytes, as the accessors compute it. */
  function Wrapped(k: nat, n: nat): uint16 {
    Offset(k, n % 0x1_0000)
  }

  /** Adding k bytes to a 16-bit length goes wrong exactly above 65535 - k, and then falls far short. */
  lemma WrappedEnd(k: nat, n: nat)
    requires k < 16
    ensures n <= 65535 - k ==> Wrapped(k, n) == k + n
    ensures n > 65535 - k ==> Wrapped(k, n) + 65536 <= k + n
  {
  }

  function BeforePositions(r: Resume): seq<byte> {
    VersionBytes(r.version) + TokenPart(r.token)
  }

  lemma ReadBefore(raw: seq<byte>, rest: seq<byte>, i: nat)
    requires i + 8 <= |raw|
    ensures U64At(raw + rest, i) == U64At(raw, i)
  {
    assert (raw + rest)[i..] == raw[i..] + rest;
    ReadU64Prefix(raw[i..], rest);
  }

  lemma ReadPositions(pre: seq<byte>, last: uint64, first: uint64)
    ensures U64At(pre + Positions(PutU64(last), PutU64(first)), |pre|) == Returns(last)
    ensures U64At(pre + Positions(PutU64(last), PutU64(first)), |pre| + 8) == Returns(first)
  {
    var raw := pre + Positions(PutU64(last), PutU64(first));
    PutReadU64(last);
    PutReadU64(first);
    assert raw[|pre|..] == PutU64(last) + PutU64(first);
    ReadU64Prefix(PutU64(last), PutU64(first));
    assert raw[|pre| + 8..] == PutU64(first);
  }

  /** A frame whose positions come after pre, which ends with a token of n bytes. */
  predicate Laid(frame: Frame, pre: seq<byte>, n: nat, last: uint64, first: uint64) {
    && Body(frame) == pre + Positions(PutU64(last), PutU64(first)) && |pre| == 6 + n
    && TokenLength(frame) == Returns(n % 0x1_0000)
  }

  lemma EncodedIsLaid(r: Resume)
    ensures Laid(Encode(r), BeforePositions(r), |r.token|, r.lastReceived, r.firstAvailable)
  {
    EncodedParts(r);
    FixedParts(r);
  }

  lemma LastReceivedIn(frame: Frame, pre: seq<byte>, n: nat, last: uint64, first: uint64)
    requires Laid(frame, pre, n, last, first)
    ensures n <= 65529 ==> LastReceived(frame) == Returns(last)
    ensures n > 65529 ==> LastReceived(frame) == U64At(pre, Wrapped(6, n))
  {
    WrappedEnd(6, n);
    if n <= 65529 {
      ReadPositions(pre, last, first);
    } else {
      ReadBefore(pre, Positions(PutU64(last), PutU64(first)), Wrapped(6, n));
    }
  }

  lemma FirstAvailableIn(frame: Frame, pre: seq<byte>, n: nat, last: uint64, first: uint64)
    requires Laid(frame, pre, n, last, first)
    ensures n <= 65521 ==> FirstAvailable(frame) == Returns(first)
    ensures n > 65521 ==> FirstAvailable(frame) == U64At(pre, Wrapped(14, n))
  {
    WrappedEnd(14, n);
    if n <= 65521 {
      assert FirstAvailable(frame) == U64At(Body(frame), |pre| + 8);
      ReadPositions(pre, last, first);
    } else {
      ReadBefore(pre, Positions(PutU64(last), PutU64(first)), Wrapped(14, n));
    }
  }

  lemma LastReceivedRead(r: Resume)
    ensures |r.token| <= 65529 ==> LastReceived(Encode(r)) == Returns(r.lastReceived)
    ensures |r.token| > 65529 ==> LastReceived(Encode(r)) == U64At(BeforePositions(r), Wrapped(6, |r.token|))
  {
    EncodedIsLaid(r);
    LastReceivedIn(Encode(r), BeforePositions(r), |r.token|, r.lastReceived, r.firstAvailable);
  }

  lemma FirstAvailableRead(r: Resume)
    ensures |r.token| <= 65521 ==> FirstAvailable(Encode(r)) == Returns(r.firstAvailable)
    ensures |r.token| > 65521 ==> FirstAvailable(Encode(r)) == U64At(BeforePositions(r), Wrapped(14, |r.token|))
  {
    EncodedIsLaid(r);
    FirstAvailableIn(Encode(r), BeforePositions(r), |r.token|, r.lastReceived, r.firstAvailable);
  }

  predicate LastReceivedRight(r: Resume) {
    LastReceived(Encode(r)) == Returns(r.lastReceived)
  }

  predicate FirstAvailableRight(r: Resume) {
    FirstAvailable(Encode(r)) == Returns(r.firstAvailable)
  }

  /** The last received position is read back, whatever it is, exactly up to a token of 65529 bytes. */
  lemma LastReceivedExactly(version: Version, token: seq<byte>, first: uint64)
    ensures (forall last: uint64 :: LastReceivedRight(Resume(version, token, first, last))) <==> |token| <= 65529
  {
    if |token| <= 65529 {
      forall last: uint64
        ensures LastReceivedRight(Resume(version, token, first, last))
      {
        LastReceivedRead(Resume(version, token, first, last));
      }
    } else {
      LastReceivedMixedUp(version, token, first, 0, 1);
    }
  }

  lemma LastReceivedMixedUp(version: Version, token: seq<byte>, first: uint64, last: uint64, other: uint64)
    requires |token| > 65529 && last != other
    ensures !LastReceivedRight(Resume(version, token, first, last))
          || !LastReceivedRight(Resume(version, token, first, other))
  {
    var r0, r1 := Resume(version, token, first, last), Resume(version, token, first, other);
    LastReceivedRead(r0);
    LastReceivedRead(r1);
    assert BeforePositions(r0) == BeforePositions(r1);
  }

  /** The first available position is read back, whatever it is, exactly up to a token of 65521 bytes. */
  lemma FirstAvailableExactly(version: Version, token: seq<byte>, last: uint64)
    ensures (forall first: uint64 :: FirstAvailableRight(Resume(version, token, first, last))) <==> |token| <= 65521
  {
    if |token| <= 65521 {
      forall first: uint64
        ensures FirstAvailableRight(Resume(version, token, first, last))
      {
        FirstAvailableRead(Resume(version, token, first, last));
      }
    } else {
      FirstAvailableMixedUp(version, token, last, 0, 1);
    }
  }

  lemma FirstAvailableMixedUp(version: Version, token: seq<byte>, last: uint64, first: uint64, other: uint64)
    requires |token| > 65521 && first != other
    ensures !FirstAvailableRight(Resume(version, token, first, last))
          || !FirstAvailableRight(Resume(version, token, other, last))
  {
    var r0, r1 := Resume(version, token, first, last), Resume(version, token, other, last);
    FirstAvailableRead(r0);
    FirstAvailableRead(r1);
    assert BeforePositions(r0) == BeforePositions(r1);
  }

  /** Up to 65521 bytes of token, every field of a RESUME frame comes back. */
  lemma RoundTrip(r: Resume)
    requires |r.token| <= 65521
    ensures var f := Encode(r);
            && Type(f) == RESUME && StreamID(f) == 0 && Valid(f)
            && VersionOf(f) == Returns(r.version) && Token(f) == Returns(r.token)
            && LastReceived(f) == Returns(r.lastReceived) && FirstAvailable(f) == Returns(r.firstAvailable)
  {
    EncodedParts(r);
    FixedParts(r);
    TokenExactly(r);
    LastReceivedRead(r);
    FirstAvailableRead(r);
  }

  // Which frames the accessors can read, whoever wrote them

  predicate TokenFits(frame: Frame) {
    && |Body(frame)| >= 6
    && ReadU16(Body(frame)[4..]) <= 65529 && 6 + ReadU16(Body(frame)[4..]) as int <= |Body(frame)|
  }

  /** Eight bytes can be read k bytes behind the length field's value, in 16 bits. */
  predicate PositionFits(frame: Frame, k: nat) {
    |Body(frame)| >= 6 && Offset(k, ReadU16(Body(frame)[4..])) + 8 <= |Body(frame)|
  }

  lemma TokenReturnsExactly(frame: Frame)
    ensures Token(frame).Returns? <==> TokenFits(frame)
  {
  }

  lemma LastReceivedReturnsExactly(frame: Frame)
    ensures LastReceived(frame).Returns? <==> PositionFits(frame, 6)
  {
  }

  lemma FirstAvailableReturnsExactly(frame: Frame)
    ensures FirstAvailable(frame).Returns? <==> PositionFits(frame, 14)
  {
  }

  ghost predicate AccessorsReturn(frame: Frame) {
    && VersionOf(frame).Returns? && Token(frame).Returns?
    && LastReceived(frame).Returns? && FirstAvailable(frame).Returns?
  }

  /**
   With a length field of n: token and last received position are there, within reach of 16 bits, and so
   is the first available position, unless its offset wraps around to the front of the frame.
   */
  predicate Holds(frame: Frame, n: uint16) {
    && n <= 65529 && 14 + n <= |Body(frame)|
    && (n <= 65521 ==> 22 + n <= |Body(frame)|)
  }

  /**
   Validation counts the bytes of a frame without a token: on a valid frame no accessor panics exactly if
   the frame holds what its length field promises.
   */
  lemma ValidIsTooWeak(frame: Frame)
    requires Valid(frame)
    ensures AccessorsReturn(frame) <==> Holds(frame, ReadU16(Body(frame)[4..]))
  {
    TokenReturnsExactly(frame);
    LastReceivedReturnsExactly(frame);
    FirstAvailableReturnsExactly(frame);
  }

  /** On any frame: if no accessor panics, validation passes. */
  lemma ReturningIsValid(frame: Frame)
    requires AccessorsReturn(frame)
    ensures Valid(frame)
  {
    TokenReturnsExactly(frame);
    FirstAvailableReturnsExactly(frame);
    assert ReadU16(Body(frame)[4..]) <= 65521 ==> PositionFits(frame, 14);
  }

  /** A frame of 22 bytes with a token of five passes validation, and lacks five bytes at the end. */
  lemma PassesAndPanics()
    ensures exists f: Frame :: Valid(f) && Type(f) == RESUME && Token(f).Returns? && FirstAvailable(f).Panics?
  {
    var body := [0, 1, 0, 0] + PutU16(5) + seq(16, i => 0);
    var f: Frame := Header(0, RESUME, NO_FLAGS) + body;
    HeaderRoundTrip(0, RESUME, NO_FLAGS, body);
    assert Body(f) == body;
    assert body[4..] == PutU16(5) + seq(16, i => 0);
    ReadU16Prefix(PutU16(5), seq(16, i => 0));
    assert Valid(f);
  }

  /** On the wire: version, token behind its length, last received and first available position. */
  lemma OnWire(r: Resume)
    requires |r.token| <= 65535
    ensures var f, at := Encode(r), 12 + |r.token|;
            && |f| == at + 16
            && f[6..8] == PutU16(r.version.major) && f[8..10] == PutU16(r.version.minor)
            && f[10..12] == PutU16(|r.token|) && f[12..at] == r.token
            && f[at..at + 8] == PutU64(r.lastReceived) && f[at + 8..] == PutU64(r.firstAvailable)
  {
    var last, first := PutU64(r.lastReceived), PutU64(r.firstAvailable);
    FieldsOnWire(r.version, r.token, last, first);
    BehindHeader(Header(0, RESUME, NO_FLAGS),
                 VersionBytes(r.version) + TokenPart(r.token) + Positions(last, first));
  }

  lemma BehindHeader(h: seq<byte>, fields: seq<byte>)
    requires |h| == 6
    ensures (h + fields)[6..] == fields
    ensures forall i, j :: 6 <= i <= j <= |h + fields| ==> (h + fields)[i..j] == fields[i - 6..j - 6]
  {
  }

  lemma FieldsOnWire(version: Version, token: seq<byte>, last: seq<byte>, first: seq<byte>)
    requires |token| <= 65535 && |last| == |first| == 8
    ensures var fs, at := VersionBytes(version) + TokenPart(token) + Positions(last, first), 6 + |token|;
            && |fs| == at + 16
            && fs[0..2] == PutU16(version.major) && fs[2..4] == PutU16(version.minor)
            && fs[4..6] == PutU16(|token|) && fs[6..at] == token
            && fs[at..at + 8] == last && fs[at + 8..] == first
  {
  }
}
