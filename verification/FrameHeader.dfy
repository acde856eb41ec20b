/** The six-byte frame header: a 32-bit stream id, a 6-bit type and 10 flag bits. */
module FrameHeader {
  import opened Bytes

  const HEADER_LEN := 6

  type FrameType = x: int | 0 <= x < 64

  const SETUP: FrameType := 0x01
  const LEASE: FrameType := 0x02
  const REQUEST_RESPONSE: FrameType := 0x04
  const REQUEST_FNF: FrameType := 0x05
  const REQUEST_STREAM: FrameType := 0x06
  const REQUEST_CHANNEL: FrameType := 0x07
  const PAYLOAD: FrameType := 0x0A
  const RESUME: FrameType := 0x0D

  /** The ten flag bits; Resume shares its bit with Follow, Lease with Complete. */
  datatype Flags = Flags(ignore: bool, metadata: bool, follow: bool, complete: bool, next: bool, low: Low)

  type Low = x: int | 0 <= x < 32

  const NO_FLAGS := Flags(false, false, false, false, false, 0)

  function Bit(b: bool, weight: nat): nat {
    if b then weight else 0
  }

  /** The five named bits, as a number below 32. */
  function Named(f: Flags): (n: nat)
    ensures n < 32
  {
    Bit(f.ignore, 16) + Bit(f.metadata, 8) + Bit(f.follow, 4) + Bit(f.complete, 2) + Bit(f.next, 1)
  }

  function ToBits(f: Flags): (n: nat)
    ensures n < 1024
  {
    32 * Named(f) + f.low
  }

  function FromBits(n: nat): Flags
    requires n < 1024
  {
    var t4 := n / 32;
    var t3 := t4 - Bit(t4 >= 16, 16);
    var t2 := t3 - Bit(t3 >= 8, 8);
    var t1 := t2 - Bit(t2 >= 4, 4);
    var t0 := t1 - Bit(t1 >= 2, 2);
    Flags(t4 >= 16, t3 >= 8, t2 >= 4, t1 >= 2, t0 >= 1, n % 32)
  }

  lemma FlagsRoundTrip(f: Flags)
    ensures FromBits(ToBits(f)) == f
  {
    assert ToBits(f) / 32 == Named(f) && ToBits(f) % 32 == f.low;
  }

  /** The masks of the program. */
  lemma FlagValues()
    ensures ToBits(NO_FLAGS.(next := true)) == 0x20 && ToBits(NO_FLAGS.(complete := true)) == 0x40
    ensures ToBits(NO_FLAGS.(follow := true)) == 0x80 && ToBits(NO_FLAGS.(metadata := true)) == 0x100
    ensures ToBits(NO_FLAGS.(ignore := true)) == 0x200
  {
  }

  lemma BitsRoundTrip(n: nat)
    requires n < 1024
    ensures ToBits(FromBits(n)) == n
  {
  }

  /** Written by NewFrameHeader, ResetFrameHeader and WriteFrameHeader alike. */
  function Header(sid: uint32, ty: FrameType, flags: Flags): (bs: seq<byte>)
    ensures |bs| == HEADER_LEN
  {
    PutU32(sid) + PutU16(ty as int * 1024 + ToBits(flags))
  }

  function StreamID(frame: seq<byte>): uint32
    requires |frame| >= HEADER_LEN
  {
    ReadU32(frame[..4])
  }

  function Type(frame: seq<byte>): FrameType
    requires |frame| >= HEADER_LEN
  {
    ReadU16(frame[4..6]) / 1024
  }

  function FlagsOf(frame: seq<byte>): Flags
    requires |frame| >= HEADER_LEN
  {
    FromBits(ReadU16(frame[4..6]) % 1024)
  }

  /** Every field of the header is recovered, whatever follows it. */
  lemma HeaderRoundTrip(sid: uint32, ty: FrameType, flags: Flags, body: seq<byte>)
    ensures StreamID(Header(sid, ty, flags) + body) == sid
    ensures Type(Header(sid, ty, flags) + body) == ty
    ensures FlagsOf(Header(sid, ty, flags) + body) == flags
  {
    var frame := Header(sid, ty, flags) + body;
    assert frame[..4] == PutU32(sid);
    assert frame[4..6] == PutU16(ty as int * 1024 + ToBits(flags));
    FlagsRoundTrip(flags);
  }

  /**
   The six bytes on the wire: the stream id, most significant byte first; the type in the upper six bits
   of the fifth byte; then the ten flag bits.
   */
  lemma {:induction false} HeaderOnWire(sid: uint32, ty: FrameType, flags: Flags)
    ensures var h := Header(sid, ty, flags);
            Number(h[..4]) == sid && h[4] == ty as int * 4 + ToBits(flags) / 256 && h[5] == ToBits(flags) % 256
  {
    BigEndian32(sid, PutU32(sid));
    assert Header(sid, ty, flags)[..4] == PutU32(sid);
    var n := ty as int * 1024 + ToBits(flags);
    assert PutU16(n) == [n / 256, n % 256];
  }

  /** The numbers of the types that are modelled. */
  lemma TypesOnWire()
    ensures SETUP == 0x01 && LEASE == 0x02 && REQUEST_RESPONSE == 0x04 && REQUEST_FNF == 0x05
    ensures REQUEST_STREAM == 0x06 && REQUEST_CHANNEL == 0x07 && PAYLOAD == 0x0A && RESUME == 0x0D
  {
  }

  /** Every six bytes are the header of what they decode to: the header encoding is a bijection. */
  lemma HeaderCovers(h: seq<byte>)
    requires |h| == HEADER_LEN
    ensures Header(StreamID(h), Type(h), FlagsOf(h)) == h
  {
    var n := ReadU16(h[4..6]);
    BitsRoundTrip(n % 1024);
    assert PutU16(n) == h[4..6];
    PutReadU32(h[..4]);
    assert h == h[..4] + h[4..6];
  }

  lemma PutReadU32(bs: seq<byte>)
    requires |bs| == 4
    ensures PutU32(ReadU32(bs)) == bs
  {
    var n := ReadU32(bs);
    assert n / 65536 == ReadU16(bs) && n % 65536 == ReadU16(bs[2..]);
    assert PutU16(ReadU16(bs)) == bs[..2];
    assert PutU16(ReadU16(bs[2..])) == bs[2..];
  }
}
