/** Bytes, big-endian integers and the growing buffer that frames are printed into. */
module Bytes {

  type byte = x: int | 0 <= x < 256
  type uint16 = x: int | 0 <= x < 0x1_0000
  type uint32 = x: int | 0 <= x < 0x1_0000_0000
  type uint64 = x: int | 0 <= x < 0x1_0000_0000_0000_0000

  const MAX_UINT24 := 16777215

  function PutU16(n: uint16): (bs: seq<byte>)
    ensures |bs| == 2 && ReadU16(bs) == n
  {
    [n / 256, n % 256]
  }

  function ReadU16(bs: seq<byte>): uint16
    requires |bs| >= 2
  {
    bs[0] as int * 256 + bs[1]
  }

  /** The three low bytes of n, most significant first; larger numbers are refused by the callers. */
  function PutU24(n: nat): (bs: seq<byte>)
    ensures |bs| == 3
    ensures n <= MAX_UINT24 ==> bs[0] as int * 65536 + bs[1] as int * 256 + bs[2] == n
    ensures n <= MAX_UINT24 ==> ReadU24(bs) == n
  {
    [n / 65536 % 256, n / 256 % 256, n % 256]
  }

  function ReadU24(bs: seq<byte>): (n: nat)
    requires |bs| >= 3
    ensures n == bs[0] as int * 65536 + bs[1] as int * 256 + bs[2] && n <= MAX_UINT24
  {
    bs[0] as int * 65536 + bs[1] as int * 256 + bs[2]
  }

  function PutU32(n: uint32): (bs: seq<byte>)
    ensures |bs| == 4 && ReadU32(bs) == n
  {
    var lo := PutU16(n % 65536);
    var bs := PutU16(n / 65536) + lo;
    assert bs[2..] == lo;
    bs
  }

  function ReadU32(bs: seq<byte>): uint32
    requires |bs| >= 4
  {
    ReadU16(bs) as int * 65536 + ReadU16(bs[2..])
  }

  function PutU64(n: uint64): (bs: seq<byte>)
    ensures |bs| == 8
  {
    PutU32(n / 0x1_0000_0000) + PutU32(n % 0x1_0000_0000)
  }

  function ReadU64(bs: seq<byte>): uint64
    requires |bs| >= 8
  {
    ReadU32(bs) as int * 0x1_0000_0000 + ReadU32(bs[4..])
  }

  // What is on the wire: the most significant byte comes first, in writing and in reading

  /** The number that these bytes spell, most significant byte first. */
  function Number(bs: seq<byte>): nat {
    if bs == [] then 0 else 256 * Number(bs[..|bs| - 1]) + bs[|bs| - 1]
  }

  lemma {:induction false} NumberSnoc(a: seq<byte>, x: byte)
    ensures Number(a + [x]) == 256 * Number(a) + x
  {
    assert (a + [x])[..|a|] == a;
  }

  lemma {:induction false} Number16(a: seq<byte>, b: seq<byte>)
    requires |b| == 2
    ensures Number(b) == 0x100 * b[0] as int + b[1]
    ensures Number(a + b) == 0x1_0000 * Number(a) + Number(b)
  {
    assert a + b == (a + [b[0]]) + [b[1]] && b == ([] + [b[0]]) + [b[1]];
    NumberSnoc(a, b[0]);
    NumberSnoc(a + [b[0]], b[1]);
    NumberSnoc([], b[0]);
    NumberSnoc([] + [b[0]], b[1]);
  }

  lemma {:induction false} Number32(a: seq<byte>, b: seq<byte>)
    requires |b| == 4
    ensures Number(b) == 0x1_0000 * Number(b[..2]) + Number(b[2..])
    ensures Number(a + b) == 0x1_0000_0000 * Number(a) + Number(b)
  {
    assert a + b == (a + b[..2]) + b[2..] && b == b[..2] + b[2..];
    Number16(a, b[..2]);
    Number16(a + b[..2], b[2..]);
    Number16(b[..2], b[2..]);
  }

  lemma {:induction false} BigEndian16(n: uint16, bs: seq<byte>)
    requires |bs| >= 2
    ensures Number(PutU16(n)) == n && ReadU16(bs) == Number(bs[..2])
  {
    Number16([], PutU16(n));
    Number16([], bs[..2]);
  }

  lemma {:induction false} BigEndian24(n: nat, bs: seq<byte>)
    requires n <= 0xFF_FFFF && |bs| >= 3
    ensures Number(PutU24(n)) == n && ReadU24(bs) == Number(bs[..3])
  {
    Number24(PutU24(n));
    Number24(bs[..3]);
  }

  lemma {:induction false} Number24(bs: seq<byte>)
    requires |bs| == 3
    ensures Number(bs) == bs[0] as int * 0x1_0000 + bs[1] as int * 0x100 + bs[2]
  {
    assert bs == bs[..2] + [bs[2]];
    Number16([], bs[..2]);
    NumberSnoc(bs[..2], bs[2]);
  }

  lemma {:induction false} BigEndian32(n: uint32, bs: seq<byte>)
    requires |bs| >= 4
    ensures Number(PutU32(n)) == n && ReadU32(bs) == Number(bs[..4])
  {
    Number16(PutU16(n / 0x1_0000), PutU16(n % 0x1_0000));
    BigEndian16(n / 0x1_0000, bs);
    BigEndian16(n % 0x1_0000, bs[2..]);
    Number32([], bs[..4]);
    assert bs[..4][..2] == bs[..2] && bs[..4][2..] == bs[2..][..2];
  }

  lemma {:induction false} BigEndian64(n: uint64, bs: seq<byte>)
    requires |bs| >= 8
    ensures Number(PutU64(n)) == n && ReadU64(bs) == Number(bs[..8])
  {
    Number32(PutU32(n / 0x1_0000_0000), PutU32(n % 0x1_0000_0000));
    BigEndian32(n / 0x1_0000_0000, bs);
    BigEndian32(n % 0x1_0000_0000, bs[4..]);
    Number32(bs[..4], bs[4..8]);
    assert bs[..4] + bs[4..8] == bs[..8] && bs[4..][..4] == bs[4..8];
  }

  lemma PutReadU64(n: uint64)
    ensures ReadU64(PutU64(n)) == n
  {
    var hi, lo := PutU32(n / 0x1_0000_0000), PutU32(n % 0x1_0000_0000);
    ReadU32Prefix(hi, lo);
    assert PutU64(n)[4..] == lo;
  }

  lemma ReadU16Prefix(bs: seq<byte>, rest: seq<byte>)
    requires |bs| >= 2
    ensures ReadU16(bs + rest) == ReadU16(bs)
  {
  }

  lemma ReadU24Prefix(bs: seq<byte>, rest: seq<byte>)
    requires |bs| >= 3
    ensures ReadU24(bs + rest) == ReadU24(bs)
  {
  }

  lemma ReadU32Prefix(bs: seq<byte>, rest: seq<byte>)
    requires |bs| >= 4
    ensures ReadU32(bs + rest) == ReadU32(bs)
  {
    assert (bs + rest)[2..] == bs[2..] + rest;
  }

  lemma ReadU64Prefix(bs: seq<byte>, rest: seq<byte>)
    requires |bs| >= 8
    ensures ReadU64(bs + rest) == ReadU64(bs)
  {
    ReadU32Prefix(bs, rest);
    assert (bs + rest)[4..] == bs[4..] + rest;
    ReadU32Prefix(bs[4..], rest);
  }

  /** A buffer or stream that frames are written to, piece by piece. */
  class Writer {
    var contents: seq<byte>

    constructor ()
      ensures contents == []
    {
      contents := [];
    }

    method Write(bs: seq<byte>) returns (n: nat)
      modifies this
      ensures contents == old(contents) + bs
      ensures n == |bs|
    {
      contents := contents + bs;
      n := |bs|;
    }
  }
}
