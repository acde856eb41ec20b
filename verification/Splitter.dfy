/**
 SplitSkip: cuts a payload into fragments, metadata first, each as large as the mtu allows.

 Split is the reference: fragment by fragment, the largest piece that fits. The method is the
 program's loop, which moves two cursors one byte at a time.
 */
module Splitter {
  import opened Bytes
  import opened FrameHeader

  const MIN_FRAGMENT := HEADER_LEN + 4
  const MAX_FRAGMENT := MAX_UINT24 - 3

  predicate IsValidFragment(mtu: int) {
    MIN_FRAGMENT <= mtu <= MAX_FRAGMENT
  }

  datatype SplitResult = SplitResult(flag: Flags, metadata: seq<byte>, data: seq<byte>)

  function Min(a: int, b: int): int {
    if a < b then a else b
  }

  function Max(a: int, b: int): int {
    if a < b then b else a
  }

  /** The payload bytes that fit into fragment number idx when c1 metadata bytes are already out. */
  function Room(mtu: int, skip: int, idx: nat, mlen: nat, c1: nat): nat {
    Max(0, mtu - HEADER_LEN - (if idx == 0 && skip > 0 then skip else 0) - (if c1 < mlen then 3 else 0))
  }

  /**
   The legal mtus are those from 10 to 16777212: every fragment but the first has room for a byte of
   metadata behind its length, and with three more bytes the frame's length fits its own field.
   */
  lemma ValidFragments(mtu: int, idx: nat, mlen: nat, c1: nat)
    requires idx > 0 && c1 < mlen
    ensures IsValidFragment(mtu) <==> 10 <= mtu <= 16777212
    ensures IsValidFragment(mtu) <==> Room(mtu, 0, idx, mlen, c1) >= 1 && mtu + 3 <= 0xFF_FFFF
  {
  }

  /** How much metadata and data go into a fragment with this room. */
  function TakeMetadata(room: nat, mlen: nat, c1: nat): nat
    requires c1 <= mlen
  {
    Min(room, mlen - c1)
  }

  function TakeData(room: nat, mlen: nat, c1: nat, dlen: nat, c2: nat): nat
    requires c1 <= mlen && c2 <= dlen
  {
    Min(room - TakeMetadata(room, mlen, c1), dlen - c2)
  }

  function Fragment(data: seq<byte>, metadata: seq<byte>, b1: nat, e1: nat, b2: nat, e2: nat): SplitResult
    requires b1 <= e1 <= |metadata| && b2 <= e2 <= |data|
  {
    SplitResult(NO_FLAGS.(follow := e1 + e2 < |metadata| + |data|, metadata := b1 < |metadata|),
                metadata[b1..e1], data[b2..e2])
  }

  /** The fragments from number idx on, when c1 metadata bytes and c2 data bytes are already out. */
  function SplitFrom(mtu: int, skip: int, data: seq<byte>, metadata: seq<byte>, idx: nat, c1: nat, c2: nat)
    : (frames: seq<SplitResult>)
    requires mtu >= MIN_FRAGMENT && c1 <= |metadata| && c2 <= |data|
    ensures |frames| > 0
    decreases |metadata| - c1 + |data| - c2, if idx == 0 then 1 else 0
  {
    var room := Room(mtu, skip, idx, |metadata|, c1);
    var e1 := c1 + TakeMetadata(room, |metadata|, c1);
    var e2 := c2 + TakeData(room, |metadata|, c1, |data|, c2);
    [Fragment(data, metadata, c1, e1, c2, e2)] +
    if e1 + e2 < |metadata| + |data| then SplitFrom(mtu, skip, data, metadata, idx + 1, e1, e2) else []
  }

  function Split(mtu: int, skip: int, data: seq<byte>, metadata: seq<byte>): seq<SplitResult>
    requires mtu >= MIN_FRAGMENT
  {
    SplitFrom(mtu, skip, data, metadata, 0, 0, 0)
  }

  /** The program's loop. The results are collected in the order of the onFrame calls. */
  method SplitSkip(mtu: int, skip: int, data: seq<byte>, metadata: seq<byte>) returns (frames: seq<SplitResult>)
    requires mtu >= MIN_FRAGMENT
    ensures frames == Split(mtu, skip, data, metadata)
  {
    var mlen, dlen := |metadata|, |data|;
    var idx: nat, cursor1: nat, cursor2: nat := 0, 0, 0;
    frames := [];
    ghost var all := Split(mtu, skip, data, metadata);
    ghost var rest := all;
    while true
      invariant cursor1 <= mlen && cursor2 <= dlen
      invariant idx > 0 ==> cursor1 + cursor2 < mlen + dlen
      invariant rest == SplitFrom(mtu, skip, data, metadata, idx, cursor1, cursor2)
      invariant frames + rest == all
      decreases mlen - cursor1 + dlen - cursor2, if idx == 0 then 1 else 0
    {
      ghost var begin1, begin2 := cursor1, cursor2;
      var result, follow;
      cursor1, cursor2, result, follow := NextFragment(mtu, skip, data, metadata, idx, cursor1, cursor2);
      rest := Round(mtu, skip, data, metadata, idx, begin1, begin2, cursor1, cursor2);
      Collect(frames, result, rest);
      frames := frames + [result];
      if !follow {
        break;
      }
      idx := idx + 1;
    }
  }

  lemma Collect(frames: seq<SplitResult>, result: SplitResult, rest: seq<SplitResult>)
    ensures frames + ([result] + rest) == (frames + [result]) + rest
    ensures rest == [] ==> (frames + [result]) + rest == frames + [result]
  {
  }

  /** One round of the loop, up to the onFrame call. */
  method NextFragment(mtu: int, skip: int, data: seq<byte>, metadata: seq<byte>, idx: nat, begin1: nat, begin2: nat)
    returns (cursor1: nat, cursor2: nat, result: SplitResult, follow: bool)
    requires mtu >= MIN_FRAGMENT && begin1 <= |metadata| && begin2 <= |data|
    ensures cursor1 == begin1 + TakeMetadata(Room(mtu, skip, idx, |metadata|, begin1), |metadata|, begin1)
    ensures cursor2 == begin2 + TakeData(Room(mtu, skip, idx, |metadata|, begin1), |metadata|, begin1, |data|, begin2)
    ensures result == Fragment(data, metadata, begin1, cursor1, begin2, cursor2)
    ensures follow <==> cursor1 + cursor2 < |metadata| + |data|
  {
    var mlen, dlen := |metadata|, |data|;
    var left := mtu - HEADER_LEN;
    if idx == 0 && skip > 0 {
      left := left - skip;
    }
    var hasMetadata := begin1 < mlen;
    if hasMetadata {
      left := left - 3;
    }
    cursor1, cursor2 := Fill(left, mlen, dlen, begin1, begin2);
    follow := cursor1 + cursor2 < mlen + dlen;
    var flag := NO_FLAGS;
    if follow {
      flag := flag.(follow := true);
    }
    if hasMetadata {
      flag := flag.(metadata := true);
    }
    result := SplitResult(flag, metadata[begin1..cursor1], data[begin2..cursor2]);
  }

  /** One round of the loop emits the next fragment of the reference, and leaves the rest of it. */
  lemma Round(mtu: int, skip: int, data: seq<byte>, metadata: seq<byte>, idx: nat, c1: nat, c2: nat, e1: nat, e2: nat)
    returns (rest: seq<SplitResult>)
    requires mtu >= MIN_FRAGMENT && c1 <= |metadata| && c2 <= |data|
    requires e1 == c1 + TakeMetadata(Room(mtu, skip, idx, |metadata|, c1), |metadata|, c1)
    requires e2 == c2 + TakeData(Room(mtu, skip, idx, |metadata|, c1), |metadata|, c1, |data|, c2)
    ensures SplitFrom(mtu, skip, data, metadata, idx, c1, c2) == [Fragment(data, metadata, c1, e1, c2, e2)] + rest
    ensures if e1 + e2 < |metadata| + |data| then rest == SplitFrom(mtu, skip, data, metadata, idx + 1, e1, e2)
            else rest == []
    ensures idx > 0 && c1 + c2 < |metadata| + |data| ==> c1 + c2 < e1 + e2
  {
    rest := if e1 + e2 < |metadata| + |data| then SplitFrom(mtu, skip, data, metadata, idx + 1, e1, e2) else [];
  }

  /** The inner loop: hands out left bytes one at a time, metadata first. */
  method Fill(left: int, mlen: nat, dlen: nat, begin1: nat, begin2: nat) returns (cursor1: nat, cursor2: nat)
    requires begin1 <= mlen && begin2 <= dlen
    ensures cursor1 == begin1 + TakeMetadata(Max(0, left), mlen, begin1)
    ensures cursor2 == begin2 + TakeData(Max(0, left), mlen, begin1, dlen, begin2)
  {
    cursor1, cursor2 := begin1, begin2;
    var wrote := 0;
    while wrote < left
      invariant 0 <= wrote <= Max(0, left)
      invariant cursor1 == begin1 + TakeMetadata(wrote, mlen, begin1)
      invariant cursor2 == begin2 + TakeData(wrote, mlen, begin1, dlen, begin2)
    {
      if cursor1 < mlen {
        cursor1 := cursor1 + 1;
      } else if cursor2 < dlen {
        cursor2 := cursor2 + 1;
      }
      wrote := wrote + 1;
    }
  }

  // What the fragments are

  function AllMetadata(frames: seq<SplitResult>): seq<byte> {
    if frames == [] then [] else frames[0].metadata + AllMetadata(frames[1..])
  }

  function AllData(frames: seq<SplitResult>): seq<byte> {
    if frames == [] then [] else frames[0].data + AllData(frames[1..])
  }

  /** Nothing is lost, duplicated or reordered. */
  lemma {:induction false} SplitKeepsPayload(mtu: int, skip: int, data: seq<byte>, metadata: seq<byte>,
                                             idx: nat, c1: nat, c2: nat)
    requires mtu >= MIN_FRAGMENT && c1 <= |metadata| && c2 <= |data|
    ensures AllMetadata(SplitFrom(mtu, skip, data, metadata, idx, c1, c2)) == metadata[c1..]
    ensures AllData(SplitFrom(mtu, skip, data, metadata, idx, c1, c2)) == data[c2..]
    decreases |metadata| - c1 + |data| - c2, if idx == 0 then 1 else 0
  {
    var room := Room(mtu, skip, idx, |metadata|, c1);
    var e1 := c1 + TakeMetadata(room, |metadata|, c1);
    var e2 := c2 + TakeData(room, |metadata|, c1, |data|, c2);
    var rest := Round(mtu, skip, data, metadata, idx, c1, c2, e1, e2);
    AllCons(Fragment(data, metadata, c1, e1, c2, e2), rest);
    CutAt(metadata, c1, e1);
    CutAt(data, c2, e2);
    if e1 + e2 < |metadata| + |data| {
      SplitKeepsPayload(mtu, skip, data, metadata, idx + 1, e1, e2);
    }
  }

  lemma {:induction false} AllCons(f: SplitResult, rest: seq<SplitResult>)
    ensures AllMetadata([f] + rest) == f.metadata + AllMetadata(rest)
    ensures AllData([f] + rest) == f.data + AllData(rest)
  {
    assert ([f] + rest)[1..] == rest;
  }

  lemma CutAt(bs: seq<byte>, i: nat, j: nat)
    requires i <= j <= |bs|
    ensures bs[i..j] + bs[j..] == bs[i..]
    ensures j == |bs| ==> bs[i..j] + [] == bs[i..]
  {
  }

  /** No flags but Follow and Metadata. */
  predicate Plain(flag: Flags) {
    flag == NO_FLAGS.(follow := flag.follow, metadata := flag.metadata)
  }

  lemma {:induction false} SplitPlain(mtu: int, skip: int, data: seq<byte>, metadata: seq<byte>, idx: nat,
                                      c1: nat, c2: nat)
    requires mtu >= MIN_FRAGMENT && c1 <= |metadata| && c2 <= |data|
    ensures forall f :: f in SplitFrom(mtu, skip, data, metadata, idx, c1, c2) ==> Plain(f.flag)
    decreases |metadata| - c1 + |data| - c2, if idx == 0 then 1 else 0
  {
    var room := Room(mtu, skip, idx, |metadata|, c1);
    var e1 := c1 + TakeMetadata(room, |metadata|, c1);
    var e2 := c2 + TakeData(room, |metadata|, c1, |data|, c2);
    if e1 + e2 < |metadata| + |data| {
      SplitPlain(mtu, skip, data, metadata, idx + 1, e1, e2);
    }
  }

  /** The number of bytes of an encoded fragment; fragment 0 may carry skip bytes of fixed fields. */
  function EncodedSize(skip: int, idx: nat, f: SplitResult): int {
    HEADER_LEN + (if idx == 0 && skip > 0 then skip else 0)
    + (if f.metadata == [] then 0 else 3 + |f.metadata|) + |f.data|
  }

  /** The first fragment has room for its fixed fields and for some metadata if there is any. */
  predicate FirstFits(mtu: int, skip: int, metadata: seq<byte>) {
    metadata != [] ==> mtu >= MIN_FRAGMENT + Max(0, skip)
  }

  /** Follow on all but the last; Metadata exactly while metadata is left, and then with some of it. */
  predicate WellFlagged(frames: seq<SplitResult>) {
    forall i :: 0 <= i < |frames| ==>
      && (frames[i].flag.follow <==> i < |frames| - 1)
      && (frames[i].flag.metadata <==> frames[i].metadata != [])
      && Plain(frames[i].flag)
  }

  /** Metadata never resumes once it has stopped. */
  predicate MetadataFirst(frames: seq<SplitResult>) {
    forall i, j :: 0 <= i < j < |frames| && frames[i].metadata == [] ==> frames[j].metadata == []
  }

  predicate SizesOk(mtu: int, skip: int, frames: seq<SplitResult>, idx: nat) {
    forall i :: 0 <= i < |frames| ==>
      && EncodedSize(skip, idx + i, frames[i]) <= mtu
      && (i < |frames| - 1 ==> EncodedSize(skip, idx + i, frames[i]) == mtu)
  }

  lemma {:induction false} SplitShape(mtu: int, skip: int, data: seq<byte>, metadata: seq<byte>, idx: nat,
                                      c1: nat, c2: nat)
    requires mtu >= MIN_FRAGMENT && c1 <= |metadata| && c2 <= |data|
    requires idx == 0 ==> FirstFits(mtu, skip, metadata[c1..]) && mtu >= HEADER_LEN + skip
    ensures WellFlagged(SplitFrom(mtu, skip, data, metadata, idx, c1, c2))
    ensures MetadataFirst(SplitFrom(mtu, skip, data, metadata, idx, c1, c2))
    ensures SizesOk(mtu, skip, SplitFrom(mtu, skip, data, metadata, idx, c1, c2), idx)
    ensures c1 == |metadata| ==> forall f :: f in SplitFrom(mtu, skip, data, metadata, idx, c1, c2) ==> f.metadata == []
    decreases |metadata| - c1 + |data| - c2, if idx == 0 then 1 else 0
  {
    var room := Room(mtu, skip, idx, |metadata|, c1);
    var e1 := c1 + TakeMetadata(room, |metadata|, c1);
    var e2 := c2 + TakeData(room, |metadata|, c1, |data|, c2);
    var frames := SplitFrom(mtu, skip, data, metadata, idx, c1, c2);
    assert frames[0] == Fragment(data, metadata, c1, e1, c2, e2);
    if e1 + e2 < |metadata| + |data| {
      var rest := SplitFrom(mtu, skip, data, metadata, idx + 1, e1, e2);
      assert frames[1..] == rest;
      SplitShape(mtu, skip, data, metadata, idx + 1, e1, e2);
      ShapeCons(mtu, skip, frames, idx);
    }
  }

  lemma ShapeCons(mtu: int, skip: int, frames: seq<SplitResult>, idx: nat)
    requires |frames| > 1
    requires WellFlagged(frames[1..]) && MetadataFirst(frames[1..]) && SizesOk(mtu, skip, frames[1..], idx + 1)
    requires frames[0].flag.follow && (frames[0].flag.metadata <==> frames[0].metadata != [])
    requires Plain(frames[0].flag)
    requires frames[0].metadata == [] ==> forall f :: f in frames[1..] ==> f.metadata == []
    requires EncodedSize(skip, idx, frames[0]) == mtu
    ensures WellFlagged(frames) && MetadataFirst(frames) && SizesOk(mtu, skip, frames, idx)
  {
    var rest := frames[1..];
    forall i | 1 <= i < |frames|
      ensures frames[i] == rest[i-1]
    {
    }
  }

  /**
   For a valid mtu the fragments together are the payload, each fits the mtu and all but the last
   fill it, Follow is on all but the last, and the Metadata flag is on exactly the fragments that
   hold metadata, which come first.
   */
  lemma SplitCorrect(mtu: int, skip: int, data: seq<byte>, metadata: seq<byte>)
    requires mtu >= MIN_FRAGMENT && FirstFits(mtu, skip, metadata) && mtu >= HEADER_LEN + skip
    ensures var frames := Split(mtu, skip, data, metadata);
            && AllMetadata(frames) == metadata && AllData(frames) == data
            && WellFlagged(frames) && MetadataFirst(frames) && SizesOk(mtu, skip, frames, 0)
  {
    assert metadata[0..] == metadata && data[0..] == data;
    SplitKeepsPayload(mtu, skip, data, metadata, 0, 0, 0);
    SplitShape(mtu, skip, data, metadata, 0, 0, 0);
  }

  /**
   The bound is exact: when it fails, the first fragment claims metadata and holds none, which is
   how a request frame with metadata and an mtu from 10 to 13 is cut.
   */
  lemma FirstFragmentFits(mtu: int, skip: int, data: seq<byte>, metadata: seq<byte>)
    requires mtu >= MIN_FRAGMENT
    ensures var first := Split(mtu, skip, data, metadata)[0];
            (first.flag.metadata <==> first.metadata != []) <==> FirstFits(mtu, skip, metadata)
  {
  }
}
