/**
 The splitter is optimal: no way of cutting the payload into frames that fit the mtu, metadata
 first, needs fewer frames. At every frame the greedy cut has sent at least as much.
 */
module SplitterOptimal {
  import opened Bytes
  import opened FrameHeader
  import opened Splitter

  /** The metadata and data bytes that some other splitter puts into a frame. */
  datatype Piece = Piece(m: nat, d: nat)

  function PieceSize(skip: int, idx: nat, p: Piece): int {
    HEADER_LEN + (if idx == 0 && skip > 0 then skip else 0) + (if p.m == 0 then 0 else 3 + p.m) + p.d
  }

  /** A frame that fits, and holds data only if it completes the metadata. */
  predicate Sends(mtu: int, skip: int, mlen: nat, dlen: nat, idx: nat, q1: nat, q2: nat, p: Piece) {
    && PieceSize(skip, idx, p) <= mtu && (p.d > 0 ==> q1 + p.m == mlen)
    && q1 + p.m <= mlen && q2 + p.d <= dlen
  }

  /**
   pieces cut what is left of a payload after q1 metadata and q2 data bytes, starting with frame
   idx: each fits the mtu, data comes only once all metadata is out, and nothing is left over.
   */
  predicate CutsFrom(mtu: int, skip: int, mlen: nat, dlen: nat, idx: nat, q1: nat, q2: nat, pieces: seq<Piece>)
    decreases |pieces|
  {
    if pieces == [] then q1 == mlen && q2 == dlen
    else
      && Sends(mtu, skip, mlen, dlen, idx, q1, q2, pieces[0])
      && CutsFrom(mtu, skip, mlen, dlen, idx + 1, q1 + pieces[0].m, q2 + pieces[0].d, pieces[1..])
  }

  /** The payload bytes in the first k frames. */
  function Sent(frames: seq<SplitResult>, k: nat): nat
    requires k <= |frames|
  {
    if k == 0 then 0 else |frames[0].metadata| + |frames[0].data| + Sent(frames[1..], k - 1)
  }

  function SentBy(pieces: seq<Piece>, k: nat): nat
    requires k <= |pieces|
  {
    if k == 0 then 0 else pieces[0].m + pieces[0].d + SentBy(pieces[1..], k - 1)
  }

  /** Metadata is out before data is begun. */
  predicate InOrder(mlen: nat, c1: nat, c2: nat) {
    c2 > 0 ==> c1 == mlen
  }

  /** The greedy cut has sent c1 and c2 bytes, the other one q1 and q2, which are not more. */
  predicate Ahead(mlen: nat, dlen: nat, c1: nat, c2: nat, q1: nat, q2: nat) {
    && c1 <= mlen && c2 <= dlen && InOrder(mlen, c1, c2)
    && q1 <= mlen && q2 <= dlen && InOrder(mlen, q1, q2)
    && q1 + q2 <= c1 + c2
  }

  /** One greedy frame keeps the lead. */
  lemma OneFrame(mtu: int, skip: int, mlen: nat, dlen: nat, idx: nat, c1: nat, c2: nat, q1: nat, q2: nat, p: Piece)
    requires Ahead(mlen, dlen, c1, c2, q1, q2) && Sends(mtu, skip, mlen, dlen, idx, q1, q2, p)
    ensures var room := Room(mtu, skip, idx, mlen, c1);
            Ahead(mlen, dlen, c1 + TakeMetadata(room, mlen, c1), c2 + TakeData(room, mlen, c1, dlen, c2),
                  q1 + p.m, q2 + p.d)
  {
  }

  /** The bytes sent after k more greedy frames, or all of them. */
  function GreedySent(mtu: int, skip: int, mlen: nat, dlen: nat, idx: nat, c1: nat, c2: nat, k: nat): nat
    requires c1 <= mlen && c2 <= dlen
    decreases k
  {
    if k == 0 then c1 + c2
    else
      var room := Room(mtu, skip, idx, mlen, c1);
      var e1, e2 := c1 + TakeMetadata(room, mlen, c1), c2 + TakeData(room, mlen, c1, dlen, c2);
      if e1 + e2 < mlen + dlen then GreedySent(mtu, skip, mlen, dlen, idx + 1, e1, e2, k - 1) else e1 + e2
  }

  lemma {:induction false} GreedyAhead(mtu: int, skip: int, mlen: nat, dlen: nat, idx: nat,
                                       c1: nat, c2: nat, q1: nat, q2: nat, pieces: seq<Piece>, k: nat)
    requires Ahead(mlen, dlen, c1, c2, q1, q2) && k <= |pieces|
    requires CutsFrom(mtu, skip, mlen, dlen, idx, q1, q2, pieces)
    ensures q1 + q2 + SentBy(pieces, k) <= GreedySent(mtu, skip, mlen, dlen, idx, c1, c2, k)
    decreases k
  {
    if k > 0 {
      var room := Room(mtu, skip, idx, mlen, c1);
      var e1, e2 := c1 + TakeMetadata(room, mlen, c1), c2 + TakeData(room, mlen, c1, dlen, c2);
      OneFrame(mtu, skip, mlen, dlen, idx, c1, c2, q1, q2, pieces[0]);
      if e1 + e2 < mlen + dlen {
        GreedyAhead(mtu, skip, mlen, dlen, idx + 1, e1, e2, q1 + pieces[0].m, q2 + pieces[0].d, pieces[1..], k - 1);
      } else {
        CutsAll(mtu, skip, mlen, dlen, idx, q1, q2, pieces, k);
      }
    }
  }

  lemma {:induction false} CutsAll(mtu: int, skip: int, mlen: nat, dlen: nat, idx: nat, q1: nat, q2: nat,
                                   pieces: seq<Piece>, k: nat)
    requires q1 <= mlen && q2 <= dlen && k <= |pieces|
    requires CutsFrom(mtu, skip, mlen, dlen, idx, q1, q2, pieces)
    ensures q1 + q2 + SentBy(pieces, k) <= mlen + dlen
    decreases k
  {
    if k > 0 {
      CutsAll(mtu, skip, mlen, dlen, idx + 1, q1 + pieces[0].m, q2 + pieces[0].d, pieces[1..], k - 1);
    }
  }

  /** The first frame and the others. */
  lemma SentFirst(mtu: int, skip: int, data: seq<byte>, metadata: seq<byte>, idx: nat, c1: nat, c2: nat,
                  e1: nat, e2: nat, k: nat)
    requires mtu >= MIN_FRAGMENT && c1 <= e1 <= |metadata| && c2 <= e2 <= |data|
    requires e1 == c1 + TakeMetadata(Room(mtu, skip, idx, |metadata|, c1), |metadata|, c1)
    requires e2 == c2 + TakeData(Room(mtu, skip, idx, |metadata|, c1), |metadata|, c1, |data|, c2)
    requires 0 < k <= |SplitFrom(mtu, skip, data, metadata, idx, c1, c2)|
    ensures e1 + e2 < |metadata| + |data| ==>
              && k - 1 <= |SplitFrom(mtu, skip, data, metadata, idx + 1, e1, e2)|
              && c1 + c2 + Sent(SplitFrom(mtu, skip, data, metadata, idx, c1, c2), k)
              == e1 + e2 + Sent(SplitFrom(mtu, skip, data, metadata, idx + 1, e1, e2), k - 1)
    ensures e1 + e2 >= |metadata| + |data| ==>
              c1 + c2 + Sent(SplitFrom(mtu, skip, data, metadata, idx, c1, c2), k) == e1 + e2
  {
    var rest := Round(mtu, skip, data, metadata, idx, c1, c2, e1, e2);
    SentCons(Fragment(data, metadata, c1, e1, c2, e2), rest, k);
  }

  /** One greedy frame, and what is sent after it. */
  lemma GreedyStep(mtu: int, skip: int, data: seq<byte>, metadata: seq<byte>, idx: nat, c1: nat, c2: nat, k: nat)
    returns (e1: nat, e2: nat)
    requires mtu >= MIN_FRAGMENT && c1 <= |metadata| && c2 <= |data|
    requires 0 < k <= |SplitFrom(mtu, skip, data, metadata, idx, c1, c2)|
    ensures e1 <= |metadata| && e2 <= |data|
    ensures if e1 + e2 < |metadata| + |data|
            then && k - 1 <= |SplitFrom(mtu, skip, data, metadata, idx + 1, e1, e2)|
                 && c1 + c2 + Sent(SplitFrom(mtu, skip, data, metadata, idx, c1, c2), k)
                 == e1 + e2 + Sent(SplitFrom(mtu, skip, data, metadata, idx + 1, e1, e2), k - 1)
                 && GreedySent(mtu, skip, |metadata|, |data|, idx, c1, c2, k)
                 == GreedySent(mtu, skip, |metadata|, |data|, idx + 1, e1, e2, k - 1)
            else c1 + c2 + Sent(SplitFrom(mtu, skip, data, metadata, idx, c1, c2), k)
                 == GreedySent(mtu, skip, |metadata|, |data|, idx, c1, c2, k)
  {
    var room := Room(mtu, skip, idx, |metadata|, c1);
    e1 := c1 + TakeMetadata(room, |metadata|, c1);
    e2 := c2 + TakeData(room, |metadata|, c1, |data|, c2);
    SentFirst(mtu, skip, data, metadata, idx, c1, c2, e1, e2, k);
  }

  lemma {:induction false} GreedySentIs(mtu: int, skip: int, data: seq<byte>, metadata: seq<byte>, idx: nat,
                                        c1: nat, c2: nat, k: nat)
    requires mtu >= MIN_FRAGMENT && c1 <= |metadata| && c2 <= |data|
    requires k <= |SplitFrom(mtu, skip, data, metadata, idx, c1, c2)|
    ensures c1 + c2 + Sent(SplitFrom(mtu, skip, data, metadata, idx, c1, c2), k)
         == GreedySent(mtu, skip, |metadata|, |data|, idx, c1, c2, k)
    decreases k
  {
    if k > 0 {
      var e1, e2 := GreedyStep(mtu, skip, data, metadata, idx, c1, c2, k);
      if e1 + e2 < |metadata| + |data| {
        GreedySentIs(mtu, skip, data, metadata, idx + 1, e1, e2, k - 1);
      }
    }
  }

  lemma {:induction false} SentCons(f: SplitResult, rest: seq<SplitResult>, k: nat)
    requires 0 < k <= 1 + |rest|
    ensures Sent([f] + rest, k) == |f.metadata| + |f.data| + Sent(rest, k - 1)
  {
    assert ([f] + rest)[1..] == rest;
  }

  /** One greedy frame against one of another cut, and the number of frames after it. */
  lemma LeadStep(mtu: int, skip: int, data: seq<byte>, metadata: seq<byte>, idx: nat,
                 c1: nat, c2: nat, q1: nat, q2: nat, p: Piece) returns (e1: nat, e2: nat)
    requires mtu >= MIN_FRAGMENT && Ahead(|metadata|, |data|, c1, c2, q1, q2)
    requires Sends(mtu, skip, |metadata|, |data|, idx, q1, q2, p)
    ensures Ahead(|metadata|, |data|, e1, e2, q1 + p.m, q2 + p.d)
    ensures |SplitFrom(mtu, skip, data, metadata, idx, c1, c2)|
         == 1 + if e1 + e2 < |metadata| + |data| then |SplitFrom(mtu, skip, data, metadata, idx + 1, e1, e2)| else 0
  {
    var room := Room(mtu, skip, idx, |metadata|, c1);
    e1 := c1 + TakeMetadata(room, |metadata|, c1);
    e2 := c2 + TakeData(room, |metadata|, c1, |data|, c2);
    OneFrame(mtu, skip, |metadata|, |data|, idx, c1, c2, q1, q2, p);
    var _ := Round(mtu, skip, data, metadata, idx, c1, c2, e1, e2);
  }

  lemma {:induction false} NoFewer(mtu: int, skip: int, data: seq<byte>, metadata: seq<byte>, idx: nat,
                                   c1: nat, c2: nat, q1: nat, q2: nat, pieces: seq<Piece>)
    requires mtu >= MIN_FRAGMENT && Ahead(|metadata|, |data|, c1, c2, q1, q2)
    requires pieces != [] && CutsFrom(mtu, skip, |metadata|, |data|, idx, q1, q2, pieces)
    ensures |SplitFrom(mtu, skip, data, metadata, idx, c1, c2)| <= |pieces|
    decreases |pieces|
  {
    var e1, e2 := LeadStep(mtu, skip, data, metadata, idx, c1, c2, q1, q2, pieces[0]);
    if e1 + e2 < |metadata| + |data| {
      NoFewer(mtu, skip, data, metadata, idx + 1, e1, e2, q1 + pieces[0].m, q2 + pieces[0].d, pieces[1..]);
    }
  }

  /** The splitter uses no more frames than any other cut, and is never behind it on the way. */
  lemma {:induction false} Optimal(mtu: int, skip: int, data: seq<byte>, metadata: seq<byte>, pieces: seq<Piece>)
    requires mtu >= MIN_FRAGMENT
    requires pieces != [] && CutsFrom(mtu, skip, |metadata|, |data|, 0, 0, 0, pieces)
    ensures |Split(mtu, skip, data, metadata)| <= |pieces|
    ensures forall k :: 0 <= k <= |Split(mtu, skip, data, metadata)| ==>
              SentBy(pieces, k) <= Sent(Split(mtu, skip, data, metadata), k)
  {
    NoFewer(mtu, skip, data, metadata, 0, 0, 0, 0, 0, pieces);
    forall k | 0 <= k <= |Split(mtu, skip, data, metadata)|
      ensures SentBy(pieces, k) <= Sent(Split(mtu, skip, data, metadata), k)
    {
      GreedySentIs(mtu, skip, data, metadata, 0, 0, 0, k);
      GreedyAhead(mtu, skip, |metadata|, |data|, 0, 0, 0, 0, 0, pieces, k);
    }
  }

  /** The bound is attained: the splitter's own fragments are one of the cuts it is compared with. */
  lemma {:induction false} GreedyIsACut(mtu: int, skip: int, data: seq<byte>, metadata: seq<byte>, idx: nat,
                                        c1: nat, c2: nat)
    returns (pieces: seq<Piece>)
    requires mtu >= MIN_FRAGMENT && c1 <= |metadata| && c2 <= |data| && mtu >= HEADER_LEN + skip
    ensures CutsFrom(mtu, skip, |metadata|, |data|, idx, c1, c2, pieces)
    ensures |pieces| == |SplitFrom(mtu, skip, data, metadata, idx, c1, c2)|
    decreases |metadata| - c1 + |data| - c2, if idx == 0 then 1 else 0
  {
    var e1, e2 := GreedyPiece(mtu, skip, data, metadata, idx, c1, c2);
    var p := Piece(e1 - c1, e2 - c2);
    var rest: seq<Piece> := [];
    if e1 + e2 < |metadata| + |data| {
      rest := GreedyIsACut(mtu, skip, data, metadata, idx + 1, e1, e2);
    }
    ConsCut(mtu, skip, |metadata|, |data|, idx, c1, c2, p, rest);
    pieces := [p] + rest;
  }

  /** One greedy frame is a frame of a cut. */
  lemma GreedyPiece(mtu: int, skip: int, data: seq<byte>, metadata: seq<byte>, idx: nat, c1: nat, c2: nat)
    returns (e1: nat, e2: nat)
    requires mtu >= MIN_FRAGMENT && c1 <= |metadata| && c2 <= |data| && mtu >= HEADER_LEN + skip
    ensures c1 <= e1 <= |metadata| && c2 <= e2 <= |data|
    ensures Sends(mtu, skip, |metadata|, |data|, idx, c1, c2, Piece(e1 - c1, e2 - c2))
    ensures |SplitFrom(mtu, skip, data, metadata, idx, c1, c2)|
         == 1 + if e1 + e2 < |metadata| + |data| then |SplitFrom(mtu, skip, data, metadata, idx + 1, e1, e2)| else 0
    ensures idx > 0 && c1 + c2 < |metadata| + |data| ==> c1 + c2 < e1 + e2
  {
    var room := Room(mtu, skip, idx, |metadata|, c1);
    e1 := c1 + TakeMetadata(room, |metadata|, c1);
    e2 := c2 + TakeData(room, |metadata|, c1, |data|, c2);
    var _ := Round(mtu, skip, data, metadata, idx, c1, c2, e1, e2);
  }

  lemma {:induction false} ConsCut(mtu: int, skip: int, mlen: nat, dlen: nat, idx: nat, q1: nat, q2: nat,
                                   p: Piece, pieces: seq<Piece>)
    requires Sends(mtu, skip, mlen, dlen, idx, q1, q2, p)
    ensures CutsFrom(mtu, skip, mlen, dlen, idx, q1, q2, [p] + pieces)
       <==> CutsFrom(mtu, skip, mlen, dlen, idx + 1, q1 + p.m, q2 + p.d, pieces)
  {
    assert ([p] + pieces)[1..] == pieces;
  }
}
