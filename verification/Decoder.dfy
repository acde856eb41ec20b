/**
 Framing on a byte stream: every frame is preceded by its length in three bytes, and the receiver
 cuts frames out of a buffer that grows as chunks arrive.
 */
module Decoder {
  import opened Bytes
  import opened FrameHeader

  const LENGTH_FIELD_SIZE := 3
  const MAX_BUFF_SIZE := 16 * 1024 * 1024 + LENGTH_FIELD_SIZE

  datatype SplitOutcome = More | Token(token: seq<byte>) | InvalidLength

  /** doSplit; a token is also how far the scanner advances. */
  function DoSplit(data: seq<byte>, eof: bool): SplitOutcome {
    if eof || |data| < LENGTH_FIELD_SIZE then More
    else if ReadU24(data) < 1 then InvalidLength
    else
      var frameSize := ReadU24(data) + LENGTH_FIELD_SIZE;
      if frameSize <= |data| then Token(data[..frameSize]) else More
  }

  /** A buffer without a complete frame is never full, so the scanner's size limit is not met. */
  lemma BufferSuffices(data: seq<byte>)
    requires DoSplit(data, false).More?
    ensures |data| < MAX_BUFF_SIZE == 16_777_219
  {
  }

  // One pass over the whole stream

  /** The size of the complete frame at the front, length field included; 0 if there is none. */
  function TokenSize(data: seq<byte>): (n: nat)
    ensures n == 0 || LENGTH_FIELD_SIZE < n <= |data|
  {
    match DoSplit(data, false)
    case Token(token) => |token|
    case _ => 0
  }

  /** The tokens of a stream, in order. */
  function Tokens(stream: seq<byte>): seq<seq<byte>>
    decreases |stream|
  {
    var n := TokenSize(stream);
    if n == 0 then [] else [stream[..n]] + Tokens(stream[n..])
  }

  /** The bytes after the last token. */
  function Rest(stream: seq<byte>): seq<byte>
    decreases |stream|
  {
    var n := TokenSize(stream);
    if n == 0 then stream else Rest(stream[n..])
  }

  /** Cutting has stopped at a length field of zero. */
  predicate Bad(stream: seq<byte>) {
    DoSplit(Rest(stream), false).InvalidLength?
  }

  /** Once decided, the outcome for a buffer does not change when more bytes arrive. */
  lemma SplitStable(data: seq<byte>, more: seq<byte>)
    ensures !DoSplit(data, false).More? ==> DoSplit(data + more, false) == DoSplit(data, false)
  {
    if |data| >= LENGTH_FIELD_SIZE {
      ReadU24Prefix(data, more);
      if ReadU24(data) >= 1 && ReadU24(data) + LENGTH_FIELD_SIZE <= |data| {
        assert (data + more)[..ReadU24(data) + LENGTH_FIELD_SIZE] == data[..ReadU24(data) + LENGTH_FIELD_SIZE];
      }
    }
  }

  lemma TokenStable(a: seq<byte>, b: seq<byte>)
    requires TokenSize(a) > 0
    ensures TokenSize(a + b) == TokenSize(a)
    ensures (a + b)[..TokenSize(a)] == a[..TokenSize(a)]
    ensures (a + b)[TokenSize(a)..] == a[TokenSize(a)..] + b
  {
    SplitStable(a, b);
  }

  /** Cutting a stream is cutting a prefix of it and then going on from what the prefix left over. */
  lemma {:induction false} TokensAppend(a: seq<byte>, b: seq<byte>)
    ensures Tokens(a + b) == Tokens(a) + Tokens(Rest(a) + b)
    ensures Rest(a + b) == Rest(Rest(a) + b)
    decreases |a|
  {
    var n := TokenSize(a);
    if n > 0 {
      TokenStable(a, b);
      TokensAppend(a[n..], b);
      assert Tokens(a + b) == [a[..n]] + Tokens(a[n..] + b);
      assert Tokens(a) == [a[..n]] + Tokens(a[n..]);
    }
  }

  /** After a zero length nothing more is cut, whatever arrives. */
  lemma {:induction false} BadStaysBad(a: seq<byte>, b: seq<byte>)
    requires Bad(a)
    ensures Bad(a + b) && Tokens(a + b) == Tokens(a)
  {
    TokensAppend(a, b);
    SplitStable(Rest(a), b);
    assert Tokens(Rest(a) + b) == [];
  }

  /** An error is a length field of three zero bytes, and nothing else. */
  lemma {:induction false} InvalidExactly(data: seq<byte>)
    ensures DoSplit(data, false).InvalidLength? <==> |data| >= 3 && data[..3] == [0, 0, 0]
    ensures Bad(data) <==> |Rest(data)| >= 3 && Rest(data)[..3] == [0, 0, 0]
  {
    if |data| >= 3 {
      ZeroLength(data);
    }
    if |Rest(data)| >= 3 {
      ZeroLength(Rest(data));
    }
  }

  lemma ZeroLength(data: seq<byte>)
    requires |data| >= 3
    ensures ReadU24(data) < 1 <==> data[..3] == [0, 0, 0]
  {
  }

  // The scanner, reading chunk by chunk

  function Flatten(chunks: seq<seq<byte>>): seq<byte> {
    if chunks == [] then [] else chunks[0] + Flatten(chunks[1..])
  }

  lemma {:induction false} TakeToken(done: seq<seq<byte>>, ahead: seq<byte>, token: seq<byte>, rest: seq<byte>)
    requires ahead == token + rest && |token| == TokenSize(ahead) > 0
    ensures done + Tokens(ahead) == (done + [token]) + Tokens(rest)
    ensures Bad(ahead) <==> Bad(rest)
  {
    assert ahead[..|token|] == token && ahead[|token|..] == rest;
  }

  class Scanner {
    var buf: seq<byte>          // received and not consumed
    var chunks: seq<seq<byte>>  // what the connection will still deliver, read by read
    var last: seq<byte>         // what arrives in the same read as the end of the stream
    var stopped: bool           // the end of the stream or an error has been met

    constructor (chunks: seq<seq<byte>>, last: seq<byte>)
      ensures Ahead() == Flatten(chunks) && this.last == last && !stopped
    {
      buf := [];
      this.chunks := chunks;
      this.last := last;
      stopped := false;
    }

    /** Everything that is still to be cut, up to the read that ends the stream. */
    ghost function Ahead(): seq<byte>
      reads this
    {
      buf + Flatten(chunks)
    }

    /** Scan: the next token, or false at the end of the stream or after an error. */
    method Scan() returns (more: bool, token: seq<byte>, err: bool)
      requires !stopped
      modifies this
      ensures last == old(last) && stopped == !more
      ensures more ==> |token| == TokenSize(old(Ahead())) > 0 && old(Ahead()) == token + Ahead()
      ensures !more ==> TokenSize(old(Ahead())) == 0
      ensures !more && !err ==> buf == old(Ahead()) + last
      ensures err <==> !more && Bad(old(Ahead()))
    {
      while true
        invariant Ahead() == old(Ahead()) && last == old(last) && !stopped
        decreases |chunks|
      {
        var outcome := DoSplit(buf, false);
        SplitStable(buf, Flatten(chunks));
        match outcome {
          case Token(t) =>
            assert buf + Flatten(chunks) == t + (buf[|t|..] + Flatten(chunks));
            buf := buf[|t|..];
            return true, t, false;
          case InvalidLength =>
            stopped := true;
            return false, [], true;
          case More =>
            if chunks == [] {
              assert buf + Flatten(chunks) == buf;
              buf := buf + last;
              var final := DoSplit(buf, true);
              stopped := final.More?;
              return !final.More?, [], final.InvalidLength?;
            }
            assert buf + Flatten(chunks) == (buf + chunks[0]) + Flatten(chunks[1..]);
            buf := buf + chunks[0];
            chunks := chunks[1..];
        }
      }
    }

    /** Read, until it fails: the frames without their length fields, and the error. */
    method ReadAll() returns (frames: seq<seq<byte>>, err: ReadError)
      requires !stopped
      modifies this
      ensures frames == UpToShort(Frames(Tokens(old(Ahead()))))
      ensures err == ErrorAfter(old(Ahead())) && last == old(last)
    {
      frames, err := [], EndOfFile;
      ghost var all, done, left := Tokens(Ahead()), [], Tokens(Ahead());
      while true
        invariant frames == Frames(done) && !HasShort(frames) && all == done + left
        invariant !stopped && left == Tokens(Ahead()) && last == old(last)
        invariant Bad(old(Ahead())) == Bad(Ahead())
        decreases |Ahead()|
      {
        ghost var ahead := Ahead();
        var more, token, failed := Scan();
        if !more {
          assert done + left == done;
          UpToShortAppend(frames, []);
          assert frames + [] == frames;
          return frames, if failed then InvalidFrameLength else EndOfFile;
        }
        var raw := token[LENGTH_FIELD_SIZE..];
        TakeToken(done, ahead, token, Ahead());
        FramesConcat(done + [token], Tokens(Ahead()));
        FramesAppend(done, token);
        if |raw| < HEADER_LEN {
          ShortEnds(frames, raw, Frames(Tokens(Ahead())));
          return frames, IncompleteHeader;
        }
        StillLong(frames, raw);
        frames := frames + [raw];
        done, left := done + [token], Tokens(Ahead());
      }
    }
  }

  datatype ReadError = EndOfFile | InvalidFrameLength | IncompleteHeader

  predicate HasShort(frames: seq<seq<byte>>) {
    frames != [] && (|frames[0]| < HEADER_LEN || HasShort(frames[1..]))
  }

  lemma {:induction false} HasShortExactly(frames: seq<seq<byte>>)
    ensures HasShort(frames) <==> exists i :: 0 <= i < |frames| && |frames[i]| < HEADER_LEN
    decreases |frames|
  {
    if frames != [] {
      HasShortExactly(frames[1..]);
      assert forall i :: 0 < i < |frames| ==> frames[1..][i - 1] == frames[i];
    }
  }

  /** The frames before the first that is shorter than a header. */
  function UpToShort(frames: seq<seq<byte>>): seq<seq<byte>> {
    if frames == [] || |frames[0]| < HEADER_LEN then [] else [frames[0]] + UpToShort(frames[1..])
  }

  /** What reading a stream ends with. */
  ghost function ErrorAfter(stream: seq<byte>): ReadError {
    if HasShort(Frames(Tokens(stream))) then IncompleteHeader
    else if Bad(stream) then InvalidFrameLength
    else EndOfFile
  }

  lemma {:induction false} UpToShortAppend(a: seq<seq<byte>>, b: seq<seq<byte>>)
    ensures UpToShort(a + b) == if HasShort(a) then UpToShort(a) else a + UpToShort(b)
    ensures HasShort(a + b) <==> HasShort(a) || HasShort(b)
    decreases |a|
  {
    if a == [] {
      assert a + b == b;
    } else {
      Tail(a, b);
      if |a[0]| >= HEADER_LEN {
        UpToShortAppend(a[1..], b);
        Head(a, UpToShort(b));
      }
    }
  }

  lemma Tail<T>(a: seq<T>, b: seq<T>)
    requires a != []
    ensures (a + b)[0] == a[0] && (a + b)[1..] == a[1..] + b
  {
  }

  lemma Head<T>(a: seq<T>, b: seq<T>)
    requires a != []
    ensures [a[0]] + (a[1..] + b) == a + b
  {
  }

  lemma {:induction false} StillLong(frames: seq<seq<byte>>, raw: seq<byte>)
    requires !HasShort(frames) && |raw| >= HEADER_LEN
    ensures !HasShort(frames + [raw])
  {
    UpToShortAppend(frames, [raw]);
    assert [raw][1..] == [];
  }

  lemma {:induction false} ShortEnds(frames: seq<seq<byte>>, raw: seq<byte>, rest: seq<seq<byte>>)
    requires !HasShort(frames) && |raw| < HEADER_LEN
    ensures UpToShort(frames + [raw] + rest) == frames && HasShort(frames + [raw] + rest)
  {
    assert frames + [raw] + rest == frames + ([raw] + rest);
    UpToShortAppend(frames, [raw] + rest);
  }

  lemma {:induction false} FramesConcat(a: seq<seq<byte>>, b: seq<seq<byte>>)
    ensures Frames(a + b) == Frames(a) + Frames(b)
    decreases |a|
  {
    if a == [] {
      assert a + b == b;
    } else {
      FramesConcat(a[1..], b);
      Tail(a, b);
      Assoc([Unframed(a[0])], Frames(a[1..]), Frames(b));
    }
  }

  lemma Assoc<T>(a: seq<T>, b: seq<T>, c: seq<T>)
    ensures a + (b + c) == a + b + c
  {
  }

  /** A token without its length field. */
  function Unframed(token: seq<byte>): seq<byte> {
    if |token| < LENGTH_FIELD_SIZE then [] else token[LENGTH_FIELD_SIZE..]
  }

  function Frames(tokens: seq<seq<byte>>): (frames: seq<seq<byte>>)
    ensures |frames| == |tokens|
  {
    if tokens == [] then [] else [Unframed(tokens[0])] + Frames(tokens[1..])
  }

  lemma {:induction false} FramesAppend(tokens: seq<seq<byte>>, token: seq<byte>)
    requires |token| >= LENGTH_FIELD_SIZE
    ensures Frames(tokens + [token]) == Frames(tokens) + [token[LENGTH_FIELD_SIZE..]]
  {
    FramesConcat(tokens, [token]);
    assert [token][1..] == [];
  }

  // The sending side

  /** TCPConn.Write for each frame in turn. */
  function Written(frames: seq<seq<byte>>): seq<byte> {
    if frames == [] then [] else PutU24(|frames[0]|) + frames[0] + Written(frames[1..])
  }

  /** What MustNewUint24 and the decoder demand of a frame. */
  predicate Writeable(frame: seq<byte>) {
    1 <= |frame| <= MAX_UINT24
  }

  /** Exactly these frames are cut out again as they are. */
  lemma WriteableExactly(f: seq<byte>)
    ensures DoSplit(PutU24(|f|) + f, false) == Token(PutU24(|f|) + f) <==> Writeable(f)
  {
    var stream := PutU24(|f|) + f;
    ReadU24Prefix(PutU24(|f|), f);
    assert stream[..|stream|] == stream;
  }

  lemma {:induction false} WrittenNext(before: seq<byte>, frames: seq<seq<byte>>, i: nat)
    requires i < |frames|
    ensures before + Written(frames[i..]) == ((before + PutU24(|frames[i]|)) + frames[i]) + Written(frames[i+1..])
  {
    assert frames[i..][0] == frames[i] && frames[i..][1..] == frames[i+1..];
    Pieces(before, PutU24(|frames[i]|), frames[i], Written(frames[i+1..]));
  }

  lemma Pieces(a: seq<byte>, b: seq<byte>, c: seq<byte>, d: seq<byte>)
    ensures a + (b + c + d) == ((a + b) + c) + d
  {
  }

  method WriteAll(frames: seq<seq<byte>>) returns (out: seq<byte>)
    requires forall f :: f in frames ==> Writeable(f)
    ensures out == Written(frames)
  {
    var writer := new Writer();
    assert frames[0..] == frames;
    for i := 0 to |frames|
      invariant Written(frames) == writer.contents + Written(frames[i..])
    {
      WrittenNext(writer.contents, frames, i);
      var _ := writer.Write(PutU24(|frames[i]|));
      var _ := writer.Write(frames[i]);
    }
    out := writer.contents;
  }

  /** Each frame on the wire: its length in three bytes, most significant first, then the frame itself. */
  lemma {:induction false} WrittenOnWire(f: seq<byte>, more: seq<seq<byte>>)
    requires |f| <= 0xFF_FFFF
    ensures var out := Written([f] + more);
            && |out| == 3 + |f| + |Written(more)| && Number(out[..3]) == |f|
            && out[3..3 + |f|] == f && out[3 + |f|..] == Written(more)
  {
    BigEndian24(|f|, PutU24(|f|));
    assert ([f] + more)[1..] == more;
    var out := Written([f] + more);
    assert out == PutU24(|f|) + f + Written(more);
    assert out[..3] == PutU24(|f|);
  }

  lemma WrittenToken(f: seq<byte>, more: seq<byte>)
    requires Writeable(f)
    ensures var stream := PutU24(|f|) + f + more;
            TokenSize(stream) == |f| + 3 && stream[..|f| + 3] == PutU24(|f|) + f && stream[|f| + 3..] == more
  {
    var stream := PutU24(|f|) + f + more;
    assert stream == PutU24(|f|) + (f + more);
    ReadU24Prefix(PutU24(|f|), f + more);
  }

  /** Cutting what was written gives back exactly the frames, with nothing left over. */
  lemma {:induction false} TokensOfWritten(frames: seq<seq<byte>>)
    requires forall f :: f in frames ==> Writeable(f)
    ensures Frames(Tokens(Written(frames))) == frames && Rest(Written(frames)) == []
    decreases |frames|
  {
    if frames != [] {
      var f := frames[0];
      WrittenToken(f, Written(frames[1..]));
      TokensOfWritten(frames[1..]);
      var token := PutU24(|f|) + f;
      var more := Tokens(Written(frames[1..]));
      assert Tokens(Written(frames)) == [token] + more;
      assert token[3..] == f;
      assert ([token] + more)[1..] == more;
    }
  }

  /**
   However the bytes of written frames are cut into chunks, the receiver reads exactly those frames, in
   order, up to the first that is shorter than a header.
   */
  method Transfer(frames: seq<seq<byte>>, chunks: seq<seq<byte>>) returns (received: seq<seq<byte>>, err: ReadError)
    requires forall f :: f in frames ==> Writeable(f)
    requires Flatten(chunks) == Written(frames)
    ensures received == UpToShort(frames)
    ensures err == if HasShort(frames) then IncompleteHeader else EndOfFile
  {
    var scanner := new Scanner(chunks, []);
    received, err := scanner.ReadAll();
    TokensOfWritten(frames);
  }

  // The end of the stream

  /** last completes no frame that would still be read. */
  predicate NothingMissed(stream: seq<byte>, last: seq<byte>) {
    HasShort(Frames(Tokens(stream))) || UpToShort(Frames(Tokens(Rest(stream) + last))) == []
  }

  /** Bytes that arrive in the same read as the end of the stream only matter if they complete a frame. */
  lemma {:induction false} EndOfStream(stream: seq<byte>, last: seq<byte>)
    ensures UpToShort(Frames(Tokens(stream))) == UpToShort(Frames(Tokens(stream + last)))
       <==> NothingMissed(stream, last)
  {
    var a, b := Frames(Tokens(stream)), Frames(Tokens(Rest(stream) + last));
    TokensAppend(stream, last);
    FramesConcat(Tokens(stream), Tokens(Rest(stream) + last));
    UpToShortAppend(a, b);
    UpToShortAppend(a, []);
    assert a + [] == a;
    assert |a + UpToShort(b)| == |a| + |UpToShort(b)|;
  }

  /**
   Reading a stream whose end comes together with the bytes of last: these are never cut, so all frames
   of the stream are read exactly if last completes none.
   */
  method ReadToEnd(chunks: seq<seq<byte>>, last: seq<byte>) returns (frames: seq<seq<byte>>, err: ReadError)
    ensures frames == UpToShort(Frames(Tokens(Flatten(chunks)))) && err == ErrorAfter(Flatten(chunks))
    ensures frames == UpToShort(Frames(Tokens(Flatten(chunks) + last))) <==> NothingMissed(Flatten(chunks), last)
  {
    var scanner := new Scanner(chunks, last);
    frames, err := scanner.ReadAll();
    EndOfStream(Flatten(chunks), last);
  }

  /**
   Frames are lost whose last bytes arrive together with the end of the stream: all that would have been
   read after the frames already complete.
   */
  lemma {:induction false} LastFramesMissed(stream: seq<byte>, last: seq<byte>, frames: seq<seq<byte>>)
    requires !HasShort(Frames(Tokens(stream))) && Rest(stream) + last == Written(frames)
    requires frames != [] && |frames[0]| >= HEADER_LEN && forall f :: f in frames ==> Writeable(f)
    ensures !NothingMissed(stream, last)
    ensures UpToShort(Frames(Tokens(stream + last))) == UpToShort(Frames(Tokens(stream))) + UpToShort(frames)
  {
    TokensOfWritten(frames);
    TokensAppend(stream, last);
    FramesConcat(Tokens(stream), Tokens(Rest(stream) + last));
    UpToShortAppend(Frames(Tokens(stream)), frames);
    UpToShortAppend(Frames(Tokens(stream)), []);
    assert Frames(Tokens(stream)) + [] == Frames(Tokens(stream));
  }
}
