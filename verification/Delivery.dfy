/**
 From sender to receiver: payloads of any number of streams are cut into frames, the frames of the
 streams are interleaved on one connection, written with their lengths, received in arbitrary
 chunks, and joined again.
 */
module Delivery {
  import opened BufferedFrame
  import opened Bytes
  import opened Decoder
  import opened FrameHeader
  import opened Joiner
  import opened Options
  import opened PayloadFrames
  import opened PayloadSender
  import opened Reassembly
  import opened Splitter

  /**
   What a handler gets: type, stream id, Next and Complete of the header, the initial request N of a
   request that has one, metadata if any, and data.
   */
  datatype Received = Received(ty: FrameType, sid: uint32, next: bool, complete: bool, n: Option<uint32>,
                               metadata: Option<seq<byte>>, data: seq<byte>)

  /** A message as its receiver should see it; Complete is hidden by fragmentation. */
  function Original(mtu: int, sid: uint32, msg: Message): Received {
    Received(msg.ty, sid, msg.next, msg.complete && !ShouldSplit(mtu, msg),
             if HasRequestN(msg.ty) then Some(msg.n) else None, NonEmpty(msg.metadata), msg.data)
  }

  function Originals(mtu: int, sid: uint32, msgs: seq<Message>): (rs: seq<Received>)
    ensures |rs| == |msgs| && forall i :: 0 <= i < |msgs| ==> rs[i] == Original(mtu, sid, msgs[i])
  {
    seq(|msgs|, i requires 0 <= i < |msgs| => Original(mtu, sid, msgs[i]))
  }

  /** A completed payload as the joiner presents it: the header is that of the first frame. */
  function Present(frames: seq<Frame>): Received
    requires frames != []
  {
    var f := frames[0];
    Received(Type(f), StreamID(f), FlagsOf(f).next, FlagsOf(f).complete, InitN(f), JoinMetadata(frames),
             JoinData(frames))
  }

  /** extractRequestStreamInitN, for a frame or the first of a joiner. */
  function InitN(f: Frame): Option<uint32> {
    if HasRequestN(Type(f)) && Valid(f) then Some(InitialRequestN(f)) else None
  }

  function PresentAll(outs: seq<seq<Frame>>): seq<Received>
    requires forall i :: 0 <= i < |outs| ==> outs[i] != []
  {
    seq(|outs|, i requires 0 <= i < |outs| => Present(outs[i]))
  }

  // One message

  lemma FragmentsJoin(mtu: int, sid: uint32, msg: Message)
    requires Sendable(mtu, msg) && ShouldSplit(mtu, msg)
    ensures JoinMetadata(FramesOf(mtu, sid, msg)) == NonEmpty(msg.metadata)
    ensures JoinData(FramesOf(mtu, sid, msg)) == msg.data
  {
    var skip := PayloadOffset(msg.ty);
    var rs, fs := Split(mtu, skip, msg.data, msg.metadata), FramesOf(mtu, sid, msg);
    SplitCorrect(mtu, skip, msg.data, msg.metadata);
    FragmentsDecode(mtu, sid, msg);
    assert Decode(fs, rs);
    JoinDataOfSplit(fs, rs);
    JoinMetadataOfSplit(fs, rs);
  }

  /** The joined frames of a message are the message. */
  lemma JoinsToOriginal(mtu: int, sid: uint32, msg: Message)
    requires Sendable(mtu, msg)
    ensures Present(FramesOf(mtu, sid, msg)) == Original(mtu, sid, msg)
  {
    FramesWellFormed(mtu, sid, msg);
    if ShouldSplit(mtu, msg) {
      FragmentsJoin(mtu, sid, msg);
      AtLeastTwo(mtu, sid, msg);
    } else {
      FrameDecodes(sid, msg.ty, msg.n, msg.data, msg.metadata, FrameFlag(msg));
      JoinOne(FramesOf(mtu, sid, msg)[0]);
    }
  }

  /** Follow on all frames but the last. */
  predicate FollowsThenEnds(fs: seq<Frame>) {
    fs != [] && forall i :: 0 <= i < |fs| ==> (FlagsOf(fs[i]).follow <==> i < |fs| - 1)
  }

  /** Such a run of frames completes one payload and leaves nothing behind. */
  lemma {:induction false} FeedOne(got: seq<Frame>, fs: seq<Frame>, more: seq<Frame>)
    requires FollowsThenEnds(fs)
    ensures FeedStream(got, fs + more).0 == FeedStream([], more).0
    ensures FeedStream(got, fs + more).1 == [got + fs] + FeedStream([], more).1
    decreases |fs|
  {
    assert (fs + more)[0] == fs[0] && (fs + more)[1..] == fs[1..] + more;
    if |fs| == 1 {
      assert fs == [fs[0]] && fs[1..] + more == more;
    } else {
      FeedOne(got + [fs[0]], fs[1..], more);
      assert got + [fs[0]] + fs[1..] == got + fs;
    }
  }

  // One stream

  /** All frames of a stream: those of its messages, one message after the other. */
  function StreamFrames(mtu: int, sid: uint32, msgs: seq<Message>): seq<Frame>
    requires mtu >= MIN_FRAGMENT
  {
    if msgs == [] then [] else FramesOf(mtu, sid, msgs[0]) + StreamFrames(mtu, sid, msgs[1..])
  }

  function Groups(mtu: int, sid: uint32, msgs: seq<Message>): (gs: seq<seq<Frame>>)
    requires mtu >= MIN_FRAGMENT
    ensures |gs| == |msgs| && forall i :: 0 <= i < |msgs| ==> gs[i] == FramesOf(mtu, sid, msgs[i])
  {
    seq(|msgs|, i requires 0 <= i < |msgs| => FramesOf(mtu, sid, msgs[i]))
  }

  lemma GroupsCons(mtu: int, sid: uint32, msgs: seq<Message>)
    requires mtu >= MIN_FRAGMENT && msgs != []
    ensures Groups(mtu, sid, msgs) == [FramesOf(mtu, sid, msgs[0])] + Groups(mtu, sid, msgs[1..])
  {
  }

  lemma {:induction false} FeedMessages(mtu: int, sid: uint32, msgs: seq<Message>)
    requires IsValidFragment(mtu) && forall m :: m in msgs ==> Sendable(mtu, m)
    ensures FeedStream([], StreamFrames(mtu, sid, msgs)) == ([], Groups(mtu, sid, msgs))
    decreases |msgs|
  {
    if msgs != [] {
      var fs := FramesOf(mtu, sid, msgs[0]);
      FramesWellFormed(mtu, sid, msgs[0]);
      FeedMessages(mtu, sid, msgs[1..]);
      FeedOne([], fs, StreamFrames(mtu, sid, msgs[1..]));
      assert [] + fs == fs;
      GroupsCons(mtu, sid, msgs);
    }
  }

  // All streams

  function MessagesOf(sends: map<uint32, seq<Message>>, sid: uint32): seq<Message> {
    if sid in sends then sends[sid] else []
  }

  predicate AllSendable(mtu: int, sends: map<uint32, seq<Message>>) {
    IsValidFragment(mtu) && forall sid, m :: sid in sends && m in sends[sid] ==> Sendable(mtu, m)
  }

  /** wire interleaves the frames of all streams, keeping the order within each stream. */
  ghost predicate Interleaves(mtu: int, sends: map<uint32, seq<Message>>, wire: seq<Frame>)
    requires mtu >= MIN_FRAGMENT
  {
    forall sid: uint32 :: Only(wire, sid) == StreamFrames(mtu, sid, MessagesOf(sends, sid))
  }

  /**
   On every stream exactly the payloads sent on it are delivered, in order, and no incomplete payload
   stays behind, whatever the interleaving.
   */
  lemma {:induction false} ReassemblyCorrect(mtu: int, sends: map<uint32, seq<Message>>, wire: seq<Frame>)
    requires AllSendable(mtu, sends) && Interleaves(mtu, sends, wire)
    ensures FeedAll(map[], wire).0 == map[]
    ensures forall sid: uint32 :: Delivered(wire, sid) == Originals(mtu, sid, MessagesOf(sends, sid))
  {
    forall sid: uint32
      ensures Delivered(wire, sid) == Originals(mtu, sid, MessagesOf(sends, sid))
      ensures sid !in FeedAll(map[], wire).0
    {
      var msgs := MessagesOf(sends, sid);
      StreamsIndependent(map[], wire, sid);
      FeedMessages(mtu, sid, msgs);
      forall i | 0 <= i < |msgs|
        ensures Present(FramesOf(mtu, sid, msgs[i])) == Original(mtu, sid, msgs[i])
      {
        JoinsToOriginal(mtu, sid, msgs[i]);
      }
    }
  }

  /** The payloads that the handlers of a stream get. */
  function Delivered(wire: seq<Frame>, sid: uint32): seq<Received> {
    OnStreamNonEmpty(FeedAll(map[], wire).1, sid);
    PresentAll(OnStream(FeedAll(map[], wire).1, sid))
  }

  lemma {:induction false} OnStreamNonEmpty(outs: seq<seq<Frame>>, sid: uint32)
    ensures forall i :: 0 <= i < |OnStream(outs, sid)| ==> OnStream(outs, sid)[i] != []
    decreases |outs|
  {
    if outs != [] {
      OnStreamNonEmpty(outs[1..], sid);
    }
  }

  // Through the connection

  lemma {:induction false} OnWire(mtu: int, sid: uint32, msgs: seq<Message>)
    requires IsValidFragment(mtu) && forall m :: m in msgs ==> Sendable(mtu, m)
    ensures forall f :: f in StreamFrames(mtu, sid, msgs) ==>
              HEADER_LEN <= |f| <= mtu && Valid(f) && CarriesPayload(Type(f))
    decreases |msgs|
  {
    if msgs != [] {
      FramesWellFormed(mtu, sid, msgs[0]);
      OnWire(mtu, sid, msgs[1..]);
    }
  }

  lemma {:induction false} OnlyKeeps(wire: seq<Frame>, i: nat)
    requires i < |wire|
    ensures wire[i] in Only(wire, StreamID(wire[i]))
    decreases |wire|
  {
    if i > 0 {
      OnlyKeeps(wire[1..], i - 1);
    }
  }

  /** Every frame on the wire can be written, is accepted, and is within the mtu. */
  lemma WireFrames(mtu: int, sends: map<uint32, seq<Message>>, wire: seq<Frame>)
    requires AllSendable(mtu, sends) && Interleaves(mtu, sends, wire)
    ensures forall f :: f in wire ==> Writeable(f) && Valid(f) && CarriesPayload(Type(f)) && |f| <= mtu
  {
    forall i | 0 <= i < |wire|
      ensures Writeable(wire[i]) && Valid(wire[i]) && CarriesPayload(Type(wire[i])) && |wire[i]| <= mtu
    {
      OnlyKeeps(wire, i);
      var sid := StreamID(wire[i]);
      OnWire(mtu, sid, MessagesOf(sends, sid));
    }
  }

  // The receiving loop

  /** What a handler reads from a payload that doFragment has let through. */
  method Read(input: Incoming) returns (r: Received)
    requires input.Joined? ==> input.joiner.root != []
    requires !input.Nothing?
    ensures r == Present(if input.Whole? then [input.frame] else input.joiner.root)
  {
    match input {
      case Whole(f) =>
        JoinOne(f);
        r := Received(Type(f), StreamID(f), FlagsOf(f).next, FlagsOf(f).complete, InitN(f), MetadataOf(f), DataOf(f));
      case Joined(j) =>
        var h := j.Header();
        var metadata, ok := j.Metadata();
        var data := j.Data();
        SameHeader(j.root[0]);
        r := Received(Type(h), StreamID(h), FlagsOf(h).next, FlagsOf(h).complete, InitN(j.root[0]),
                      if ok then Some(metadata) else None, data);
    }
  }

  lemma SameHeader(f: Frame)
    ensures Type(f[..HEADER_LEN]) == Type(f) && StreamID(f[..HEADER_LEN]) == StreamID(f)
    ensures FlagsOf(f[..HEADER_LEN]) == FlagsOf(f)
  {
    assert f[..HEADER_LEN][..4] == f[..4] && f[..HEADER_LEN][4..6] == f[4..6];
  }

  /** One frame goes through doFragment, and what that lets through is read. */
  method ReceiveOne(dc: DuplexConnection, frame: Frame) returns (r: Option<Received>)
    requires dc.Valid()
    modifies dc, dc.fragments.Values
    ensures dc.Valid() && fresh(dc.fragments.Values - old(dc.fragments.Values))
    ensures dc.PendingNow() == Feed(old(dc.PendingNow()), frame).0
    ensures r == HandedOut(Feed(old(dc.PendingNow()), frame).1)
  {
    var input := dc.DoFragment(frame);
    if input.Nothing? {
      return None;
    }
    var payload := Read(input);
    return Some(payload);
  }

  function HandedOut(out: Option<seq<Frame>>): Option<Received> {
    if out.None? || out.value == [] then None else Some(Present(out.value))
  }

  method ReceiveAll(dc: DuplexConnection, wire: seq<Frame>) returns (got: seq<Received>)
    requires dc.Valid()
    modifies dc, dc.fragments.Values
    ensures dc.Valid() && dc.PendingNow() == FeedAll(old(dc.PendingNow()), wire).0
    ensures Presents(got, FeedAll(old(dc.PendingNow()), wire).1)
  {
    got := [];
    ghost var p0 := dc.PendingNow();
    ghost var outs := [];
    assert wire[0..] == wire;
    NothingBehind(FeedAll(p0, wire));
    for i := 0 to |wire|
      invariant dc.Valid() && fresh(dc.fragments.Values - old(dc.fragments.Values))
      invariant Presents(got, outs)
      invariant FeedAll(p0, wire) == Behind(outs, FeedAll(dc.PendingNow(), wire[i..]))
    {
      ghost var p := dc.PendingNow();
      var r := ReceiveOne(dc, wire[i]);
      FeedNext(outs, p, wire, i);
      FeedNonEmpty(p, wire[i]);
      PresentsNext(got, outs, r, Feed(p, wire[i]).1);
      outs := With(outs, Feed(p, wire[i]).1);
      if r.Some? {
        got := got + [r.value];
      }
    }
    assert wire[|wire|..] == [];
    assert outs + [] == outs;
  }

  lemma NothingBehind(all: (Pending, seq<seq<Frame>>))
    ensures Behind([], all) == all
  {
    assert [] + all.1 == all.1;
    assert all == (all.0, all.1);
  }

  /** got is what is read from the completed payloads outs, in order. */
  ghost predicate Presents(got: seq<Received>, outs: seq<seq<Frame>>) {
    && |got| == |outs|
    && forall i :: 0 <= i < |outs| ==> outs[i] != [] && got[i] == Present(outs[i])
  }

  function Behind(outs: seq<seq<Frame>>, rest: (Pending, seq<seq<Frame>>)): (Pending, seq<seq<Frame>>) {
    (rest.0, outs + rest.1)
  }

  function With(outs: seq<seq<Frame>>, out: Option<seq<Frame>>): seq<seq<Frame>> {
    if out.Some? then outs + [out.value] else outs
  }

  lemma PresentsNext(got: seq<Received>, outs: seq<seq<Frame>>, r: Option<Received>, out: Option<seq<Frame>>)
    requires Presents(got, outs) && r == HandedOut(out) && (out.Some? ==> out.value != [])
    ensures Presents(if r.Some? then got + [r.value] else got, With(outs, out))
  {
  }

  lemma {:induction false} FeedNext(outs: seq<seq<Frame>>, p: Pending, wire: seq<Frame>, i: nat)
    requires i < |wire|
    ensures Behind(outs, FeedAll(p, wire[i..]))
         == Behind(With(outs, Feed(p, wire[i]).1), FeedAll(Feed(p, wire[i]).0, wire[i + 1..]))
  {
    assert wire[i..][1..] == wire[i + 1..];
    var (p1, out) := Feed(p, wire[i]);
    if out.Some? {
      assert outs + ([out.value] + FeedAll(p1, wire[i + 1..]).1) == outs + [out.value] + FeedAll(p1, wire[i + 1..]).1;
    }
  }

  lemma FeedNonEmpty(p: Pending, f: Frame)
    ensures Feed(p, f).1.Some? ==> Feed(p, f).1.value != []
  {
  }

  /** What was received on one stream, in order. */
  function ReceivedOn(got: seq<Received>, sid: uint32): seq<Received> {
    if got == [] then [] else (if got[0].sid == sid then [got[0]] else []) + ReceivedOn(got[1..], sid)
  }

  lemma {:induction false} ReceivedPerStream(got: seq<Received>, outs: seq<seq<Frame>>, sid: uint32)
    requires Presents(got, outs)
    ensures Presents(ReceivedOn(got, sid), OnStream(outs, sid))
    decreases |outs|
  {
    if outs != [] {
      ReceivedPerStream(got[1..], outs[1..], sid);
      assert outs[0] != [] && got[0] == Present(outs[0]);
      if got[0].sid == sid {
        PresentsCons(got[0], outs[0], ReceivedOn(got[1..], sid), OnStream(outs[1..], sid));
      }
    }
  }

  lemma PresentsCons(r: Received, out: seq<Frame>, got: seq<Received>, outs: seq<seq<Frame>>)
    requires Presents(got, outs) && out != [] && r == Present(out)
    ensures Presents([r] + got, [out] + outs)
  {
  }

  lemma {:induction false} ReceivedIsDelivered(got: seq<Received>, wire: seq<Frame>, sid: uint32)
    requires Presents(got, FeedAll(map[], wire).1)
    ensures ReceivedOn(got, sid) == Delivered(wire, sid)
  {
    ReceivedPerStream(got, FeedAll(map[], wire).1, sid);
    OnStreamNonEmpty(FeedAll(map[], wire).1, sid);
  }

  /**
   The whole way: the bytes written to the connection, cut into chunks in any way, are read as frames,
   which the receiver puts through reassembly. On every stream its handlers get exactly what was sent
   on it, in order, and no incomplete payload is left.
   */
  method EndToEnd(mtu: int, ghost sends: map<uint32, seq<Message>>, wire: seq<Frame>, chunks: seq<seq<byte>>)
    returns (got: seq<Received>, err: ReadError, ghost left: Pending)
    requires AllSendable(mtu, sends) && Interleaves(mtu, sends, wire)
    requires Flatten(chunks) == Written(wire)
    ensures err == EndOfFile && left == map[]
    ensures forall sid: uint32 :: ReceivedOn(got, sid) == Originals(mtu, sid, MessagesOf(sends, sid))
  {
    WireFrames(mtu, sends, wire);
    ReassemblyCorrect(mtu, sends, wire);
    AllLong(wire);
    var received;
    received, err := Transfer(wire, chunks);
    var dc := new DuplexConnection();
    got := ReceiveAll(dc, received);
    left := dc.PendingNow();
    forall sid: uint32
      ensures ReceivedOn(got, sid) == Originals(mtu, sid, MessagesOf(sends, sid))
    {
      ReceivedIsDelivered(got, wire, sid);
    }
  }

  lemma {:induction false} AllLong(wire: seq<Frame>)
    ensures !HasShort(wire) && UpToShort(wire) == wire
  {
    HasShortExactly(wire);
    UpToShortAppend(wire, []);
    assert wire + [] == wire;
  }

  // What reassembly does not keep

  /**
   The header of a joined payload is that of its first frame, while Complete travels on the last: the
   receiver sees Complete exactly when the payload was not fragmented or Complete was not asked for.
   */
  lemma CompleteSeenExactly(mtu: int, sid: uint32, msg: Message)
    requires Sendable(mtu, msg)
    ensures FlagsOf(FramesOf(mtu, sid, msg)[0]).complete == msg.complete
       <==> (ShouldSplit(mtu, msg) ==> !msg.complete)
  {
    FramesWellFormed(mtu, sid, msg);
    if ShouldSplit(mtu, msg) {
      AtLeastTwo(mtu, sid, msg);
    }
  }

  /** What onFramePayload tells the handler of a stream or of a channel. */
  datatype Signal = Next(metadata: Option<seq<byte>>, data: seq<byte>) | Complete

  function Signals(r: Received): seq<Signal> {
    if r.ty != PAYLOAD then []
    else (if r.next then [Next(r.metadata, r.data)] else []) + (if r.complete then [Complete] else [])
  }

  function AllSignals(rs: seq<Received>): seq<Signal> {
    if rs == [] then [] else Signals(rs[0]) + AllSignals(rs[1..])
  }

  /** What the sender meant by a payload given to sendPayload. */
  function Meant(msg: Message): seq<Signal> {
    if msg.ty != PAYLOAD then []
    else (if msg.next then [Next(NonEmpty(msg.metadata), msg.data)] else [])
         + (if msg.complete then [Complete] else [])
  }

  function AllMeant(msgs: seq<Message>): seq<Signal> {
    if msgs == [] then [] else Meant(msgs[0]) + AllMeant(msgs[1..])
  }

  /** A completing payload that does not fit the mtu. */
  predicate Hides(mtu: int, msg: Message) {
    msg.ty == PAYLOAD && msg.complete && ShouldSplit(mtu, msg)
  }

  /**
   A handler is told all that the sender meant, in order, exactly if no completing payload is
   fragmented; it is never told more, and for each such payload one Complete is missing.
   */
  lemma {:induction false} ToldExactly(mtu: int, sid: uint32, msgs: seq<Message>)
    ensures AllSignals(Originals(mtu, sid, msgs)) == AllMeant(msgs) <==> forall m :: m in msgs ==> !Hides(mtu, m)
    ensures |AllSignals(Originals(mtu, sid, msgs))| + Hidden(mtu, msgs) == |AllMeant(msgs)|
    decreases |msgs|
  {
    if msgs != [] {
      ToldExactly(mtu, sid, msgs[1..]);
      assert Originals(mtu, sid, msgs)[1..] == Originals(mtu, sid, msgs[1..]);
      HiddenNone(mtu, msgs);
      if forall m :: m in msgs ==> !Hides(mtu, m) {
        assert msgs[0] in msgs;
      }
    }
  }

  function Hidden(mtu: int, msgs: seq<Message>): nat {
    if msgs == [] then 0 else (if Hides(mtu, msgs[0]) then 1 else 0) + Hidden(mtu, msgs[1..])
  }

  lemma {:induction false} HiddenNone(mtu: int, msgs: seq<Message>)
    ensures Hidden(mtu, msgs) == 0 <==> forall m :: m in msgs ==> !Hides(mtu, m)
    decreases |msgs|
  {
    if msgs != [] {
      HiddenNone(mtu, msgs[1..]);
    }
  }

  lemma AtLeastTwo(mtu: int, sid: uint32, msg: Message)
    requires Sendable(mtu, msg) && ShouldSplit(mtu, msg)
    ensures |FramesOf(mtu, sid, msg)| >= 2
  {
    var skip := PayloadOffset(msg.ty);
    var rs := Split(mtu, skip, msg.data, msg.metadata);
    SplitCorrect(mtu, skip, msg.data, msg.metadata);
    FragmentsDecode(mtu, sid, msg);
    assert EncodedSize(skip, 0 + 0, rs[0]) <= mtu;
    var first := rs[0];
    AllOfOne(first);
    assert |rs| != 1 || rs == [first];
  }

  lemma AllOfOne(r: SplitResult)
    ensures AllMetadata([r]) == r.metadata && AllData([r]) == r.data
  {
    assert [r][1..] == [];
  }
}
