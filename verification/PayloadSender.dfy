/** How a payload becomes frames: whole if it fits the mtu, and otherwise in fragments. */
module PayloadSender {
  import opened BufferedFrame
  import opened Bytes
  import opened FrameHeader
  import opened PayloadFrames
  import opened Splitter

  /**
   Something to send on a stream: a payload with the flags given to sendPayload, or the first frame
   of a request, whose type and request N go into the first fragment.
   */
  datatype Message = Message(ty: FrameType, n: uint32, data: seq<byte>, metadata: seq<byte>, next: bool, complete: bool)

  function FrameFlag(msg: Message): Flags {
    NO_FLAGS.(next := msg.next, complete := msg.complete)
  }

  function Size(msg: Message): nat {
    CalcPayloadFrameSize(msg.data, msg.metadata) + PayloadOffset(msg.ty)
  }

  predicate ShouldSplit(mtu: int, msg: Message) {
    Size(msg) > mtu
  }

  /** A payload frame, or a request that may be fragmented; the mtu leaves room for its first fragment. */
  predicate Sendable(mtu: int, msg: Message) {
    && IsValidFragment(mtu)
    && CarriesPayload(msg.ty)
    && (ShouldSplit(mtu, msg) ==> FirstFits(mtu, PayloadOffset(msg.ty), msg.metadata))
  }

  /** The flags of fragment number index, as the callbacks of sendPayload and the requests set them. */
  function FragmentFlag(msg: Message, index: nat, flag: Flags): Flags {
    if index == 0 then flag.(next := flag.next || msg.next, complete := msg.complete && !flag.follow)
    else flag.(next := true, complete := msg.complete && !flag.follow)
  }

  function EncodeFragment(sid: uint32, msg: Message, index: nat, r: SplitResult): Frame {
    Encode(sid, if index == 0 then msg.ty else PAYLOAD, msg.n, r.data, r.metadata, FragmentFlag(msg, index, r.flag))
  }

  function EncodeFragments(sid: uint32, msg: Message, index: nat, rs: seq<SplitResult>): (frames: seq<Frame>)
    ensures |frames| == |rs|
    ensures forall i :: 0 <= i < |rs| ==> frames[i] == EncodeFragment(sid, msg, index + i, rs[i])
    decreases |rs|
  {
    if rs == [] then []
    else [EncodeFragment(sid, msg, index, rs[0])] + EncodeFragments(sid, msg, index + 1, rs[1..])
  }

  /** The frames of a message, in the order in which they are sent. */
  function FramesOf(mtu: int, sid: uint32, msg: Message): (frames: seq<Frame>)
    requires mtu >= MIN_FRAGMENT
    ensures |frames| > 0
  {
    if !ShouldSplit(mtu, msg) then [Encode(sid, msg.ty, msg.n, msg.data, msg.metadata, FrameFlag(msg))]
    else EncodeFragments(sid, msg, 0, Split(mtu, PayloadOffset(msg.ty), msg.data, msg.metadata))
  }

  /** sendPayload and the send paths of the requests: the frames handed to sendFrame, as bytes. */
  method Send(mtu: int, sid: uint32, msg: Message) returns (sent: seq<Frame>)
    requires mtu >= MIN_FRAGMENT && CarriesPayload(msg.ty)
    ensures sent == FramesOf(mtu, sid, msg)
  {
    var size := CalcPayloadFrameSize(msg.data, msg.metadata) + PayloadOffset(msg.ty);
    if size <= mtu {
      var frame := Encode(sid, msg.ty, msg.n, msg.data, msg.metadata, FrameFlag(msg));
      return [frame];
    }
    var results := SplitSkip(mtu, PayloadOffset(msg.ty), msg.data, msg.metadata);
    SplitPlain(mtu, PayloadOffset(msg.ty), msg.data, msg.metadata, 0, 0, 0);
    sent := [];
    for index := 0 to |results|
      invariant |sent| == index
      invariant forall i :: 0 <= i < index ==> sent[i] == EncodeFragment(sid, msg, i, results[i])
    {
      var next := OnFrame(sid, msg, index, results[index]);
      sent := sent + [next];
    }
  }

  /** The callback given to the splitter. */
  method OnFrame(sid: uint32, msg: Message, index: nat, result: SplitResult) returns (next: Frame)
    requires Plain(result.flag)
    ensures next == EncodeFragment(sid, msg, index, result)
  {
    var flag := result.flag;
    var isLastFragment := !result.flag.follow;
    if index == 0 {
      flag := flag.(next := flag.next || msg.next, complete := flag.complete || msg.complete);
      if !isLastFragment {
        flag := flag.(complete := false);
      }
    } else {
      flag := flag.(next := true);
      if isLastFragment && msg.complete {
        flag := flag.(complete := true);
      }
    }
    next := Encode(sid, if index == 0 then msg.ty else PAYLOAD, msg.n, result.data, result.metadata, flag);
  }

  // What the frames of a message are

  /** How a single frame decodes. */
  lemma FrameDecodes(sid: uint32, ty: FrameType, n: uint32, data: seq<byte>, metadata: seq<byte>, flags: Flags)
    requires |metadata| <= MAX_UINT24 && (flags.metadata ==> metadata != [])
    ensures var f := Encode(sid, ty, n, data, metadata, flags);
            && StreamID(f) == sid && Type(f) == ty && Valid(f)
            && FlagsOf(f) == flags.(metadata := metadata != [])
            && MetadataOf(f) == NonEmpty(metadata) && DataOf(f) == data
            && (HasRequestN(ty) ==> InitialRequestN(f) == n)
  {
    RoundTrip(sid, ty, n, data, metadata, flags);
    AcceptedExactly(sid, ty, n, data, metadata, flags);
  }

  /** Frame i of the message is fragment i, and decodes to it. */
  predicate Carries(f: Frame, sid: uint32, ty: FrameType, n: uint32, r: SplitResult, flags: Flags) {
    && StreamID(f) == sid && Type(f) == ty && Valid(f)
    && FlagsOf(f) == flags && (HasRequestN(ty) ==> InitialRequestN(f) == n)
    && MetadataOf(f) == NonEmpty(r.metadata) && DataOf(f) == r.data
  }

  lemma FragmentDecodes(mtu: int, sid: uint32, msg: Message, rs: seq<SplitResult>, i: nat)
    requires IsValidFragment(mtu) && i < |rs|
    requires WellFlagged(rs) && SizesOk(mtu, PayloadOffset(msg.ty), rs, 0)
    ensures |EncodeFragment(sid, msg, i, rs[i])| == EncodedSize(PayloadOffset(msg.ty), i, rs[i])
    ensures Carries(EncodeFragment(sid, msg, i, rs[i]), sid, if i == 0 then msg.ty else PAYLOAD, msg.n, rs[i],
                    FragmentFlag(msg, i, rs[i].flag))
  {
    assert EncodedSize(PayloadOffset(msg.ty), 0 + i, rs[i]) <= mtu;
    FrameDecodes(sid, if i == 0 then msg.ty else PAYLOAD, msg.n, rs[i].data, rs[i].metadata,
                 FragmentFlag(msg, i, rs[i].flag));
  }

  /** Frame i of a fragmented message decodes to fragment i; all frames but the last fill the mtu. */
  lemma FragmentsDecode(mtu: int, sid: uint32, msg: Message)
    requires Sendable(mtu, msg) && ShouldSplit(mtu, msg)
    ensures var rs, fs := Split(mtu, PayloadOffset(msg.ty), msg.data, msg.metadata), FramesOf(mtu, sid, msg);
            && |fs| == |rs|
            && (forall i :: 0 <= i < |fs| ==>
                  && |fs[i]| <= mtu && (i < |fs| - 1 ==> |fs[i]| == mtu)
                  && Carries(fs[i], sid, if i == 0 then msg.ty else PAYLOAD, msg.n, rs[i],
                             FragmentFlag(msg, i, rs[i].flag)))
  {
    var skip := PayloadOffset(msg.ty);
    var rs, fs := Split(mtu, skip, msg.data, msg.metadata), FramesOf(mtu, sid, msg);
    SplitCorrect(mtu, skip, msg.data, msg.metadata);
    forall i | 0 <= i < |fs|
      ensures |fs[i]| == EncodedSize(skip, 0 + i, rs[i])
      ensures Carries(fs[i], sid, if i == 0 then msg.ty else PAYLOAD, msg.n, rs[i], FragmentFlag(msg, i, rs[i].flag))
    {
      FragmentDecodes(mtu, sid, msg, rs, i);
    }
  }

  /** What is true of frame i of a message, with all its flags. */
  predicate MessageFrame(f: Frame, mtu: int, sid: uint32, msg: Message, i: nat, last: bool) {
    && StreamID(f) == sid && Valid(f) && |f| <= mtu
    && Type(f) == (if i == 0 then msg.ty else PAYLOAD)
    && (i == 0 && HasRequestN(msg.ty) ==> InitialRequestN(f) == msg.n)
    && (FlagsOf(f).follow <==> !last)
    && (FlagsOf(f).next <==> i > 0 || msg.next)
    && (FlagsOf(f).complete <==> last && msg.complete)
    && (FlagsOf(f).metadata <==> MetadataOf(f).Some?)
    && !FlagsOf(f).ignore && FlagsOf(f).low == 0
  }

  lemma FragmentWellFormed(f: Frame, mtu: int, sid: uint32, msg: Message, i: nat, r: SplitResult)
    requires |f| <= mtu && Plain(r.flag) && (r.flag.metadata <==> r.metadata != [])
    requires Carries(f, sid, if i == 0 then msg.ty else PAYLOAD, msg.n, r, FragmentFlag(msg, i, r.flag))
    ensures MessageFrame(f, mtu, sid, msg, i, !r.flag.follow)
  {
  }

  lemma FragmentsWellFormed(fs: seq<Frame>, mtu: int, sid: uint32, msg: Message, rs: seq<SplitResult>)
    requires |fs| == |rs| && WellFlagged(rs)
    requires forall i :: 0 <= i < |fs| ==>
               && |fs[i]| <= mtu
               && Carries(fs[i], sid, if i == 0 then msg.ty else PAYLOAD, msg.n, rs[i],
                          FragmentFlag(msg, i, rs[i].flag))
    ensures forall i :: 0 <= i < |fs| ==> MessageFrame(fs[i], mtu, sid, msg, i, i == |fs| - 1)
  {
    forall i | 0 <= i < |fs|
      ensures MessageFrame(fs[i], mtu, sid, msg, i, i == |fs| - 1)
    {
      FragmentWellFormed(fs[i], mtu, sid, msg, i, rs[i]);
    }
  }

  /**
   The frames of a message: within the mtu, accepted by the receiver's validation, Follow on all but
   the last; Next on the first exactly when it was asked for, and on all later ones; Complete on the
   last only, exactly when it was asked for.
   */
  lemma FramesWellFormed(mtu: int, sid: uint32, msg: Message)
    requires Sendable(mtu, msg)
    ensures var fs := FramesOf(mtu, sid, msg);
            forall i :: 0 <= i < |fs| ==> MessageFrame(fs[i], mtu, sid, msg, i, i == |fs| - 1)
  {
    if ShouldSplit(mtu, msg) {
      FragmentsDecode(mtu, sid, msg);
      SplitCorrect(mtu, PayloadOffset(msg.ty), msg.data, msg.metadata);
      FragmentsWellFormed(FramesOf(mtu, sid, msg), mtu, sid, msg,
                          Split(mtu, PayloadOffset(msg.ty), msg.data, msg.metadata));
    } else {
      FrameDecodes(sid, msg.ty, msg.n, msg.data, msg.metadata, FrameFlag(msg));
    }
  }

  /**
   The room demanded by Sendable is needed: without it the receiver's validation rejects the first
   fragment, because it claims metadata and carries none.
   */
  lemma FirstFragmentAccepted(mtu: int, sid: uint32, msg: Message)
    requires IsValidFragment(mtu) && CarriesPayload(msg.ty) && ShouldSplit(mtu, msg)
    ensures Valid(FramesOf(mtu, sid, msg)[0]) <==> FirstFits(mtu, PayloadOffset(msg.ty), msg.metadata)
  {
    var skip := PayloadOffset(msg.ty);
    var r := Split(mtu, skip, msg.data, msg.metadata)[0];
    FirstFragmentFits(mtu, skip, msg.data, msg.metadata);
    AcceptedExactly(sid, msg.ty, msg.n, r.data, r.metadata, FragmentFlag(msg, 0, r.flag));
  }
}
