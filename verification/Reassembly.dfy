/**
 doFragment: the map of joiners, one per stream with an incomplete payload, that incoming frames of
 all streams pass through.
 */
module Reassembly {
  import opened BufferedFrame
  import opened Bytes
  import opened FrameHeader
  import opened Joiner
  import opened Options

  /** The incomplete payloads: the fragments received so far, by stream. */
  type Pending = map<uint32, seq<Frame>>

  function Got(pending: Pending, sid: uint32): seq<Frame> {
    if sid in pending then pending[sid] else []
  }

  /** Keep the frame while more fragments follow; otherwise hand out the payload it completes. */
  function Feed(pending: Pending, input: Frame): (Pending, Option<seq<Frame>>) {
    var sid := StreamID(input);
    var all := Got(pending, sid) + [input];
    if FlagsOf(input).follow then (pending[sid := all], None) else (pending - {sid}, Some(all))
  }

  /** What doFragment returns: nothing yet, the frame itself, or a joiner. */
  datatype Incoming = Nothing | Whole(frame: Frame) | Joined(joiner: ImplJoiner)

  class DuplexConnection {
    var fragments: map<uint32, ImplJoiner>

    constructor ()
      ensures Valid() && PendingNow() == map[] && fragments == map[]
    {
      fragments := map[];
    }

    /** Streams do not share joiners. */
    ghost predicate Valid()
      reads this
    {
      forall s, t :: s in fragments && t in fragments && s != t ==> fragments[s] != fragments[t]
    }

    ghost function PendingNow(): Pending
      reads this, fragments.Values
    {
      map sid | sid in fragments :: fragments[sid].root
    }

    method DoFragment(input: Frame) returns (out: Incoming)
      requires Valid()
      modifies this, fragments.Values
      ensures Valid() && fresh(fragments.Values - old(fragments.Values))
      ensures PendingNow() == Feed(old(PendingNow()), input).0
      ensures match out
              case Nothing => Feed(old(PendingNow()), input).1 == None
              case Whole(f) => Feed(old(PendingNow()), input).1 == Some([f])
              case Joined(j) => Feed(old(PendingNow()), input).1 == Some(j.root)
    {
      var sid := StreamID(input);
      ghost var before := PendingNow();
      if sid in fragments {
        var joiner := fragments[sid];
        var end := joiner.Push(input);
        assert joiner.root == before[sid] + [input];
        if end {
          fragments := fragments - {sid};
          out := Joined(joiner);
          assert PendingNow() == before - {sid};
        } else {
          out := Nothing;
          assert PendingNow() == before[sid := joiner.root];
        }
        return;
      }
      assert [] + [input] == [input];
      if !FlagsOf(input).follow {
        out := Whole(input);
        assert PendingNow() == before - {sid};
        return;
      }
      var joiner := new ImplJoiner(input);
      fragments := fragments[sid := joiner];
      out := Nothing;
      assert PendingNow() == before[sid := [input]];
    }
  }

  // Many frames

  /** The payloads completed while the frames of wire arrive, and what stays incomplete. */
  function FeedAll(pending: Pending, wire: seq<Frame>): (Pending, seq<seq<Frame>>)
    decreases |wire|
  {
    if wire == [] then (pending, [])
    else
      var (p1, out) := Feed(pending, wire[0]);
      var (p2, outs) := FeedAll(p1, wire[1..]);
      (p2, if out.Some? then [out.value] + outs else outs)
  }

  /** The same for the frames of one stream. */
  function FeedStream(got: seq<Frame>, frames: seq<Frame>): (seq<Frame>, seq<seq<Frame>>)
    decreases |frames|
  {
    if frames == [] then (got, [])
    else if FlagsOf(frames[0]).follow then FeedStream(got + [frames[0]], frames[1..])
    else
      var (g, outs) := FeedStream([], frames[1..]);
      (g, [got + [frames[0]]] + outs)
  }

  /** The frames of one stream, in order. */
  function Only(wire: seq<Frame>, sid: uint32): seq<Frame> {
    if wire == [] then []
    else (if StreamID(wire[0]) == sid then [wire[0]] else []) + Only(wire[1..], sid)
  }

  /** The payloads delivered on one stream, in order. */
  function OnStream(outs: seq<seq<Frame>>, sid: uint32): seq<seq<Frame>> {
    if outs == [] then []
    else (if outs[0] != [] && StreamID(outs[0][0]) == sid then [outs[0]] else []) + OnStream(outs[1..], sid)
  }

  ghost predicate Consistent(pending: Pending) {
    forall sid :: sid in pending ==> pending[sid] != [] && StreamID(pending[sid][0]) == sid
  }

  /** However the streams are interleaved, each sees only its own frames. */
  lemma {:induction false} StreamsIndependent(pending: Pending, wire: seq<Frame>, sid: uint32)
    requires Consistent(pending)
    ensures Consistent(FeedAll(pending, wire).0)
    ensures OnStream(FeedAll(pending, wire).1, sid) == FeedStream(Got(pending, sid), Only(wire, sid)).1
    ensures Got(FeedAll(pending, wire).0, sid) == FeedStream(Got(pending, sid), Only(wire, sid)).0
    decreases |wire|
  {
    if wire != [] {
      var f := wire[0];
      var p1 := Feed(pending, f).0;
      StreamsIndependent(p1, wire[1..], sid);
      if StreamID(f) == sid {
        assert Only(wire, sid)[0] == f && Only(wire, sid)[1..] == Only(wire[1..], sid);
      } else {
        assert Got(p1, sid) == Got(pending, sid);
        assert Only(wire, sid) == Only(wire[1..], sid);
      }
    }
  }
}
