/**
 Transport.Start: one reader that sorts incoming frames by the parity of their stream id, and two
 workers that dispatch them, each from its own unbounded buffer; frames of stream 0 are dispatched
 by the reader itself.

 Every schedule of the three is allowed. Reads end or fail, handlers fail, and the context is
 cancelled at will.
 */
module TransportStart {
  import opened Unbounded

  datatype Frame = Frame(sid: nat, content: int)

  /** The lanes: 0 for stream 0, 1 for odd streams, 2 for the other even streams. */
  function Lane(f: Frame): nat {
    if f.sid % 2 == 1 then 1 else if f.sid != 0 then 2 else 0
  }

  datatype Reader =
    | Loop
    | Reading               // context and errors have been checked
    | Routing(f: Frame)     // read, not yet put or dispatched
    | DisposeOdd
    | DisposeEven
    | Waiting2
    | Waiting1
    | Returned

  datatype Worker =
    | Receiving
    | Dispatching(f: Frame)
    | Loading
    | Signalling
    | Ended

  datatype WorkerState = WorkerState(buffer: Buffer<Frame>, pc: Worker)

  datatype State = State(
    reader: Reader,
    odd: WorkerState,
    even: WorkerState,
    failed: bool,           // a worker has sent to errChan, which has capacity one
    cancelled: bool,
    signals: nat,           // done, capacity one
    read: seq<Frame>,       // every frame read so far
    log: seq<Frame>)        // every DispatchFrame so far

  datatype Action =
    | Cancel
    | Read(f: Frame)
    | ReadEnds              // EOF, or an error
    | ReaderStep(err: bool)
    | OddStep(err: bool)
    | EvenStep(err: bool)

  function Init(): State {
    State(Loop, WorkerState(Fresh(), Receiving), WorkerState(Fresh(), Receiving), false, false, 0, [], [])
  }

  predicate WorkerReady(w: WorkerState, signals: nat) {
    match w.pc
    case Receiving => w.buffer.channel != [] || !w.buffer.open
    case Signalling => signals < 1
    case Ended => false
    case _ => true
  }

  predicate Enabled(s: State, a: Action) {
    match a
    case Cancel => true
    case Read(_) => s.reader.Reading?
    case ReadEnds => s.reader.Reading?
    case ReaderStep(_) =>
      (match s.reader
       case Reading => false
       case Waiting2 => s.signals > 0
       case Waiting1 => s.signals > 0
       case Returned => false
       case _ => true)
    case OddStep(_) => WorkerReady(s.odd, s.signals)
    case EvenStep(_) => WorkerReady(s.even, s.signals)
  }

  function Apply(s: State, a: Action): State
    requires Enabled(s, a)
  {
    match a
    case Cancel => s.(cancelled := true)
    case Read(f) => s.(reader := Routing(f), read := s.read + [f])
    case ReadEnds => s.(reader := DisposeOdd)
    case ReaderStep(err) => ReaderApply(s, err)
    case OddStep(err) =>
      s.(odd := WorkerNext(s.odd), log := s.log + Dispatched(s.odd),
         failed := s.failed || (err && s.odd.pc.Dispatching?),
         signals := s.signals + if s.odd.pc.Signalling? then 1 else 0)
    case EvenStep(err) =>
      s.(even := WorkerNext(s.even), log := s.log + Dispatched(s.even),
         failed := s.failed || (err && s.even.pc.Dispatching?),
         signals := s.signals + if s.even.pc.Signalling? then 1 else 0)
  }

  function ReaderApply(s: State, err: bool): State
    requires Enabled(s, ReaderStep(err))
  {
    match s.reader
    case Loop => s.(reader := if s.cancelled || s.failed then DisposeOdd else Reading)
    case Routing(f) =>
      if Lane(f) == 1 then s.(reader := Loop, odd := s.odd.(buffer := Put(s.odd.buffer, f)))
      else if Lane(f) == 2 then s.(reader := Loop, even := s.even.(buffer := Put(s.even.buffer, f)))
      else s.(reader := if err then DisposeOdd else Loop, log := s.log + [f])
    case DisposeOdd => s.(reader := DisposeEven, odd := s.odd.(buffer := Dispose(s.odd.buffer)))
    case DisposeEven => s.(reader := Waiting2, even := s.even.(buffer := Dispose(s.even.buffer)))
    case Waiting2 => s.(reader := Waiting1, signals := s.signals - 1)
    case Waiting1 => s.(reader := Returned, signals := s.signals - 1)
  }

  /** loopReadBuffer: receive, dispatch, load; when the channel is closed, signal and end. */
  function WorkerNext(w: WorkerState): WorkerState {
    match w.pc
    case Receiving =>
      if w.buffer.channel != [] then WorkerState(Take(w.buffer), Dispatching(w.buffer.channel[0]))
      else w.(pc := Signalling)
    case Dispatching(_) => w.(pc := Loading)
    case Loading => WorkerState(Load(w.buffer), Receiving)
    case Signalling => w.(pc := Ended)
    case Ended => w
  }

  function Dispatched(w: WorkerState): seq<Frame> {
    if w.pc.Dispatching? then [w.pc.f] else []
  }

  // Runs

  ghost predicate Legal(s: State, run: seq<Action>)
    decreases |run|, 0
  {
    run == [] || (Legal(s, run[..|run|-1]) && Enabled(Exec(s, run[..|run|-1]), run[|run|-1]))
  }

  ghost function Exec(s: State, run: seq<Action>): State
    requires Legal(s, run)
    decreases |run|, 1
  {
    if run == [] then s else Apply(Exec(s, run[..|run|-1]), run[|run|-1])
  }

  // Lanes

  /** The frames of a lane, in order. */
  ghost function OfLane(frames: seq<Frame>, lane: nat): seq<Frame> {
    if frames == [] then []
    else OfLane(frames[..|frames|-1], lane) + if Lane(frames[|frames|-1]) == lane then [frames[|frames|-1]] else []
  }

  lemma {:induction false} OfLaneAppend(frames: seq<Frame>, f: Frame, lane: nat)
    ensures OfLane(frames + [f], lane) == OfLane(frames, lane) + if Lane(f) == lane then [f] else []
  {
    assert (frames + [f])[..|frames|] == frames;
  }

  /** What a worker has in hand, then what its buffer holds. */
  ghost function Queued(w: WorkerState): seq<Frame> {
    Dispatched(w) + Waiting(w.buffer)
  }

  ghost function InReader(r: Reader, lane: nat): seq<Frame> {
    if r.Routing? && Lane(r.f) == lane then [r.f] else []
  }

  ghost function Between(s: State, lane: nat): seq<Frame> {
    (if lane == 1 then Queued(s.odd) else if lane == 2 then Queued(s.even) else []) + InReader(s.reader, lane)
  }

  /** Dispatched, then on the way: together what was read, in order. */
  ghost predicate InOrder(s: State, lane: nat) {
    OfLane(s.log, lane) + Between(s, lane) == OfLane(s.read, lane)
  }

  ghost predicate WorkerOk(w: WorkerState, lane: nat) {
    && Ok(w.buffer, w.pc.Receiving? || w.pc.Signalling? || w.pc.Ended?)
    && (w.pc.Signalling? || w.pc.Ended? ==> w.buffer.channel == [] && !w.buffer.open)
    && (w.pc.Dispatching? ==> Lane(w.pc.f) == lane)
    && forall i :: 0 <= i < |Waiting(w.buffer)| ==> Lane(Waiting(w.buffer)[i]) == lane
  }

  ghost function EndedCount(s: State): nat {
    (if s.odd.pc.Ended? then 1 else 0) + if s.even.pc.Ended? then 1 else 0
  }

  ghost function Awaited(r: Reader): nat {
    if r.Waiting1? then 1 else if r.Returned? then 2 else 0
  }

  ghost predicate Inv(s: State) {
    && (forall lane :: 0 <= lane <= 2 ==> InOrder(s, lane))
    && WorkerOk(s.odd, 1) && WorkerOk(s.even, 2)
    && (s.odd.buffer.disposed <==> Leaving(s) && !s.reader.DisposeOdd?)
    && (s.even.buffer.disposed <==> s.reader.Waiting2? || s.reader.Waiting1? || s.reader.Returned?)
    && EndedCount(s) == s.signals + Awaited(s.reader)
    && s.signals <= 1
  }

  lemma WorkerKeeps(w: WorkerState, lane: nat, signals: nat)
    requires WorkerOk(w, lane) && WorkerReady(w, signals)
    ensures WorkerOk(WorkerNext(w), lane)
    ensures Queued(w) == Dispatched(w) + Queued(WorkerNext(w))
    ensures WorkerNext(w).buffer.disposed == w.buffer.disposed
  {
    match w.pc
    case Receiving =>
      if w.buffer.channel != [] {
        TakeOk(w.buffer, true);
        assert Lane(Waiting(w.buffer)[0]) == lane;
        forall i | 0 <= i < |Waiting(Take(w.buffer))|
          ensures Lane(Waiting(Take(w.buffer))[i]) == lane
        {
          assert Waiting(w.buffer)[i+1] == Waiting(Take(w.buffer))[i];
        }
      }
    case Loading => LoadOk(w.buffer);
    case _ =>
  }

  lemma RouteKeeps(w: WorkerState, lane: nat, f: Frame)
    requires WorkerOk(w, lane) && Lane(f) == lane && !w.buffer.disposed
    ensures WorkerOk(w.(buffer := Put(w.buffer, f)), lane)
    ensures Queued(w.(buffer := Put(w.buffer, f))) == Queued(w) + [f]
  {
    PutOk(w.buffer, w.pc.Receiving? || w.pc.Signalling? || w.pc.Ended?, f);
    assert Dispatched(w) + (Waiting(w.buffer) + [f]) == (Dispatched(w) + Waiting(w.buffer)) + [f];
  }

  lemma DisposeKeeps(w: WorkerState, lane: nat)
    requires WorkerOk(w, lane)
    ensures WorkerOk(w.(buffer := Dispose(w.buffer)), lane)
    ensures Queued(w.(buffer := Dispose(w.buffer))) == Queued(w)
  {
    DisposeOk(w.buffer, w.pc.Receiving? || w.pc.Signalling? || w.pc.Ended?);
  }

  /** A worker's step moves at most one frame from what is on the way to what is dispatched. */
  lemma {:induction false} LogGrows(log: seq<Frame>, w: WorkerState, mine: nat, lane: nat)
    requires w.pc.Dispatching? ==> Lane(w.pc.f) == mine
    ensures lane == mine ==> OfLane(log + Dispatched(w), lane) == OfLane(log, lane) + Dispatched(w)
    ensures lane != mine ==> OfLane(log + Dispatched(w), lane) == OfLane(log, lane)
  {
    if w.pc.Dispatching? {
      OfLaneAppend(log, w.pc.f, lane);
      assert OfLane(log, lane) + [] == OfLane(log, lane);
    } else {
      assert log + Dispatched(w) == log && OfLane(log, lane) + [] == OfLane(log, lane);
    }
  }

  lemma MoveAcross(log: seq<Frame>, moved: seq<Frame>, before: seq<Frame>, after: seq<Frame>, reader: seq<Frame>)
    requires before == moved + after
    ensures (log + moved) + (after + reader) == log + (before + reader)
  {
  }

  lemma OddOrder(s: State, err: bool, lane: nat)
    requires WorkerOk(s.odd, 1) && Enabled(s, OddStep(err)) && InOrder(s, lane)
    ensures InOrder(Apply(s, OddStep(err)), lane)
  {
    WorkerKeeps(s.odd, 1, s.signals);
    LogGrows(s.log, s.odd, 1, lane);
    if lane == 1 {
      MoveAcross(OfLane(s.log, 1), Dispatched(s.odd), Queued(s.odd), Queued(WorkerNext(s.odd)), InReader(s.reader, 1));
    }
  }

  lemma EvenOrder(s: State, err: bool, lane: nat)
    requires WorkerOk(s.even, 2) && Enabled(s, EvenStep(err)) && InOrder(s, lane)
    ensures InOrder(Apply(s, EvenStep(err)), lane)
  {
    WorkerKeeps(s.even, 2, s.signals);
    LogGrows(s.log, s.even, 2, lane);
    if lane == 2 {
      MoveAcross(OfLane(s.log, 2), Dispatched(s.even), Queued(s.even), Queued(WorkerNext(s.even)),
                 InReader(s.reader, 2));
    }
  }

  lemma OddKeeps(s: State, err: bool)
    requires Inv(s) && Enabled(s, OddStep(err))
    ensures Inv(Apply(s, OddStep(err)))
  {
    WorkerKeeps(s.odd, 1, s.signals);
    forall lane | 0 <= lane <= 2
      ensures InOrder(Apply(s, OddStep(err)), lane)
    {
      assert InOrder(s, lane);
      OddOrder(s, err, lane);
    }
  }

  lemma EvenKeeps(s: State, err: bool)
    requires Inv(s) && Enabled(s, EvenStep(err))
    ensures Inv(Apply(s, EvenStep(err)))
  {
    WorkerKeeps(s.even, 2, s.signals);
    forall lane | 0 <= lane <= 2
      ensures InOrder(Apply(s, EvenStep(err)), lane)
    {
      assert InOrder(s, lane);
      EvenOrder(s, err, lane);
    }
  }

  /** Routing a frame to a worker leaves what is on the way on each lane as it was. */
  lemma RouteToWorker(s: State, err: bool, lane: nat)
    requires WorkerOk(s.odd, 1) && WorkerOk(s.even, 2) && s.reader.Routing? && Lane(s.reader.f) != 0
    requires !s.odd.buffer.disposed && !s.even.buffer.disposed
    ensures Between(ReaderApply(s, err), lane) == Between(s, lane)
  {
    var f := s.reader.f;
    if Lane(f) == 1 {
      RouteKeeps(s.odd, 1, f);
    } else {
      RouteKeeps(s.even, 2, f);
    }
  }

  lemma DispatchZero(s: State, err: bool)
    requires s.reader.Routing? && Lane(s.reader.f) == 0 && InOrder(s, 0)
    ensures InOrder(ReaderApply(s, err), 0)
  {
    OfLaneAppend(s.log, s.reader.f, 0);
    assert Between(s, 0) == [s.reader.f];
    assert Between(ReaderApply(s, err), 0) == [];
  }

  lemma DispatchZeroElsewhere(s: State, err: bool, lane: nat)
    requires s.reader.Routing? && Lane(s.reader.f) == 0 && lane != 0 && InOrder(s, lane)
    ensures InOrder(ReaderApply(s, err), lane)
  {
    OtherLane(s.log, s.reader.f, lane);
    assert Between(ReaderApply(s, err), lane) == Between(s, lane);
  }

  lemma {:induction false} OtherLane(frames: seq<Frame>, f: Frame, lane: nat)
    requires Lane(f) != lane
    ensures OfLane(frames + [f], lane) == OfLane(frames, lane)
  {
    OfLaneAppend(frames, f, lane);
    assert OfLane(frames, lane) + [] == OfLane(frames, lane);
  }

  lemma ReaderOrder(s: State, err: bool, lane: nat)
    requires WorkerOk(s.odd, 1) && WorkerOk(s.even, 2) && InOrder(s, lane) && Enabled(s, ReaderStep(err))
    requires s.reader.Routing? ==> !s.odd.buffer.disposed && !s.even.buffer.disposed
    ensures InOrder(ReaderApply(s, err), lane)
  {
    match s.reader
    case Routing(f) =>
      if Lane(f) != 0 {
        RouteToWorker(s, err, lane);
      } else if lane == 0 {
        DispatchZero(s, err);
      } else {
        DispatchZeroElsewhere(s, err, lane);
      }
    case DisposeOdd => DisposeKeeps(s.odd, 1);
    case DisposeEven => DisposeKeeps(s.even, 2);
    case _ =>
  }

  lemma ReaderKeeps(s: State, err: bool)
    requires Inv(s) && Enabled(s, ReaderStep(err))
    ensures Inv(ReaderApply(s, err))
  {
    forall lane | 0 <= lane <= 2
      ensures InOrder(ReaderApply(s, err), lane)
    {
      assert InOrder(s, lane);
      ReaderOrder(s, err, lane);
    }
    ReaderKeepsWorkers(s, err);
  }

  lemma ReaderKeepsWorkers(s: State, err: bool)
    requires WorkerOk(s.odd, 1) && WorkerOk(s.even, 2) && Enabled(s, ReaderStep(err))
    requires s.reader.Routing? ==> !s.odd.buffer.disposed && !s.even.buffer.disposed
    ensures WorkerOk(ReaderApply(s, err).odd, 1) && WorkerOk(ReaderApply(s, err).even, 2)
  {
    match s.reader
    case Routing(f) =>
      if Lane(f) == 1 {
        RouteKeeps(s.odd, 1, f);
      } else if Lane(f) == 2 {
        RouteKeeps(s.even, 2, f);
      }
    case DisposeOdd => DisposeKeeps(s.odd, 1);
    case DisposeEven => DisposeKeeps(s.even, 2);
    case _ =>
  }

  lemma ReadOrder(s: State, f: Frame, lane: nat)
    requires InOrder(s, lane) && s.reader.Reading?
    ensures InOrder(s.(reader := Routing(f), read := s.read + [f]), lane)
  {
    OfLaneAppend(s.read, f, lane);
    var mine := if Lane(f) == lane then [f] else [];
    assert Between(s, lane) + [] == Between(s, lane);
    assert OfLane(s.log, lane) + (Between(s, lane) + mine) == (OfLane(s.log, lane) + Between(s, lane)) + mine;
  }

  lemma ReadKeeps(s: State, f: Frame)
    requires Inv(s) && Enabled(s, Read(f))
    ensures Inv(Apply(s, Read(f)))
  {
    forall lane | 0 <= lane <= 2
      ensures InOrder(Apply(s, Read(f)), lane)
    {
      assert InOrder(s, lane);
      ReadOrder(s, f, lane);
    }
  }

  lemma ActionKeepsInv(s: State, a: Action)
    requires Inv(s) && Enabled(s, a)
    ensures Inv(Apply(s, a))
  {
    match a
    case Read(f) => ReadKeeps(s, f);
    case ReaderStep(err) => ReaderKeeps(s, err);
    case OddStep(err) => OddKeeps(s, err);
    case EvenStep(err) => EvenKeeps(s, err);
    case _ =>
      forall lane | 0 <= lane <= 2
        ensures InOrder(Apply(s, a), lane)
      {
        assert InOrder(s, lane);
      }
  }

  lemma {:induction false} RunKeepsInv(run: seq<Action>)
    requires Legal(Init(), run)
    ensures Inv(Exec(Init(), run))
  {
    if run != [] {
      RunKeepsInv(run[..|run|-1]);
      ActionKeepsInv(Exec(Init(), run[..|run|-1]), run[|run|-1]);
    }
  }

  // Results

  /** The frames of one stream, in order. */
  ghost function OfStream(frames: seq<Frame>, sid: nat): seq<Frame> {
    if frames == [] then []
    else OfStream(frames[..|frames|-1], sid) + if frames[|frames|-1].sid == sid then [frames[|frames|-1]] else []
  }

  lemma {:induction false} OfStreamAppend(frames: seq<Frame>, f: Frame, sid: nat)
    ensures OfStream(frames + [f], sid) == OfStream(frames, sid) + if f.sid == sid then [f] else []
  {
    assert (frames + [f])[..|frames|] == frames;
  }

  lemma {:induction false} StreamWithinLane(frames: seq<Frame>, sid: nat)
    ensures OfStream(frames, sid) == OfStream(OfLane(frames, Lane(Frame(sid, 0))), sid)
    decreases |frames|
  {
    if frames != [] {
      var f, init, lane := frames[|frames|-1], frames[..|frames|-1], Lane(Frame(sid, 0));
      StreamWithinLane(init, sid);
      if Lane(f) == lane {
        OfStreamAppend(OfLane(init, lane), f, sid);
      } else {
        assert OfLane(init, lane) + [] == OfLane(init, lane);
      }
    }
  }

  /**
   At any moment and under any schedule, what has been dispatched on a lane is a prefix of what has
   been read on it: nothing is dispatched twice, out of order, or without having been read.
   */
  lemma {:induction false} DispatchedInOrder(run: seq<Action>, lane: nat)
    requires Legal(Init(), run) && lane <= 2
    ensures OfLane(Exec(Init(), run).log, lane) <= OfLane(Exec(Init(), run).read, lane)
  {
    RunKeepsInv(run);
    assert InOrder(Exec(Init(), run), lane);
  }

  /**
   When Start returns, on whatever ground, every frame that was read has been dispatched exactly once,
   and the frames of each stream in the order of their arrival.
   */
  lemma {:induction false} AllDispatchedOnReturn(run: seq<Action>, sid: nat)
    requires Legal(Init(), run) && Exec(Init(), run).reader.Returned?
    ensures OfLane(Exec(Init(), run).log, Lane(Frame(sid, 0))) == OfLane(Exec(Init(), run).read, Lane(Frame(sid, 0)))
    ensures OfStream(Exec(Init(), run).log, sid) == OfStream(Exec(Init(), run).read, sid)
  {
    RunKeepsInv(run);
    var s := Exec(Init(), run);
    var lane := Lane(Frame(sid, 0));
    assert InOrder(s, lane);
    assert Between(s, lane) == [];
    StreamWithinLane(s.log, sid);
    StreamWithinLane(s.read, sid);
  }

  /** Each worker dispatches the streams of its own parity, and none of them stream 0. */
  lemma {:induction false} WorkersByParity(run: seq<Action>)
    requires Legal(Init(), run)
    ensures var s := Exec(Init(), run);
            && (s.odd.pc.Dispatching? ==> s.odd.pc.f.sid % 2 == 1)
            && (s.even.pc.Dispatching? ==> s.even.pc.f.sid % 2 == 0 && s.even.pc.f.sid != 0)
  {
    RunKeepsInv(run);
  }

  // What ends the reading

  /** A handler called by one of the two workers returns an error. */
  predicate WorkerFails(s: State, a: Action) {
    (a == OddStep(true) && s.odd.pc.Dispatching?) || (a == EvenStep(true) && s.even.pc.Dispatching?)
  }

  /** What tells the reader to stop at its next check. */
  predicate Stops(s: State, a: Action) {
    a.Cancel? || WorkerFails(s, a)
  }

  /** What makes the reader leave at once: the end of the input, or a failing handler of stream 0. */
  predicate EndsAtOnce(s: State, a: Action) {
    a.ReadEnds? || (a == ReaderStep(true) && s.reader.Routing? && s.reader.f.sid == 0)
  }

  ghost predicate EverStops(s: State, run: seq<Action>)
    requires Legal(s, run)
  {
    run != [] && (EverStops(s, run[..|run|-1]) || Stops(Exec(s, run[..|run|-1]), run[|run|-1]))
  }

  ghost predicate EverEnds(s: State, run: seq<Action>)
    requires Legal(s, run)
  {
    run != [] && (EverEnds(s, run[..|run|-1]) || EndsAtOnce(Exec(s, run[..|run|-1]), run[|run|-1]))
  }

  lemma {:induction false} FlagsTellStops(run: seq<Action>)
    requires Legal(Init(), run)
    ensures Exec(Init(), run).cancelled || Exec(Init(), run).failed <==> EverStops(Init(), run)
  {
    if run != [] {
      FlagsTellStops(run[..|run|-1]);
    }
  }

  /**
   After a cancellation or a failing handler of a worker, the reader at its check does not read but
   leaves; without one it goes on to read.
   */
  lemma {:induction false} StopsAreSeen(run: seq<Action>, err: bool)
    requires Legal(Init(), run) && Exec(Init(), run).reader.Loop?
    ensures var s := Exec(Init(), run);
            && !Enabled(s, ReadEnds) && (forall f :: !Enabled(s, Read(f)))
            && Enabled(s, ReaderStep(err))
            && (if EverStops(Init(), run) then Leaving(Apply(s, ReaderStep(err)))
                else Apply(s, ReaderStep(err)).reader.Reading?)
  {
    FlagsTellStops(run);
  }

  /**
   The reader has left its loop only if the input ended, a handler of stream 0 failed, a handler of a
   worker failed, or the context was cancelled; and after the first two it has always left.
   */
  lemma {:induction false} LeavesOnlyWithGround(run: seq<Action>)
    requires Legal(Init(), run)
    ensures Leaving(Exec(Init(), run)) ==> EverEnds(Init(), run) || EverStops(Init(), run)
    ensures EverEnds(Init(), run) ==> Leaving(Exec(Init(), run))
  {
    if run != [] {
      FlagsTellStops(run[..|run|-1]);
      LeavesOnlyWithGround(run[..|run|-1]);
    }
  }

  /** Once told to stop, the reader reads at most the one frame for which it is already waiting. */
  lemma {:induction false} OneMoreReadAtMost(run: seq<Action>, k: nat)
    requires Legal(Init(), run) && k <= |run| && Legal(Init(), run[..k]) && EverStops(Init(), run[..k])
    ensures EverStops(Init(), run)
    ensures |Exec(Init(), run).read| + Pending(Exec(Init(), run))
         <= |Exec(Init(), run[..k]).read| + Pending(Exec(Init(), run[..k]))
    decreases |run|
  {
    if k < |run| {
      assert run[..|run|-1][..k] == run[..k];
      OneMoreReadAtMost(run[..|run|-1], k);
      FlagsTellStops(run[..|run|-1]);
      ReadsNoMore(Exec(Init(), run[..|run|-1]), run[|run|-1]);
    } else {
      assert run[..k] == run;
    }
  }

  lemma ReadsNoMore(s: State, a: Action)
    requires Enabled(s, a) && (s.cancelled || s.failed)
    ensures |Apply(s, a).read| + Pending(Apply(s, a)) <= |s.read| + Pending(s)
  {
  }

  /** The reads under way. */
  ghost function Pending(s: State): nat {
    if s.reader.Reading? then 1 else 0
  }

  // Start does return

  function WorkerRank(w: WorkerState): nat {
    3 * (|w.buffer.channel| + |w.buffer.backlog|) +
    match w.pc
    case Ended => 0
    case Signalling => 1
    case Receiving => 2
    case Loading => 3
    case Dispatching(_) => 4
  }

  function ReaderRank(r: Reader): nat {
    match r
    case Returned => 0
    case Waiting1 => 1
    case Waiting2 => 2
    case DisposeEven => 3
    case DisposeOdd => 4
    case Loop => 5
    case Reading => 5
    case Routing(_) => 5
  }

  function Rank(s: State): nat {
    ReaderRank(s.reader) + WorkerRank(s.odd) + WorkerRank(s.even)
  }

  /** The reader has left its loop: the context was cancelled, a handler failed, or reading ended. */
  predicate Leaving(s: State) {
    !s.reader.Loop? && !s.reader.Reading? && !s.reader.Routing?
  }

  /** Once the reader has left its loop, every step but a cancellation brings the return closer. */
  lemma RankFalls(s: State, a: Action)
    requires Inv(s) && Enabled(s, a) && Leaving(s) && !a.Cancel?
    ensures Leaving(Apply(s, a)) && Rank(Apply(s, a)) < Rank(s)
  {
    match a
    case OddStep(_) => StepRank(s.odd, 1, s.signals);
    case EvenStep(_) => StepRank(s.even, 2, s.signals);
    case _ =>
  }

  lemma StepRank(w: WorkerState, lane: nat, signals: nat)
    requires WorkerOk(w, lane) && WorkerReady(w, signals)
    ensures WorkerRank(WorkerNext(w)) < WorkerRank(w)
  {
  }

  /** And until it has returned some step is possible: reader and workers cannot wait for each other. */
  lemma {:induction false} NeverStuck(run: seq<Action>)
    requires Legal(Init(), run)
    requires Leaving(Exec(Init(), run)) && !Exec(Init(), run).reader.Returned?
    ensures exists a: Action :: !a.Cancel? && Enabled(Exec(Init(), run), a)
  {
    RunKeepsInv(run);
    var s := Exec(Init(), run);
    if s.signals > 0 || s.reader.DisposeOdd? || s.reader.DisposeEven? {
      assert Enabled(s, ReaderStep(false));
    } else if !s.odd.pc.Ended? {
      assert Enabled(s, OddStep(false));
    } else {
      assert !s.even.pc.Ended?;
      assert Enabled(s, EvenStep(false));
    }
  }
}
