/**
 The life of a frame given to sendFrame, as a step machine over any number of senders, the write
 loop, the closer and the transport.

 Done is what releases a frame's resources and wakes its owner. Between sendFrame and Done a frame
 is in exactly one place: with its sender, in the send queue, with the write loop, or in the
 backlog. A step performs one access to the shared fields; sends succeed or fail at will, and the
 transport comes and goes at will.
 */
module SendLifecycle {

  type FrameId = nat

  const OUT_CHAN_SIZE := 64

  datatype Sender = Checking | Pushing

  datatype Writer =
    | NotStarted
    | LoopTop
    | CheckReady
    | EnterWait                       // ready was false; the lock is not taken yet
    | Waiting                         // in cond.Wait
    | CheckContext
    | BacklogStart
    | BacklogSend(i: nat)
    | DrainStart
    | Receive(left: nat)
    | Got(f: FrameId, left: nat)       // left == 0: taken by the select of the keepalive loop
    | Sending(f: FrameId, left: nat)
    | Select
    | Ending
    | Ended

  datatype Closer =
    | NotClosing
    | CloseQueue
    | Broadcast
    | ReadWriteDone
    | WaitWriter
    | DestroyQueue
    | DestroyBacklog(i: nat)
    | Closed

  datatype WriteDone = Nil | Open | Finished

  /** The frames by where they are, and the calls of Done so far, in order. */
  datatype Frames = Frames(queue: seq<FrameId>, backlog: seq<FrameId>, done: seq<FrameId>, lost: seq<FrameId>)

  datatype State = State(
    keepalive: bool,                   // whether the write loop is the one with a keepaliver
    submitted: set<FrameId>,           // every frame ever handed to sendFrame, and lease frames
    senders: map<FrameId, Sender>,     // the sendFrame calls in progress
    closed: bool,
    queueClosed: bool,
    ready: bool,
    setters: nat,                      // SetTransport calls that have set ready and not yet the transport
    hasTransport: bool,
    writeDone: WriteDone,
    writer: Writer,
    closer: Closer,
    frames: Frames)

  datatype Action =
    | Submit(f: FrameId)
    | SenderStep(f: FrameId)
    | MarkReady                        // SetTransport: the CAS on ready, then transport and Signal
    | SetTransport
    | ClearTransport
    | StartWriter
    | WriterStep(ok: bool)             // ok: the send succeeds, the context is live, a tick is not taken
    | LeaseArrives(f: FrameId)
    | LeaseEnds
    | CloserStep

  function Init(keepalive: bool): State {
    State(keepalive, {}, map[], false, false, false, 0, false, Nil, NotStarted, NotClosing, Frames([], [], [], []))
  }

  predicate CanReceive(s: State) {
    s.frames.queue != [] || s.queueClosed
  }

  predicate WriterReady(s: State, ok: bool) {
    match s.writer
    case NotStarted => false
    case Ended => false
    case Waiting => false
    case Receive(_) => CanReceive(s)
    case Select => !ok || CanReceive(s)
    case _ => true
  }

  predicate Enabled(s: State, a: Action) {
    match a
    case Submit(f) => f !in s.submitted
    case SenderStep(f) =>
      f in s.senders && (s.senders[f].Pushing? ==> s.queueClosed || |s.frames.queue| < OUT_CHAN_SIZE)
    case MarkReady => !s.ready
    case SetTransport => s.setters > 0
    case ClearTransport => true
    case StartWriter => s.writer.NotStarted?
    case WriterStep(ok) => WriterReady(s, ok)
    case LeaseArrives(f) => f !in s.submitted && (s.writer.Receive? || s.writer.Select?)
    case LeaseEnds => s.writer.Receive? || s.writer.Select?
    case CloserStep => !s.closer.Closed? && (s.closer.WaitWriter? ==> s.writeDone.Finished?)
  }

  function Apply(s: State, a: Action): State
    requires Enabled(s, a)
  {
    match a
    case Submit(f) => s.(submitted := s.submitted + {f}, senders := s.senders[f := Checking])
    case SenderStep(f) => s.(senders := SenderNext(s, f), frames := SenderEffect(s, f))
    case MarkReady => s.(ready := true, setters := s.setters + 1)
    case SetTransport => s.(hasTransport := true, setters := s.setters - 1, writer := Woken(s.writer))
    case ClearTransport => s.(hasTransport := false, ready := false)
    case StartWriter => s.(writer := LoopTop, writeDone := Open)
    case WriterStep(ok) =>
      s.(writer := WriterNext(s, ok), frames := WriterEffect(s, ok),
         writeDone := if s.writer.Ending? then Finished else s.writeDone)
    case LeaseArrives(f) =>
      s.(submitted := s.submitted + {f}, writer := Got(f, if s.writer.Receive? then s.writer.left else 0))
    case LeaseEnds => s.(writer := Ending)
    case CloserStep =>
      s.(closer := CloserNext(s), frames := CloserEffect(s),
         writer := if s.closer.Broadcast? then Woken(s.writer) else s.writer,
         closed := true, queueClosed := s.queueClosed || s.closer.CloseQueue?)
  }

  /** Signal and Broadcast: only a loop that is already waiting notices. */
  function Woken(w: Writer): Writer {
    if w.Waiting? then CheckContext else w
  }

  /** Done. */
  function Settle(frames: Frames, f: FrameId): Frames {
    frames.(done := frames.done + [f])
  }

  // sendFrame: check closed, then push; a push on a closed queue panics and is recovered

  function SenderNext(s: State, f: FrameId): map<FrameId, Sender>
    requires f in s.senders
  {
    if s.senders[f].Checking? && !s.closed then s.senders[f := Pushing] else s.senders - {f}
  }

  function SenderEffect(s: State, f: FrameId): Frames
    requires f in s.senders
  {
    if s.senders[f].Checking? then (if s.closed then Settle(s.frames, f) else s.frames)
    else if s.queueClosed then Settle(s.frames, f)
    else s.frames.(queue := s.frames.queue + [f])
  }

  // The write loop

  /** Where the write loop goes after one frame of a drain. */
  function AfterOne(s: State, left: nat): Writer {
    if left == 0 then LoopTop
    else if left > 1 then Receive(left - 1)
    else if s.keepalive then Select else LoopTop
  }

  function WriterNext(s: State, ok: bool): Writer
    requires WriterReady(s, ok)
  {
    match s.writer
    case LoopTop => if s.closed then Ending else CheckReady
    case CheckReady => if s.ready then CheckContext else EnterWait
    case EnterWait => Waiting
    case CheckContext => if ok then BacklogStart else Ending
    case BacklogStart => if s.frames.backlog == [] || !s.hasTransport then DrainStart else BacklogSend(0)
    case BacklogSend(i) => if i < |s.frames.backlog| then BacklogSend(i + 1) else DrainStart
    case DrainStart =>
      if s.frames.queue != [] then Receive(|s.frames.queue|) else if s.keepalive then Select else Receive(1)
    case Receive(left) =>
      if s.frames.queue != [] then Got(s.frames.queue[0], left) else if s.keepalive then Select else Ending
    case Select =>
      if !ok then LoopTop else if s.frames.queue != [] then Got(s.frames.queue[0], 0) else Ending
    case Got(f, left) => if s.hasTransport then Sending(f, left) else AfterOne(s, left)
    case Sending(f, left) => AfterOne(s, left)
    case Ending => Ended
  }

  function WriterEffect(s: State, ok: bool): Frames {
    match s.writer
    case BacklogStart => if s.hasTransport then s.frames else Drop(s.frames)
    case BacklogSend(i) =>
      if i < |s.frames.backlog| then Settle(s.frames, s.frames.backlog[i])  // by Send, or after Send has failed
      else s.frames.(backlog := [])
    case Receive(_) => Take(s.frames)
    case Select => if ok then Take(s.frames) else s.frames
    case Got(f, _) => if s.hasTransport then s.frames else s.frames.(backlog := s.frames.backlog + [f])
    case Sending(f, _) => if ok then Settle(s.frames, f) else s.frames.(backlog := s.frames.backlog + [f])
    case _ => s.frames
  }

  function Take(frames: Frames): Frames {
    if frames.queue == [] then frames else frames.(queue := frames.queue[1..])
  }

  /** drainBacklog with a nil transport: the backlog is emptied all the same. */
  function Drop(frames: Frames): Frames {
    frames.(lost := frames.lost + frames.backlog, backlog := [])
  }

  predicate Drops(s: State, a: Action) {
    a.WriterStep? && s.writer.BacklogStart? && s.frames.backlog != [] && !s.hasTransport
  }

  // Close, for the caller that sets closed; the others return at once

  function CloserNext(s: State): Closer
    requires Enabled(s, CloserStep)
  {
    match s.closer
    case NotClosing => CloseQueue
    case CloseQueue => Broadcast
    case Broadcast => ReadWriteDone
    case ReadWriteDone => if s.writeDone.Nil? then DestroyQueue else WaitWriter
    case WaitWriter => DestroyQueue
    case DestroyQueue => if s.frames.queue != [] then DestroyQueue else DestroyBacklog(0)
    case DestroyBacklog(i) => if i < |s.frames.backlog| then DestroyBacklog(i + 1) else Closed
  }

  function CloserEffect(s: State): Frames {
    match s.closer
    case DestroyQueue =>
      if s.frames.queue != [] then Take(Settle(s.frames, s.frames.queue[0])) else s.frames
    case DestroyBacklog(i) =>
      if i < |s.frames.backlog| then Settle(s.frames, s.frames.backlog[i]) else s.frames.(backlog := [])
    case _ => s.frames
  }

  // Runs

  ghost predicate Legal(s: State, run: seq<Action>)
    decreases |run|, 0
  {
    run == [] || (Legal(s, run[..|run|-1]) && Enabled(Exec(s, run[..|run|-1]), run[|run|-1]))
  }

  ghost function Exec(s: State, run: seq<Action>): State
    requires Legal(s, run)
    decreases |run|, 1
  {
    if run == [] then s else Apply(Exec(s, run[..|run|-1]), run[|run|-1])
  }

  /** Somewhere in the run drainBacklog met a nil transport with frames in the backlog. */
  ghost predicate EverDrops(s: State, run: seq<Action>)
    requires Legal(s, run)
  {
    run != [] && (EverDrops(s, run[..|run|-1]) || Drops(Exec(s, run[..|run|-1]), run[|run|-1]))
  }

  // Where a frame is

  /** How often f occurs in q. */
  ghost function Occ(q: seq<FrameId>, f: FrameId): nat {
    if q == [] then 0 else (if q[0] == f then 1 else 0) + Occ(q[1..], f)
  }

  ghost function One(b: bool): nat {
    if b then 1 else 0
  }

  lemma {:induction false} OccConcat(p: seq<FrameId>, q: seq<FrameId>, f: FrameId)
    ensures Occ(p + q, f) == Occ(p, f) + Occ(q, f)
  {
    if p == [] {
      assert p + q == q;
    } else {
      OccConcat(p[1..], q, f);
      assert (p + q)[1..] == p[1..] + q;
    }
  }

  lemma {:induction false} OccAppend(q: seq<FrameId>, x: FrameId, f: FrameId)
    ensures Occ(q + [x], f) == Occ(q, f) + One(x == f)
  {
    OccConcat(q, [x], f);
    assert [x][1..] == [];
  }

  lemma {:induction false} OccSuffix(q: seq<FrameId>, i: nat, f: FrameId)
    requires i < |q|
    ensures Occ(q[i..], f) == One(q[i] == f) + Occ(q[i+1..], f)
  {
    assert q[i..][1..] == q[i+1..];
  }

  lemma {:induction false} OccPositive(q: seq<FrameId>)
    requires q != []
    ensures Occ(q, q[0]) > 0
  {
  }

  /** How many frames at the front of the backlog have had their Done already. */
  ghost function SettledPrefix(w: Writer, c: Closer): nat {
    if w.BacklogSend? then w.i else if c.DestroyBacklog? then c.i else 0
  }

  ghost predicate PrefixOk(s: State) {
    SettledPrefix(s.writer, s.closer) <= |s.frames.backlog|
  }

  ghost predicate Held(w: Writer, f: FrameId) {
    (w.Got? || w.Sending?) && w.f == f
  }

  /** f in queue, waiting backlog, done or lost. */
  ghost function Stored(frames: Frames, prefix: nat, f: FrameId): nat
    requires prefix <= |frames.backlog|
  {
    Occ(frames.queue, f) + Occ(frames.backlog[prefix..], f) + Occ(frames.done, f) + Occ(frames.lost, f)
  }

  /** A frame handed in is in one place, or has had its Done, or is lost; any other is nowhere. */
  ghost predicate Accounted(s: State, f: FrameId)
    requires PrefixOk(s)
  {
    One(f in s.senders) + One(Held(s.writer, f)) + Stored(s.frames, SettledPrefix(s.writer, s.closer), f)
      == One(f in s.submitted)
  }

  /** The write loop has ended or is about to, and will not touch queue or backlog again. */
  ghost predicate Quiet(s: State) {
    s.closed && (s.writer.NotStarted? || s.writer.LoopTop? || s.writer.Ending? || s.writer.Ended?)
  }

  ghost predicate Destroying(c: Closer) {
    c.DestroyQueue? || c.DestroyBacklog? || c.Closed?
  }

  ghost predicate Coordinated(s: State) {
    && (s.closed <==> !s.closer.NotClosing?)
    && (s.queueClosed <==> !s.closer.NotClosing? && !s.closer.CloseQueue?)
    && (s.writeDone.Nil? <==> s.writer.NotStarted?)
    && (s.writeDone.Finished? <==> s.writer.Ended?)
    && (Destroying(s.closer) ==> Quiet(s))
    && (s.writer.Receive? ==> s.writer.left > 0)
    && (s.closer.WaitWriter? ==> !s.writeDone.Nil?)
  }

  ghost predicate EmptiedUpTo(c: Closer, frames: Frames) {
    && (c.DestroyBacklog? ==> c.i <= |frames.backlog| && frames.queue == [])
    && (c.Closed? ==> frames.queue == [] && frames.backlog == [])
  }

  ghost predicate Inv(s: State, f: FrameId) {
    && Coordinated(s)
    && EmptiedUpTo(s.closer, s.frames)
    && (s.writer.BacklogSend? ==> s.writer.i <= |s.frames.backlog|)
    && PrefixOk(s)
    && Accounted(s, f)
    && s.senders.Keys <= s.submitted
  }

  // Each part of a step

  lemma SenderAccount(s: State, g: FrameId, f: FrameId)
    requires Inv(s, f) && Enabled(s, SenderStep(g))
    ensures One(f in SenderNext(s, g)) + Stored(SenderEffect(s, g), SettledPrefix(s.writer, s.closer), f)
         == One(f in s.senders) + Stored(s.frames, SettledPrefix(s.writer, s.closer), f)
  {
    OccAppend(s.frames.done, g, f);
    OccAppend(s.frames.queue, g, f);
  }

  /** Taking a frame off the front of the queue. */
  lemma TakeAccount(frames: Frames, prefix: nat, f: FrameId)
    requires frames.queue != [] && prefix <= |frames.backlog|
    ensures Stored(Take(frames), prefix, f) + One(frames.queue[0] == f) == Stored(frames, prefix, f)
  {
  }

  lemma SettleAccount(frames: Frames, prefix: nat, g: FrameId, f: FrameId)
    requires prefix <= |frames.backlog|
    ensures Stored(Settle(frames, g), prefix, f) == Stored(frames, prefix, f) + One(g == f)
  {
    OccAppend(frames.done, g, f);
  }

  /** Done for the next frame of the backlog. */
  lemma PrefixAccount(frames: Frames, i: nat, f: FrameId)
    requires i < |frames.backlog|
    ensures Stored(Settle(frames, frames.backlog[i]), i + 1, f) == Stored(frames, i, f)
  {
    SettleAccount(frames, i + 1, frames.backlog[i], f);
    OccSuffix(frames.backlog, i, f);
  }

  lemma ClearAccount(frames: Frames, f: FrameId)
    ensures Stored(frames.(backlog := []), 0, f) == Stored(frames, |frames.backlog|, f)
  {
    assert frames.backlog[|frames.backlog|..] == [];
  }

  lemma DropAccount(frames: Frames, f: FrameId)
    ensures Stored(Drop(frames), 0, f) == Stored(frames, 0, f)
  {
    assert frames.backlog[0..] == frames.backlog;
    OccConcat(frames.lost, frames.backlog, f);
  }

  lemma KeepAccount(frames: Frames, g: FrameId, f: FrameId)
    ensures Stored(frames.(backlog := frames.backlog + [g]), 0, f) == Stored(frames, 0, f) + One(g == f)
  {
    assert frames.backlog[0..] == frames.backlog && (frames.backlog + [g])[0..] == frames.backlog + [g];
    OccAppend(frames.backlog, g, f);
  }

  /** The part of the write loop that works on the backlog. */
  lemma BacklogAccount(s: State, ok: bool, f: FrameId)
    requires s.writer.BacklogStart? || s.writer.BacklogSend? || s.writer.Got? || s.writer.Sending?
    requires !Destroying(s.closer) && PrefixOk(s)
    ensures SettledPrefix(WriterNext(s, ok), s.closer) <= |WriterEffect(s, ok).backlog|
    ensures One(Held(WriterNext(s, ok), f)) + Stored(WriterEffect(s, ok), SettledPrefix(WriterNext(s, ok), s.closer), f)
         == One(Held(s.writer, f)) + Stored(s.frames, SettledPrefix(s.writer, s.closer), f)
  {
    match s.writer
    case BacklogStart => DropAccount(s.frames, f);
    case BacklogSend(i) =>
      if i < |s.frames.backlog| {
        PrefixAccount(s.frames, i, f);
      } else {
        ClearAccount(s.frames, f);
      }
    case Got(g, _) => KeepAccount(s.frames, g, f);
    case Sending(g, _) =>
      KeepAccount(s.frames, g, f);
      SettleAccount(s.frames, 0, g, f);
  }

  lemma WriterAccount(s: State, ok: bool, f: FrameId)
    requires !Destroying(s.closer) && PrefixOk(s) && WriterReady(s, ok)
    ensures SettledPrefix(WriterNext(s, ok), s.closer) <= |WriterEffect(s, ok).backlog|
    ensures One(Held(WriterNext(s, ok), f)) + Stored(WriterEffect(s, ok), SettledPrefix(WriterNext(s, ok), s.closer), f)
         == One(Held(s.writer, f)) + Stored(s.frames, SettledPrefix(s.writer, s.closer), f)
  {
    if s.writer.BacklogStart? || s.writer.BacklogSend? || s.writer.Got? || s.writer.Sending? {
      BacklogAccount(s, ok, f);
    } else if s.frames.queue != [] {
      TakeAccount(s.frames, 0, f);
    }
  }

  lemma CloserAccount(s: State, f: FrameId)
    requires Inv(s, f) && Enabled(s, CloserStep)
    ensures SettledPrefix(s.writer, CloserNext(s)) <= |CloserEffect(s).backlog|
    ensures Stored(CloserEffect(s), SettledPrefix(s.writer, CloserNext(s)), f)
         == Stored(s.frames, SettledPrefix(s.writer, s.closer), f)
  {
    match s.closer
    case DestroyQueue =>
      if s.frames.queue != [] {
        SettleAccount(s.frames, 0, s.frames.queue[0], f);
        TakeAccount(Settle(s.frames, s.frames.queue[0]), 0, f);
      }
    case DestroyBacklog(i) =>
      if i < |s.frames.backlog| {
        PrefixAccount(s.frames, i, f);
      } else {
        ClearAccount(s.frames, f);
      }
    case _ =>
  }

  // Steps

  lemma WriterKeeps(s: State, ok: bool, f: FrameId)
    requires Inv(s, f) && WriterReady(s, ok)
    ensures Inv(Apply(s, WriterStep(ok)), f)
  {
    if !Destroying(s.closer) {
      WriterAccount(s, ok, f);
    }
  }

  lemma CloserCoordinates(s: State)
    requires Coordinated(s) && EmptiedUpTo(s.closer, s.frames) && Enabled(s, CloserStep)
    ensures Coordinated(Apply(s, CloserStep))
    ensures EmptiedUpTo(CloserNext(s), CloserEffect(s))
  {
  }

  lemma CloserKeeps(s: State, f: FrameId)
    requires Inv(s, f) && Enabled(s, CloserStep)
    ensures Inv(Apply(s, CloserStep), f)
  {
    CloserCoordinates(s);
    CloserAccount(s, f);
  }

  lemma SenderKeeps(s: State, g: FrameId, f: FrameId)
    requires Inv(s, f) && Enabled(s, SenderStep(g))
    ensures Inv(Apply(s, SenderStep(g)), f)
  {
    SenderAccount(s, g, f);
  }

  lemma SubmitKeeps(s: State, g: FrameId, f: FrameId)
    requires Inv(s, f) && Enabled(s, Submit(g))
    ensures Inv(Apply(s, Submit(g)), f)
  {
  }

  lemma LeaseKeeps(s: State, g: FrameId, f: FrameId)
    requires Inv(s, f) && Enabled(s, LeaseArrives(g))
    ensures Inv(Apply(s, LeaseArrives(g)), f)
  {
  }

  lemma WakeKeeps(s: State, f: FrameId)
    requires Inv(s, f) && Enabled(s, SetTransport)
    ensures Inv(Apply(s, SetTransport), f)
  {
  }

  lemma OtherKeeps(s: State, a: Action, f: FrameId)
    requires Inv(s, f) && Enabled(s, a) && !a.WriterStep? && !a.CloserStep? && !a.SenderStep?
    ensures Inv(Apply(s, a), f)
  {
    match a
    case Submit(g) => SubmitKeeps(s, g, f);
    case LeaseArrives(g) => LeaseKeeps(s, g, f);
    case SetTransport => WakeKeeps(s, f);
    case _ =>
  }

  lemma ActionKeepsInv(s: State, a: Action, f: FrameId)
    requires Inv(s, f) && Enabled(s, a)
    ensures Inv(Apply(s, a), f)
  {
    match a
    case SenderStep(g) => SenderKeeps(s, g, f);
    case WriterStep(ok) => WriterKeeps(s, ok, f);
    case CloserStep => CloserKeeps(s, f);
    case _ => OtherKeeps(s, a, f);
  }

  lemma {:induction false} RunKeepsInv(keepalive: bool, run: seq<Action>, f: FrameId)
    requires Legal(Init(keepalive), run)
    ensures Inv(Exec(Init(keepalive), run), f)
  {
    if run != [] {
      RunKeepsInv(keepalive, run[..|run|-1], f);
      ActionKeepsInv(Exec(Init(keepalive), run[..|run|-1]), run[|run|-1], f);
    }
  }

  // Results

  /** In every run no frame has Done called twice, and none that was not handed in. */
  lemma {:induction false} DoneAtMostOnce(keepalive: bool, run: seq<Action>, f: FrameId)
    requires Legal(Init(keepalive), run)
    ensures Occ(Exec(Init(keepalive), run).frames.done, f) <= One(f in Exec(Init(keepalive), run).submitted)
  {
    RunKeepsInv(keepalive, run, f);
  }

  /** Close and the write loop never work on the queue or the backlog at the same time. */
  lemma {:induction false} NoSharedTeardown(keepalive: bool, run: seq<Action>)
    requires Legal(Init(keepalive), run) && Destroying(Exec(Init(keepalive), run).closer)
    ensures Quiet(Exec(Init(keepalive), run))
  {
    RunKeepsInv(keepalive, run, 0);
  }

  lemma {:induction false} LostOnlyByDrop(keepalive: bool, run: seq<Action>)
    requires Legal(Init(keepalive), run)
    ensures Exec(Init(keepalive), run).frames.lost != [] <==> EverDrops(Init(keepalive), run)
  {
    if run != [] {
      LostOnlyByDrop(keepalive, run[..|run|-1]);
      LostStep(Exec(Init(keepalive), run[..|run|-1]), run[|run|-1]);
    }
  }

  lemma LostStep(s: State, a: Action)
    requires Enabled(s, a)
    ensures Apply(s, a).frames.lost == if Drops(s, a) then s.frames.lost + s.frames.backlog else s.frames.lost
  {
  }

  /** Every frame whose sendFrame has returned. */
  ghost predicate Returned(s: State, f: FrameId) {
    f in s.submitted && f !in s.senders
  }

  /** When Close has finished, such a frame has had Done exactly once or is lost, not both. */
  lemma {:induction false} SettledOrLost(keepalive: bool, run: seq<Action>, f: FrameId)
    requires Legal(Init(keepalive), run) && Exec(Init(keepalive), run).closer.Closed?
    ensures var s := Exec(Init(keepalive), run);
            Returned(s, f) ==> Occ(s.frames.done, f) + Occ(s.frames.lost, f) == 1
  {
    RunKeepsInv(keepalive, run, f);
    assert Exec(Init(keepalive), run).frames.backlog == [];
  }

  /**
   When Close has finished, all frames whose sendFrame has returned have had Done exactly once,
   precisely in the runs in which drainBacklog never met a nil transport with frames waiting.
   */
  lemma {:induction false} DoneExactlyOnce(keepalive: bool, run: seq<Action>)
    requires Legal(Init(keepalive), run) && Exec(Init(keepalive), run).closer.Closed?
    ensures (forall f :: Returned(Exec(Init(keepalive), run), f) ==>
                           Occ(Exec(Init(keepalive), run).frames.done, f) == 1)
       <==> !EverDrops(Init(keepalive), run)
  {
    LostOnlyByDrop(keepalive, run);
    var s := Exec(Init(keepalive), run);
    forall f | Returned(s, f)
      ensures Occ(s.frames.done, f) + Occ(s.frames.lost, f) == 1
    {
      SettledOrLost(keepalive, run, f);
    }
    if s.frames.lost != [] {
      var f := s.frames.lost[0];
      OccPositive(s.frames.lost);
      RunKeepsInv(keepalive, run, f);
      assert Returned(s, f);
    }
  }

  /** A sendFrame still in progress when Close has finished does not block, and its next step calls Done. */
  lemma {:induction false} LateSendersSettle(keepalive: bool, run: seq<Action>, f: FrameId)
    requires Legal(Init(keepalive), run) && Exec(Init(keepalive), run).closer.Closed?
    requires f in Exec(Init(keepalive), run).senders
    ensures var s := Exec(Init(keepalive), run);
            && Enabled(s, SenderStep(f))
            && Apply(s, SenderStep(f)).frames.done == s.frames.done + [f] && f !in Apply(s, SenderStep(f)).senders
  {
    RunKeepsInv(keepalive, run, f);
  }

  // A run in which a frame is lost

  lemma Continue(s: State, run: seq<Action>, a: Action) returns (longer: seq<Action>)
    requires Legal(s, run) && Enabled(Exec(s, run), a)
    ensures Legal(s, longer) && Exec(s, longer) == Apply(Exec(s, run), a)
  {
    longer := run + [a];
    assert longer[..|run|] == run;
  }

  lemma ContinueTwice(s: State, run: seq<Action>, a: Action, b: Action) returns (longer: seq<Action>)
    requires Legal(s, run) && Enabled(Exec(s, run), a) && Enabled(Apply(Exec(s, run), a), b)
    ensures Legal(s, longer) && Exec(s, longer) == Apply(Apply(Exec(s, run), a), b)
  {
    longer := Continue(s, run, a);
    longer := Continue(s, longer, b);
  }

  lemma Pushed(f: FrameId) returns (run: seq<Action>)
    ensures Legal(Init(false), run)
    ensures Exec(Init(false), run)
         == State(false, {f}, map[], false, false, true, 1, false, Open, CheckReady, NotClosing,
                  Frames([f], [], [], []))
  {
    run := Continue(Init(false), [], Submit(f));
    run := Continue(Init(false), run, SenderStep(f));
    run := Continue(Init(false), run, SenderStep(f));
    run := ContinueTwice(Init(false), run, MarkReady, StartWriter);
    run := Continue(Init(false), run, WriterStep(true));
    assert map[f := Checking][f := Pushing] - {f} == map[];
    assert {} + {f} == {f};
  }

  lemma Kept(f: FrameId) returns (run: seq<Action>)
    ensures Legal(Init(false), run)
    ensures Exec(Init(false), run)
         == State(false, {f}, map[], false, false, true, 1, false, Open, LoopTop, NotClosing, Frames([], [f], [], []))
  {
    run := Pushed(f);
    run := ContinueTwice(Init(false), run, WriterStep(true), WriterStep(true));
    run := ContinueTwice(Init(false), run, WriterStep(true), WriterStep(true));
    run := ContinueTwice(Init(false), run, WriterStep(true), WriterStep(true));
  }

  lemma Slept(f: FrameId) returns (run: seq<Action>)
    ensures Legal(Init(false), run)
    ensures Exec(Init(false), run)
         == State(false, {f}, map[], false, false, false, 1, false, Open, Waiting, NotClosing, Frames([], [f], [], []))
  {
    run := Kept(f);
    run := ContinueTwice(Init(false), run, ClearTransport, WriterStep(true));
    run := ContinueTwice(Init(false), run, WriterStep(true), WriterStep(true));
  }

  lemma WokenByClose(f: FrameId) returns (run: seq<Action>)
    ensures Legal(Init(false), run)
    ensures Exec(Init(false), run)
         == State(false, {f}, map[], true, true, false, 1, false, Open, BacklogStart, ReadWriteDone,
                  Frames([], [f], [], []))
  {
    run := Slept(f);
    run := ContinueTwice(Init(false), run, CloserStep, CloserStep);
    run := ContinueTwice(Init(false), run, CloserStep, WriterStep(true));
  }

  lemma DroppedByClose(f: FrameId) returns (run: seq<Action>)
    ensures Legal(Init(false), run)
    ensures Exec(Init(false), run)
         == State(false, {f}, map[], true, true, false, 1, false, Finished, Ended, WaitWriter, Frames([], [], [], [f]))
  {
    run := WokenByClose(f);
    run := ContinueTwice(Init(false), run, CloserStep, WriterStep(true));
    run := ContinueTwice(Init(false), run, WriterStep(true), WriterStep(true));
    run := Continue(Init(false), run, WriterStep(true));
  }

  /**
   A frame is pushed while no transport is set, and the write loop moves it to the backlog and waits.
   The broadcast of Close wakes the loop, which empties the backlog, still without a transport. Close
   then finishes, and Done has not been called.
   */
  lemma FrameLost(f: FrameId) returns (run: seq<Action>)
    ensures Legal(Init(false), run)
    ensures Exec(Init(false), run).closer.Closed? && Returned(Exec(Init(false), run), f)
    ensures Exec(Init(false), run).frames == Frames([], [], [], [f])
  {
    run := DroppedByClose(f);
    run := ContinueTwice(Init(false), run, CloserStep, CloserStep);
    run := Continue(Init(false), run, CloserStep);
  }
}
