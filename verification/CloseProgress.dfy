/**
 Whether Close returns. The write loop tests closed, then ready, and takes the lock under which it waits
 only after that. The broadcast of Close can fall between the test of closed and the wait; if ready is
 false by then, or has been found false, Close waits for a loop that nobody wakes.
 */
module CloseProgress {
  import opened SendLifecycle

  /** The broadcast of Close is over. */
  predicate Announced(c: Closer) {
    !c.NotClosing? && !c.CloseQueue? && !c.Broadcast?
  }

  /**
   The write loop waits, is going to after finding ready false, or has passed its test of closed and will
   find ready false.
   */
  predicate Misses(s: State) {
    s.writer.EnterWait? || s.writer.Waiting? || (s.writer.CheckReady? && !s.ready)
  }

  /** A step of the transport's coming and going, which can set ready and wake the write loop. */
  predicate OfTransport(a: Action) {
    a.MarkReady? || a.SetTransport? || a.ClearTransport?
  }

  /** Neither the write loop nor the closer can go on. */
  predicate AtRest(s: State) {
    !Enabled(s, CloserStep) && !WriterReady(s, true) && !WriterReady(s, false)
  }

  /** After the broadcast, the write loop goes to sleep if it was about to, and not otherwise. */
  lemma StepDecided(s: State, a: Action)
    requires Coordinated(s) && Announced(s.closer) && Enabled(s, a) && !OfTransport(a)
    ensures Announced(Apply(s, a).closer)
    ensures Misses(Apply(s, a)) <==> Misses(s)
  {
  }

  /** A run from s on in which the transport stays as it is. */
  ghost predicate Undisturbed(s: State, run: seq<Action>) {
    Legal(s, run) && forall i :: 0 <= i < |run| ==> !OfTransport(run[i])
  }

  lemma {:induction false} RunDecided(s: State, run: seq<Action>)
    requires Inv(s, 0) && Announced(s.closer) && Undisturbed(s, run)
    ensures Inv(Exec(s, run), 0) && Announced(Exec(s, run).closer)
    ensures Misses(Exec(s, run)) <==> Misses(s)
    decreases |run|
  {
    if run != [] {
      var n := |run| - 1;
      RunDecided(s, run[..n]);
      StepDecided(Exec(s, run[..n]), run[n]);
      ActionKeepsInv(Exec(s, run[..n]), run[n], 0);
    }
  }

  lemma ClosedIsAwake(s: State)
    requires Coordinated(s) && s.closer.Closed?
    ensures !Misses(s)
  {
  }

  lemma RestExactly(s: State)
    requires Coordinated(s) && Announced(s.closer) && AtRest(s)
    ensures s.closer.Closed? <==> !Misses(s)
  {
  }

  /**
   Whatever was going on when Close made its broadcast: if right after it the write loop waits, has found
   ready false, or has passed its test of closed while ready is false, Close does not return as long as
   the transport is left alone. In all other cases it has returned when the write loop and Close can go no
   further.
   */
  lemma {:induction false} CloseReturnsExactly(keepalive: bool, run: seq<Action>, more: seq<Action>)
    requires Legal(Init(keepalive), run) && Announced(Exec(Init(keepalive), run).closer)
    requires Undisturbed(Exec(Init(keepalive), run), more)
    ensures var s := Exec(Init(keepalive), run);
            && (Misses(s) ==> !Exec(s, more).closer.Closed?)
            && (AtRest(Exec(s, more)) ==> (Exec(s, more).closer.Closed? <==> !Misses(s)))
  {
    var s := Exec(Init(keepalive), run);
    RunKeepsInv(keepalive, run, 0);
    RunDecided(s, more);
    if Exec(s, more).closer.Closed? {
      ClosedIsAwake(Exec(s, more));
    }
    if AtRest(Exec(s, more)) {
      RestExactly(Exec(s, more));
    }
  }

  // With a transport that comes and goes

  /** At some moment of the run the write loop waits. */
  ghost predicate EverWaits(s: State, run: seq<Action>)
    requires Legal(s, run)
  {
    Exec(s, run).writer.Waiting? || (run != [] && EverWaits(s, run[..|run| - 1]))
  }

  /** At some moment of the run a transport is set while the write loop waits. */
  ghost predicate EverWoken(s: State, run: seq<Action>)
    requires Legal(s, run)
  {
    run != [] &&
    (EverWoken(s, run[..|run| - 1])
     || (run[|run| - 1].SetTransport? && Exec(s, run[..|run| - 1]).writer.Waiting?))
  }

  /** The write loop is past its wait and will not come back to it, because it meets closed first. */
  predicate Past(w: Writer) {
    !w.NotStarted? && !w.CheckReady? && !w.EnterWait? && !w.Waiting?
  }

  lemma StepPast(s: State, a: Action)
    requires Coordinated(s) && Announced(s.closer) && Enabled(s, a)
    ensures Announced(Apply(s, a).closer)
    ensures Past(s.writer) ==> Past(Apply(s, a).writer)
    ensures s.writer.Waiting? ==> Apply(s, a).writer == if a.SetTransport? then CheckContext else Waiting
  {
  }

  lemma {:induction false} WaitsUnlessWoken(s: State, run: seq<Action>)
    requires Inv(s, 0) && Announced(s.closer) && Legal(s, run)
    ensures Inv(Exec(s, run), 0) && Announced(Exec(s, run).closer)
    ensures EverWoken(s, run) ==> Past(Exec(s, run).writer)
    ensures Exec(s, run).writer.Waiting? <==> EverWaits(s, run) && !EverWoken(s, run)
    decreases |run|
  {
    if run != [] {
      var n := |run| - 1;
      WaitsUnlessWoken(s, run[..n]);
      StepPast(Exec(s, run[..n]), run[n]);
      ActionKeepsInv(Exec(s, run[..n]), run[n], 0);
    }
  }

  lemma RestUnlessWaiting(s: State)
    requires Coordinated(s) && Announced(s.closer)
    ensures s.closer.Closed? ==> !s.writer.Waiting?
    ensures AtRest(s) ==> (s.closer.Closed? <==> !s.writer.Waiting?)
  {
  }

  /**
   Whatever the transport does after the broadcast: when the write loop and Close can go no further, Close
   has returned exactly if the loop never waited, or a transport was set while it did.
   */
  lemma {:induction false} CloseReturnsIfWoken(keepalive: bool, run: seq<Action>, more: seq<Action>)
    requires Legal(Init(keepalive), run) && Announced(Exec(Init(keepalive), run).closer)
    requires Legal(Exec(Init(keepalive), run), more)
    ensures var s := Exec(Init(keepalive), run);
            && (EverWaits(s, more) && !EverWoken(s, more) ==> !Exec(s, more).closer.Closed?)
            && (AtRest(Exec(s, more)) ==>
                  (Exec(s, more).closer.Closed? <==> !EverWaits(s, more) || EverWoken(s, more)))
  {
    var s := Exec(Init(keepalive), run);
    RunKeepsInv(keepalive, run, 0);
    WaitsUnlessWoken(s, more);
    RestUnlessWaiting(Exec(s, more));
  }

  // They do come to rest

  /** A bound on the steps of the write loop, once the queue is closed. */
  function WriterRank(w: Writer, queue: nat, backlog: nat): int {
    match w
    case Ended => 0
    case Ending => 1
    case LoopTop => 2
    case NotStarted => 3
    case Sending(_, left) => 3 * left + 4
    case Got(_, left) => 3 * left + 5
    case Select => 6
    case Receive(left) => 3 * left + 6
    case DrainStart => 3 * queue + 10
    case BacklogSend(i) => 3 * queue + 11 + backlog - i
    case BacklogStart => 3 * queue + backlog + 12
    case CheckContext => 3 * queue + backlog + 13
    case Waiting => 3 * queue + backlog + 14
    case EnterWait => 3 * queue + backlog + 15
    case CheckReady => 3 * queue + backlog + 16
  }

  function CloserRank(c: Closer): int {
    match c
    case NotClosing => 7
    case CloseQueue => 6
    case Broadcast => 5
    case ReadWriteDone => 4
    case WaitWriter => 3
    case DestroyQueue => 2
    case DestroyBacklog(i) => 1 - i
    case Closed => 0
  }

  function Rank(s: State): int {
    2 * WriterRank(s.writer, |s.frames.queue|, |s.frames.backlog|)
    + |s.frames.queue| + |s.frames.backlog| + CloserRank(s.closer)
  }

  /** A step of the write loop, the closer, or what feeds the write loop. */
  predicate Works(a: Action) {
    a.WriterStep? || a.CloserStep? || a.StartWriter? || a.LeaseArrives? || a.LeaseEnds?
  }

  ghost predicate Closing(s: State) {
    Coordinated(s) && EmptiedUpTo(s.closer, s.frames) && Announced(s.closer)
    && (s.writer.BacklogSend? ==> s.writer.i <= |s.frames.backlog|)
  }

  lemma RankPositive(s: State)
    requires Closing(s)
    ensures Rank(s) >= 0
  {
  }

  lemma WriterRankFalls(s: State, ok: bool)
    requires Closing(s) && WriterReady(s, ok)
    ensures Rank(Apply(s, WriterStep(ok))) < Rank(s)
  {
  }

  lemma CloserRankFalls(s: State)
    requires Closing(s) && Enabled(s, CloserStep)
    ensures Rank(Apply(s, CloserStep)) < Rank(s)
  {
  }

  lemma OtherRank(s: State, a: Action)
    requires Closing(s) && Enabled(s, a) && !a.WriterStep? && !a.CloserStep?
    ensures Rank(Apply(s, a)) <= Rank(s)
    ensures Works(a) ==> Rank(Apply(s, a)) < Rank(s)
  {
  }

  ghost function Workload(run: seq<Action>): nat {
    if run == [] then 0 else Workload(run[..|run| - 1]) + if Works(run[|run| - 1]) then 1 else 0
  }

  lemma {:induction false} WorkloadBounded(s: State, run: seq<Action>)
    requires Inv(s, 0) && Announced(s.closer) && Legal(s, run)
    ensures Workload(run) + Rank(Exec(s, run)) <= Rank(s)
    decreases |run|
  {
    if run != [] {
      var n := |run| - 1;
      WorkloadBounded(s, run[..n]);
      WaitsUnlessWoken(s, run[..n]);
      var t := Exec(s, run[..n]);
      var a := run[n];
      if a.WriterStep? {
        WriterRankFalls(t, a.ok);
      } else if a.CloserStep? {
        CloserRankFalls(t);
      } else {
        OtherRank(t, a);
      }
    }
  }

  /**
   After the broadcast the write loop and Close make no more than Rank(s) steps, whatever the transport
   does: they come to rest.
   */
  lemma {:induction false} ComesToRest(keepalive: bool, run: seq<Action>, more: seq<Action>)
    requires Legal(Init(keepalive), run) && Announced(Exec(Init(keepalive), run).closer)
    requires Legal(Exec(Init(keepalive), run), more)
    ensures Workload(more) <= Rank(Exec(Init(keepalive), run))
  {
    var s := Exec(Init(keepalive), run);
    RunKeepsInv(keepalive, run, 0);
    WorkloadBounded(s, more);
    WaitsUnlessWoken(s, more);
    RankPositive(Exec(s, more));
  }

  // A run in which Close hangs

  lemma AboutToWait() returns (run: seq<Action>)
    ensures Legal(Init(false), run)
    ensures Exec(Init(false), run)
         == State(false, {}, map[], false, false, false, 0, false, Open, EnterWait, NotClosing, Frames([], [], [], []))
  {
    run := Continue(Init(false), [], StartWriter);
    run := ContinueTwice(Init(false), run, WriterStep(true), WriterStep(true));
  }

  /** The broadcast comes after the test of ready and before the wait. */
  lemma CloseHangs() returns (run: seq<Action>)
    ensures Legal(Init(false), run)
    ensures Exec(Init(false), run).closer.WaitWriter? && AtRest(Exec(Init(false), run))
  {
    run := AboutToWait();
    run := ContinueTwice(Init(false), run, CloserStep, CloserStep);
    run := ContinueTwice(Init(false), run, CloserStep, CloserStep);
    run := Continue(Init(false), run, WriterStep(true));
  }

  /** It can also come before the test of ready. */
  lemma CloseHangsEarly() returns (run: seq<Action>)
    ensures Legal(Init(false), run)
    ensures Exec(Init(false), run).writer.CheckReady? && Announced(Exec(Init(false), run).closer)
    ensures Misses(Exec(Init(false), run))
  {
    run := ContinueTwice(Init(false), [], StartWriter, WriterStep(true));
    run := ContinueTwice(Init(false), run, CloserStep, CloserStep);
    run := Continue(Init(false), run, CloserStep);
  }
}
