/**
 What the write loop does when it is left alone, what ends it, and a run in which two frames change
 places.
 */
module SendRounds {
  import opened SendLifecycle
  import opened SendOrder

  // One round of the write loop

  /** State and logs. */
  datatype Course = Course(s: State, l: Logs)

  /** The write loop makes a step, undisturbed, and its sending succeeds. */
  function Next(c: Course): Course {
    if WriterReady(c.s, true) then Course(Apply(c.s, WriterStep(true)), Note(c.l, c.s, WriterStep(true))) else c
  }

  function Work(c: Course, n: nat): Course
    decreases n
  {
    if n == 0 then c else Work(Next(c), n - 1)
  }

  /** Undisturbed, the write loop comes from c to d. */
  ghost predicate Reaches(c: Course, d: Course) {
    exists n: nat :: Work(c, n) == d
  }

  lemma ReachesItself(c: Course)
    ensures Reaches(c, c)
  {
    assert Work(c, 0) == c;
  }

  lemma ReachesNext(c: Course)
    ensures Reaches(c, Next(c))
  {
    ReachesItself(Next(c));
    ReachesLonger(c, Next(c));
  }

  lemma ReachesLonger(c: Course, d: Course)
    requires Reaches(Next(c), d)
    ensures Reaches(c, d)
  {
    var n: nat :| Work(Next(c), n) == d;
    assert Work(c, n + 1) == d;
  }

  lemma ReachesOn(c: Course, d: Course, e: Course)
    requires Reaches(c, d) && Reaches(d, e)
    ensures Reaches(c, e)
  {
    var n: nat :| Work(c, n) == d;
    WorkReaches(c, n, e);
  }

  lemma {:induction false} WorkReaches(c: Course, n: nat, e: Course)
    requires Reaches(Work(c, n), e)
    ensures Reaches(c, e)
    decreases n
  {
    if n > 0 {
      WorkReaches(Next(c), n - 1, e);
      ReachesLonger(c, e);
    }
  }

  /** Undisturbed, the loop comes from c to d and sends q; each frame of q has Done, and none is lost. */
  ghost predicate Sends(c: Course, d: Course, q: seq<FrameId>) {
    && Reaches(c, d)
    && d.l.sent == c.l.sent + q
    && d.s.frames.done == c.s.frames.done + q && d.s.frames.lost == c.s.frames.lost
    && d.s == c.s.(writer := d.s.writer, frames := d.s.frames)
  }

  lemma SendsMore(c: Course, d: Course, e: Course, p: seq<FrameId>, q: seq<FrameId>)
    requires Sends(c, d, p) && Sends(d, e, q)
    ensures Sends(c, e, p + q)
  {
    ReachesOn(c, d, e);
    assert c.l.sent + p + q == c.l.sent + (p + q);
    assert c.s.frames.done + p + q == c.s.frames.done + (p + q);
  }

  /** The loop goes from c to d without touching the frames. */
  ghost predicate Passes(c: Course, d: Course) {
    Sends(c, d, []) && d.s.frames == c.s.frames
  }

  lemma PassesTwice(c: Course, d: Course, e: Course)
    requires Passes(c, d) && Passes(d, e)
    ensures Passes(c, e)
  {
    SendsMore(c, d, e, [], []);
  }

  lemma PassNext(c: Course) returns (d: Course)
    requires match c.s.writer
             case LoopTop => true
             case CheckReady => true
             case CheckContext => true
             case DrainStart => true
             case Got(_, _) => c.s.hasTransport
             case _ => false
    ensures Passes(c, d) && d.s.writer == WriterNext(c.s, true)
  {
    d := Next(c);
    ReachesNext(c);
    assert c.l.sent + [] == c.l.sent && c.s.frames.done + [] == c.s.frames.done;
  }

  lemma BacklogStartNext(c: Course) returns (d: Course)
    requires c.s.writer.BacklogStart? && c.s.hasTransport
    ensures Passes(c, d) && d.s.writer == if c.s.frames.backlog == [] then DrainStart else BacklogSend(0)
  {
    d := Next(c);
    ReachesNext(c);
    assert c.l.sent + [] == c.l.sent && c.s.frames.done + [] == c.s.frames.done;
  }

  lemma BacklogNext(c: Course, b: seq<FrameId>, i: nat) returns (d: Course)
    requires c.s.writer == BacklogSend(i) && i < |b| && c.s.frames.backlog == b
    ensures Sends(c, d, [b[i]]) && d.s.writer == BacklogSend(i + 1)
    ensures d.s.frames.backlog == b && d.s.frames.queue == c.s.frames.queue
  {
    d := Next(c);
    ReachesNext(c);
  }

  lemma BacklogEnd(c: Course, i: nat) returns (d: Course)
    requires c.s.writer == BacklogSend(i) && i == |c.s.frames.backlog|
    ensures Sends(c, d, []) && d.s.writer == DrainStart
    ensures d.s.frames.backlog == [] && d.s.frames.queue == c.s.frames.queue
  {
    d := Next(c);
    ReachesNext(c);
    assert c.l.sent + [] == c.l.sent && c.s.frames.done + [] == c.s.frames.done;
  }

  lemma {:induction false} BacklogWork(c: Course, b: seq<FrameId>, i: nat) returns (d: Course)
    requires c.s.writer == BacklogSend(i) && i <= |b| && c.s.frames.backlog == b
    ensures Sends(c, d, b[i..]) && d.s.writer == DrainStart
    ensures d.s.frames.backlog == [] && d.s.frames.queue == c.s.frames.queue
    decreases |b| - i
  {
    if i < |b| {
      var e := BacklogNext(c, b, i);
      d := BacklogWork(e, b, i + 1);
      SendsMore(c, e, d, [b[i]], b[i+1..]);
      assert [b[i]] + b[i+1..] == b[i..];
    } else {
      d := BacklogEnd(c, i);
      assert b[i..] == [];
    }
  }

  lemma ReceiveNext(c: Course, left: nat) returns (d: Course)
    requires c.s.writer == Receive(left) && c.s.frames.queue != []
    ensures Sends(c, d, []) && d.s.writer == Got(c.s.frames.queue[0], left)
    ensures d.s.frames.queue == c.s.frames.queue[1..] && d.s.frames.backlog == c.s.frames.backlog
  {
    d := Next(c);
    ReachesNext(c);
    assert c.l.sent + [] == c.l.sent && c.s.frames.done + [] == c.s.frames.done;
  }

  lemma SendNext(c: Course, f: FrameId, left: nat) returns (d: Course)
    requires c.s.writer == Sending(f, left)
    ensures Sends(c, d, [f]) && d.s.writer == AfterOne(c.s, left)
    ensures d.s.frames.queue == c.s.frames.queue && d.s.frames.backlog == c.s.frames.backlog
  {
    d := Next(c);
    ReachesNext(c);
  }

  /** Receive one frame and send it. */
  lemma OneFrame(c: Course, left: nat) returns (d: Course)
    requires c.s.writer == Receive(left) && c.s.frames.queue != [] && c.s.hasTransport
    ensures Sends(c, d, [c.s.frames.queue[0]]) && d.s.writer == AfterOne(c.s, left)
    ensures d.s.frames.queue == c.s.frames.queue[1..] && d.s.frames.backlog == c.s.frames.backlog
  {
    var f := c.s.frames.queue[0];
    var e1 := ReceiveNext(c, left);
    var e2 := PassNext(e1);
    d := SendNext(e2, f, left);
    SendsMore(e1, e2, d, [], [f]);
    SendsMore(c, e1, d, [], [f]);
    assert [] + [f] == [f];
  }

  lemma {:induction false} QueueWork(c: Course, q: seq<FrameId>) returns (d: Course)
    requires c.s.writer == Receive(|q|) && c.s.frames.queue == q != [] && c.s.hasTransport
    ensures Sends(c, d, q) && d.s.writer == if c.s.keepalive then Select else LoopTop
    ensures d.s.frames.queue == [] && d.s.frames.backlog == c.s.frames.backlog
    decreases |q|
  {
    d := OneFrame(c, |q|);
    if |q| > 1 {
      var e := d;
      d := QueueWork(e, q[1..]);
      SendsMore(c, e, d, [q[0]], q[1..]);
      assert [q[0]] + q[1..] == q;
    } else {
      assert [q[0]] == q;
    }
  }

  lemma StartNext(c: Course) returns (d: Course)
    requires c.s.writer.LoopTop? && !c.s.closed && c.s.ready && c.s.hasTransport
    ensures Passes(c, d) && d.s.writer == if c.s.frames.backlog == [] then DrainStart else BacklogSend(0)
  {
    var e1 := PassNext(c);
    var e2 := PassNext(e1);
    var e3 := PassNext(e2);
    d := BacklogStartNext(e3);
    PassesTwice(c, e1, e2);
    PassesTwice(c, e2, e3);
    PassesTwice(c, e3, d);
  }

  lemma BacklogRound(c: Course) returns (d: Course)
    requires c.s.writer.LoopTop? && !c.s.closed && c.s.ready && c.s.hasTransport
    ensures Sends(c, d, c.s.frames.backlog) && d.s.writer == DrainStart
    ensures d.s.frames.backlog == [] && d.s.frames.queue == c.s.frames.queue
  {
    var b := c.s.frames.backlog;
    d := StartNext(c);
    if b != [] {
      var e := d;
      d := BacklogWork(e, b, 0);
      SendsMore(c, e, d, [], b[0..]);
      assert [] + b[0..] == b;
    }
  }

  /**
   A round of the write loop that nothing disturbs sends what is in the backlog, then what is in the queue,
   in order, and leaves both empty. It ends where the loop waits for the next frame or starts over.
   */
  lemma RoundSendsAll(c: Course) returns (d: Course)
    requires c.s.writer.LoopTop? && !c.s.closed && c.s.ready && c.s.hasTransport
    ensures Sends(c, d, c.s.frames.backlog + c.s.frames.queue)
    ensures d.s.frames.queue == [] && d.s.frames.backlog == []
    ensures d.s.writer == if c.s.keepalive then Select else if c.s.frames.queue == [] then Receive(1) else LoopTop
  {
    var b, q := c.s.frames.backlog, c.s.frames.queue;
    var e1 := BacklogRound(c);
    d := PassNext(e1);
    SendsMore(c, e1, d, b, []);
    assert b + [] == b;
    if q != [] {
      var e2 := d;
      d := QueueWork(e2, q);
      SendsMore(c, e2, d, b, q);
    } else {
      assert b + q == b;
    }
  }

  // What ends the write loop

  /** The context is found cancelled, or the leases end. */
  predicate Quits(s: State, a: Action) {
    (a == WriterStep(false) && s.writer.CheckContext?) || a.LeaseEnds?
  }

  ghost predicate EverQuits(s: State, run: seq<Action>)
    requires Legal(s, run)
  {
    run != [] && (EverQuits(s, run[..|run|-1]) || Quits(Exec(s, run[..|run|-1]), run[|run|-1]))
  }

  predicate Over(w: Writer) {
    w.Ending? || w.Ended?
  }

  /** The write loop ends only by Close, a cancelled context or the end of the leases; always by the last two. */
  lemma {:induction false} EndsOnlyWithGround(keepalive: bool, run: seq<Action>)
    requires Legal(Init(keepalive), run)
    ensures Over(Exec(Init(keepalive), run).writer) ==>
              Exec(Init(keepalive), run).closed || EverQuits(Init(keepalive), run)
    ensures EverQuits(Init(keepalive), run) ==> Over(Exec(Init(keepalive), run).writer)
  {
    if run != [] {
      var before := run[..|run|-1];
      EndsOnlyWithGround(keepalive, before);
      RunCoordinated(keepalive, before);
      OverStep(Exec(Init(keepalive), before), run[|run|-1]);
    }
  }

  lemma OverStep(s: State, a: Action)
    requires Enabled(s, a) && Coordinated(s)
    ensures Over(Apply(s, a).writer) ==> Over(s.writer) || Quits(s, a) || s.closed
    ensures Over(s.writer) || Quits(s, a) ==> Over(Apply(s, a).writer)
    ensures s.closed ==> Apply(s, a).closed
  {
  }

  // Who waits for whom

  /** The write loop makes no step of its own exactly where the program blocks or is not running. */
  lemma BlockedExactly(s: State, f: FrameId)
    ensures (exists ok :: WriterReady(s, ok))
       <==> !(s.writer.NotStarted? || s.writer.Ended? || s.writer.Waiting?
              || (s.writer.Receive? && s.frames.queue == [] && !s.queueClosed))
    ensures s.writer.Receive? || s.writer.Select? ==> Enabled(s, LeaseEnds)
    ensures (s.writer.Receive? || s.writer.Select?) && f !in s.submitted ==> Enabled(s, LeaseArrives(f))
  {
    assert WriterReady(s, false) || WriterReady(s, true) <==> exists ok :: WriterReady(s, ok);
  }

  lemma PlacesStep(s: State, a: Action)
    requires Enabled(s, a)
    ensures |Apply(s, a).frames.queue| <= |s.frames.queue| + |PushedBy(s, a)|
    ensures PushedBy(s, a) != [] ==> |s.frames.queue| < 64
  {
    match a
    case WriterStep(_) => TakerEffect(s, a);
    case CloserStep => TakerEffect(s, a);
    case _ =>
  }

  /** The queue never holds more than 64 frames, and a sender waits only while it is full and open. */
  lemma {:induction false} QueueBounded(keepalive: bool, run: seq<Action>, f: FrameId)
    requires Legal(Init(keepalive), run)
    ensures var s := Exec(Init(keepalive), run);
            && |s.frames.queue| <= 64
            && (f in s.senders && !Enabled(s, SenderStep(f)) ==> !s.queueClosed && |s.frames.queue| == 64)
  {
    if run != [] {
      QueueBounded(keepalive, run[..|run|-1], f);
      PlacesStep(Exec(Init(keepalive), run[..|run|-1]), run[|run|-1]);
    }
  }

  // The transport

  /** A transport was set, and not cleared since. */
  predicate Present(run: seq<Action>) {
    run != [] && (run[|run|-1].SetTransport? || (!run[|run|-1].ClearTransport? && Present(run[..|run|-1])))
  }

  /** The same for the mark that SetTransport makes first. */
  predicate Marked(run: seq<Action>) {
    run != [] && (run[|run|-1].MarkReady? || (!run[|run|-1].ClearTransport? && Marked(run[..|run|-1])))
  }

  /** Calls of SetTransport that have marked and not yet set. */
  function UnderWay(run: seq<Action>): int {
    if run == [] then 0
    else UnderWay(run[..|run|-1]) +
         match run[|run|-1] {
           case MarkReady => 1
           case SetTransport => -1
           case _ => 0
         }
  }

  /**
   There is a transport exactly if one was set and not cleared since, and likewise for ready; while ready
   is set there is a transport, or a SetTransport is about to set one.
   */
  lemma {:induction false} TransportExactly(keepalive: bool, run: seq<Action>)
    requires Legal(Init(keepalive), run)
    ensures var s := Exec(Init(keepalive), run);
            && (s.hasTransport <==> Present(run)) && (s.ready <==> Marked(run)) && s.setters == UnderWay(run)
            && (s.ready ==> s.hasTransport || s.setters > 0)
  {
    if run != [] {
      TransportExactly(keepalive, run[..|run|-1]);
      TransportStep(Exec(Init(keepalive), run[..|run|-1]), run[|run|-1]);
    }
  }

  lemma TransportStep(s: State, a: Action)
    requires Enabled(s, a)
    ensures Apply(s, a).hasTransport == (a.SetTransport? || (s.hasTransport && !a.ClearTransport?))
    ensures Apply(s, a).ready == (a.MarkReady? || (s.ready && !a.ClearTransport?))
    ensures Apply(s, a).setters == s.setters + (if a.MarkReady? then 1 else if a.SetTransport? then -1 else 0)
  {
  }

  // A run in which frames change places

  /** Some run leads to c. */
  ghost predicate Possible(c: Course) {
    exists run :: Legal(Init(false), run) && c == Course(Exec(Init(false), run), LogsOf(Init(false), run))
  }

  /** At state s, with these frames sent so far. */
  ghost predicate At(c: Course, s: State, sent: seq<FrameId>) {
    Possible(c) && c.s == s && c.l.sent == sent
  }

  lemma Begin() returns (c: Course)
    ensures At(c, Init(false), []) && c.l.pushed == []
  {
    c := Course(Exec(Init(false), []), LogsOf(Init(false), []));
  }

  lemma Longer(s: State, run: seq<Action>, a: Action) returns (longer: seq<Action>)
    requires Legal(s, run) && Enabled(Exec(s, run), a)
    ensures Legal(s, longer) && Exec(s, longer) == Apply(Exec(s, run), a)
    ensures LogsOf(s, longer) == Note(LogsOf(s, run), Exec(s, run), a)
  {
    longer := run + [a];
    assert longer[..|run|] == run;
  }

  lemma OneMore(c: Course, a: Action) returns (d: Course)
    requires Possible(c) && Enabled(c.s, a)
    ensures Possible(d) && d.s == Apply(c.s, a) && d.l == Note(c.l, c.s, a)
  {
    var start := Init(false);
    var run :| Legal(start, run) && c == Course(Exec(start, run), LogsOf(start, run));
    var longer := Longer(start, run, a);
    d := Course(Exec(start, longer), LogsOf(start, longer));
  }

  lemma Go(c: Course, a: Action) returns (d: Course)
    requires Possible(c) && Enabled(c.s, a)
    ensures At(d, Apply(c.s, a), c.l.sent + SentBy(c.s, a)) && d.l.pushed == c.l.pushed + PushedBy(c.s, a)
  {
    d := OneMore(c, a);
  }

  /** A state in which nobody is sending or closing, and everything has been set up. */
  function Working(submitted: set<FrameId>, writer: Writer, queue: seq<FrameId>, backlog: seq<FrameId>,
                   done: seq<FrameId>): State {
    State(false, submitted, map[], false, false, true, 0, true, Open, writer, NotClosing,
          Frames(queue, backlog, done, []))
  }

  lemma SetUp() returns (c: Course)
    ensures At(c, Working({}, LoopTop, [], [], []), []) && c.l.pushed == []
  {
    c := Begin();
    c := Go(c, MarkReady);
    c := Go(c, SetTransport);
    c := Go(c, StartWriter);
  }

  lemma PushOne(c: Course, submitted: set<FrameId>, queue: seq<FrameId>, f: FrameId) returns (d: Course)
    requires At(c, Working(submitted, LoopTop, queue, [], []), []) && f !in submitted && |queue| < OUT_CHAN_SIZE
    ensures At(d, Working(submitted + {f}, LoopTop, queue + [f], [], []), []) && d.l.pushed == c.l.pushed + [f]
  {
    d := CheckOne(c, submitted, queue, f);
    d := Go(d, SenderStep(f));
    assert map[f := Pushing] - {f} == map[];
  }

  lemma CheckOne(c: Course, submitted: set<FrameId>, queue: seq<FrameId>, f: FrameId) returns (d: Course)
    requires At(c, Working(submitted, LoopTop, queue, [], []), []) && f !in submitted
    ensures At(d, Working(submitted + {f}, LoopTop, queue, [], []).(senders := map[f := Pushing]), [])
    ensures d.l.pushed == c.l.pushed
  {
    d := Go(c, Submit(f));
    d := Go(d, SenderStep(f));
    assert map[f := Checking][f := Pushing] == map[f := Pushing];
  }

  lemma TwoPushed(f: FrameId, g: FrameId) returns (c: Course)
    requires f != g
    ensures At(c, Working({f, g}, LoopTop, [f, g], [], []), []) && c.l.pushed == [f, g]
  {
    c := SetUp();
    c := PushOne(c, {}, [], f);
    c := PushOne(c, {} + {f}, [] + [f], g);
    assert {} + {f} + {g} == {f, g} && [] + [f] + [g] == [f, g];
  }

  /** From the top of the loop to the backlog. */
  lemma Round(c: Course, submitted: set<FrameId>, queue: seq<FrameId>, backlog: seq<FrameId>, done: seq<FrameId>)
    returns (d: Course)
    requires At(c, Working(submitted, LoopTop, queue, backlog, done), c.l.sent)
    ensures At(d, Working(submitted, BacklogStart, queue, backlog, done), c.l.sent) && d.l.pushed == c.l.pushed
  {
    d := Go(c, WriterStep(true));
    d := Go(d, WriterStep(true));
    d := Go(d, WriterStep(true));
  }

  lemma DrainBegins(f: FrameId, g: FrameId) returns (c: Course)
    requires f != g
    ensures At(c, Working({f, g}, DrainStart, [f, g], [], []), []) && c.l.pushed == [f, g]
  {
    c := TwoPushed(f, g);
    c := Round(c, {f, g}, [f, g], [], []);
    c := Go(c, WriterStep(true));
  }

  lemma FirstReceived(f: FrameId, g: FrameId) returns (c: Course)
    requires f != g
    ensures At(c, Working({f, g}, Got(f, 2), [g], [], []), []) && c.l.pushed == [f, g]
  {
    c := DrainBegins(f, g);
    c := Go(c, WriterStep(true));
    c := Go(c, WriterStep(true));
    assert [f, g][1..] == [g];
  }

  lemma FirstFails(f: FrameId, g: FrameId) returns (c: Course)
    requires f != g
    ensures At(c, Working({f, g}, Receive(1), [g], [f], []), []) && c.l.pushed == [f, g]
  {
    c := FirstReceived(f, g);
    c := Go(c, WriterStep(true));
    c := Go(c, WriterStep(false));
  }

  lemma SecondSent(f: FrameId, g: FrameId) returns (c: Course)
    requires f != g
    ensures At(c, Working({f, g}, LoopTop, [], [f], [g]), [g]) && c.l.pushed == [f, g]
  {
    c := FirstFails(f, g);
    c := Go(c, WriterStep(true));
    c := Go(c, WriterStep(true));
    c := Go(c, WriterStep(true));
    assert [g][1..] == [];
  }

  /**
   Two frames are pushed and taken by one drain. The sending of the first fails, that of the second
   succeeds, and the next round sends the first from the backlog: they have changed places.
   */
  lemma FramesReordered(f: FrameId, g: FrameId) returns (run: seq<Action>)
    requires f != g
    ensures Legal(Init(false), run)
    ensures LogsOf(Init(false), run).pushed == [f, g] && LogsOf(Init(false), run).sent == [g, f]
  {
    var c := SecondSent(f, g);
    c := Round(c, {f, g}, [], [f], [g]);
    c := Go(c, WriterStep(true));
    c := Go(c, WriterStep(true));
    run :| Legal(Init(false), run) && c == Course(Exec(Init(false), run), LogsOf(Init(false), run));
  }
}
