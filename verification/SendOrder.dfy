/**
 The order in which the frames given to sendFrame reach the transport.

 The logs of a run record what was pushed, taken, sent and given up, in that order in time. They are
 read off the actions; the machine does not see them.
 */
module SendOrder {
  import opened SendLifecycle

  datatype Logs = Logs(
    pushed: seq<FrameId>,      // frames that sendFrame has put on the queue
    taken: seq<FrameId>,       // frames that have left the queue
    swept: seq<FrameId>,       // those of them that Close has taken
    leases: set<FrameId>,      // lease frames
    arrived: seq<FrameId>,     // frames that the write loop has taken, from the queue or as leases
    sent: seq<FrameId>,        // frames that the transport has accepted
    kept: seq<FrameId>,        // frames put into the backlog: no transport, or the sending has failed
    givenUp: seq<FrameId>,     // frames whose sending from the backlog has failed
    destroyed: seq<FrameId>,   // frames that Close has taken from the queue or from the backlog
    refused: seq<FrameId>)     // frames that sendFrame has not pushed because of Close

  // What one step adds

  function PushedBy(s: State, a: Action): seq<FrameId> {
    if a.SenderStep? && a.f in s.senders && s.senders[a.f].Pushing? && !s.queueClosed then [a.f] else []
  }

  function RefusedBy(s: State, a: Action): seq<FrameId> {
    if a.SenderStep? && a.f in s.senders && (if s.senders[a.f].Checking? then s.closed else s.queueClosed)
    then [a.f] else []
  }

  /** The write loop receives from the queue. */
  predicate Receives(s: State, a: Action) {
    a.WriterStep? && (s.writer.Receive? || (s.writer.Select? && a.ok)) && s.frames.queue != []
  }

  predicate Sweeps(s: State, a: Action) {
    a.CloserStep? && s.closer.DestroyQueue? && s.frames.queue != []
  }

  function Front(b: bool, q: seq<FrameId>): seq<FrameId> {
    if b && q != [] then [q[0]] else []
  }

  function ArrivedBy(s: State, a: Action): seq<FrameId> {
    if a.LeaseArrives? then [a.f] else Front(Receives(s, a), s.frames.queue)
  }

  predicate FromBacklog(s: State, a: Action) {
    a.WriterStep? && s.writer.BacklogSend? && s.writer.i < |s.frames.backlog|
  }

  function SentBy(s: State, a: Action): seq<FrameId> {
    if !a.WriterStep? || !a.ok then []
    else if s.writer.Sending? then [s.writer.f]
    else if FromBacklog(s, a) then [s.frames.backlog[s.writer.i]]
    else []
  }

  function GivenUpBy(s: State, a: Action): seq<FrameId> {
    if FromBacklog(s, a) && !a.ok then [s.frames.backlog[s.writer.i]] else []
  }

  /** A frame taken by the write loop is not sent at once. */
  predicate Troubles(s: State, a: Action) {
    a.WriterStep? && ((s.writer.Got? && !s.hasTransport) || (s.writer.Sending? && !a.ok))
  }

  function KeptBy(s: State, a: Action): seq<FrameId> {
    if Troubles(s, a) then [s.writer.f] else []
  }

  function DestroyedBy(s: State, a: Action): seq<FrameId> {
    if Sweeps(s, a) then [s.frames.queue[0]]
    else if a.CloserStep? && s.closer.DestroyBacklog? && s.closer.i < |s.frames.backlog|
    then [s.frames.backlog[s.closer.i]]
    else []
  }

  function Note(l: Logs, s: State, a: Action): Logs {
    Logs(l.pushed + PushedBy(s, a),
         l.taken + Front(Receives(s, a) || Sweeps(s, a), s.frames.queue),
         l.swept + Front(Sweeps(s, a), s.frames.queue),
         if a.LeaseArrives? then l.leases + {a.f} else l.leases,
         l.arrived + ArrivedBy(s, a),
         l.sent + SentBy(s, a),
         l.kept + KeptBy(s, a),
         l.givenUp + GivenUpBy(s, a),
         l.destroyed + DestroyedBy(s, a),
         l.refused + RefusedBy(s, a))
  }

  ghost function LogsOf(s: State, run: seq<Action>): Logs
    requires Legal(s, run)
  {
    if run == [] then Logs([], [], [], {}, [], [], [], [], [], [])
    else Note(LogsOf(s, run[..|run|-1]), Exec(s, run[..|run|-1]), run[|run|-1])
  }

  // The queue

  lemma MoveFront(taken: seq<FrameId>, queue: seq<FrameId>)
    requires queue != []
    ensures (taken + [queue[0]]) + queue[1..] == taken + queue
  {
  }

  lemma SenderFifo(s: State, a: Action, l: Logs)
    requires a.SenderStep? && Enabled(s, a) && l.taken + s.frames.queue == l.pushed
    ensures Note(l, s, a).taken + Apply(s, a).frames.queue == Note(l, s, a).pushed
  {
    assert l.taken + [] == l.taken && l.pushed + [] == l.pushed;
    assert l.taken + (s.frames.queue + [a.f]) == l.pushed + [a.f];
  }

  lemma TakerFifo(s: State, a: Action, l: Logs)
    requires (a.WriterStep? || a.CloserStep?) && Enabled(s, a) && l.taken + s.frames.queue == l.pushed
    ensures Note(l, s, a).taken + Apply(s, a).frames.queue == Note(l, s, a).pushed
  {
    assert l.taken + [] == l.taken && l.pushed + [] == l.pushed;
    TakerEffect(s, a);
    if s.frames.queue != [] {
      MoveFront(l.taken, s.frames.queue);
    }
  }

  lemma TakerEffect(s: State, a: Action)
    requires (a.WriterStep? || a.CloserStep?) && Enabled(s, a)
    ensures Apply(s, a).frames.queue
         == if Receives(s, a) || Sweeps(s, a) then s.frames.queue[1..] else s.frames.queue
  {
  }

  lemma FifoStep(s: State, a: Action, l: Logs)
    requires Enabled(s, a) && l.taken + s.frames.queue == l.pushed
    ensures Note(l, s, a).taken + Apply(s, a).frames.queue == Note(l, s, a).pushed
  {
    match a
    case SenderStep(_) => SenderFifo(s, a, l);
    case WriterStep(_) => TakerFifo(s, a, l);
    case CloserStep => TakerFifo(s, a, l);
    case _ => assert l.taken + [] == l.taken && l.pushed + [] == l.pushed;
  }

  /** In every run the frames leave the queue in the order in which they were pushed, and none is missing. */
  lemma {:induction false} QueueIsFifo(keepalive: bool, run: seq<Action>)
    requires Legal(Init(keepalive), run)
    ensures LogsOf(Init(keepalive), run).taken + Exec(Init(keepalive), run).frames.queue
         == LogsOf(Init(keepalive), run).pushed
  {
    if run != [] {
      QueueIsFifo(keepalive, run[..|run|-1]);
      FifoStep(Exec(Init(keepalive), run[..|run|-1]), run[|run|-1], LogsOf(Init(keepalive), run[..|run|-1]));
    }
  }

  // From the queue to the write loop

  /** The frames of q that are not leases. */
  function Unleased(q: seq<FrameId>, leases: set<FrameId>): seq<FrameId> {
    if q == [] then []
    else Unleased(q[..|q|-1], leases) + if q[|q|-1] in leases then [] else [q[|q|-1]]
  }

  lemma {:induction false} UnleasedAppend(q: seq<FrameId>, f: FrameId, leases: set<FrameId>)
    ensures Unleased(q + [f], leases) == Unleased(q, leases) + if f in leases then [] else [f]
  {
    assert (q + [f])[..|q|] == q;
  }

  lemma {:induction false} OtherLease(q: seq<FrameId>, f: FrameId, leases: set<FrameId>)
    requires f !in q
    ensures Unleased(q, leases + {f}) == Unleased(q, leases)
    decreases |q|
  {
    if q != [] {
      OtherLease(q[..|q|-1], f, leases);
    }
  }

  lemma {:induction false} OccIn(q: seq<FrameId>, f: FrameId)
    ensures f in q <==> Occ(q, f) > 0
    decreases |q|
  {
    if q != [] {
      OccIn(q[1..], f);
    }
  }

  ghost predicate Distinct(q: seq<FrameId>) {
    forall i, j :: 0 <= i < j < |q| ==> q[i] != q[j]
  }

  /** A frame that has arrived is not on its way any more, and arrives once. */
  ghost predicate ArriveOnce(submitted: set<FrameId>, senders: set<FrameId>, queue: seq<FrameId>,
                             arrived: seq<FrameId>, leases: set<FrameId>) {
    && Distinct(arrived)
    && (forall f :: f in arrived || f in leases ==> f in submitted && f !in senders && f !in queue)
  }

  /** The order of arrival is that of the queue, but for the leases and what Close has taken. */
  ghost predicate ArriveInTurn(l: Logs) {
    Unleased(l.arrived, l.leases) + l.swept == l.taken
  }

  ghost predicate Arrival(s: State, l: Logs) {
    && ArriveOnce(s.submitted, s.senders.Keys, s.frames.queue, l.arrived, l.leases)
    && ArriveInTurn(l)
    && (l.swept != [] ==> Destroying(s.closer))
  }

  lemma ReceiveOnce(submitted: set<FrameId>, senders: set<FrameId>, queue: seq<FrameId>,
                    arrived: seq<FrameId>, leases: set<FrameId>)
    requires ArriveOnce(submitted, senders, queue, arrived, leases) && queue != []
    requires queue[0] in submitted && queue[0] !in senders && queue[0] !in queue[1..]
    ensures ArriveOnce(submitted, senders, queue[1..], arrived + [queue[0]], leases)
  {
  }

  /** The frame at the front of the queue is nowhere else. */
  lemma FrontAlone(s: State)
    requires s.frames.queue != [] && Inv(s, s.frames.queue[0])
    ensures var f := s.frames.queue[0]; f in s.submitted && f !in s.senders && f !in s.frames.queue[1..]
  {
    OccIn(s.frames.queue[1..], s.frames.queue[0]);
  }

  lemma LeaseIsNew(s: State, a: Action)
    requires a.LeaseArrives? && Enabled(s, a) && Inv(s, a.f)
    ensures a.f !in s.frames.queue && a.f !in s.senders
  {
    OccIn(s.frames.queue, a.f);
  }

  lemma ReceiveEffect(s: State, a: Action)
    requires Receives(s, a) && Enabled(s, a)
    ensures Apply(s, a).frames.queue == s.frames.queue[1..]
    ensures Apply(s, a).senders == s.senders && Apply(s, a).submitted == s.submitted
  {
  }

  lemma ReceiveLogs(s: State, a: Action, l: Logs)
    requires Receives(s, a)
    ensures var n, f := Note(l, s, a), s.frames.queue[0];
            && n.arrived == l.arrived + [f] && n.taken == l.taken + [f]
            && n.leases == l.leases && n.swept == l.swept
  {
  }

  lemma ReceiveInTurn(l: Logs, n: Logs, f: FrameId)
    requires ArriveInTurn(l) && l.swept == [] && f !in l.leases
    requires n.arrived == l.arrived + [f] && n.taken == l.taken + [f] && n.leases == l.leases && n.swept == l.swept
    ensures ArriveInTurn(n)
  {
    UnleasedAppend(l.arrived, f, l.leases);
  }

  lemma ReceiveArrives(s: State, a: Action, l: Logs)
    requires Receives(s, a) && Enabled(s, a) && Arrival(s, l) && !Destroying(s.closer)
    requires var f := s.frames.queue[0]; f in s.submitted && f !in s.senders && f !in s.frames.queue[1..]
    ensures Arrival(Apply(s, a), Note(l, s, a))
  {
    ReceiveEffect(s, a);
    ReceiveLogs(s, a, l);
    ReceiveOnce(s.submitted, s.senders.Keys, s.frames.queue, l.arrived, l.leases);
    ReceiveInTurn(l, Note(l, s, a), s.frames.queue[0]);
  }

  lemma LeaseOnce(submitted: set<FrameId>, senders: set<FrameId>, queue: seq<FrameId>, arrived: seq<FrameId>,
                  leases: set<FrameId>, f: FrameId)
    requires ArriveOnce(submitted, senders, queue, arrived, leases)
    requires f !in submitted && f !in senders && f !in queue
    ensures ArriveOnce(submitted + {f}, senders, queue, arrived + [f], leases + {f})
  {
    assert f !in arrived;
  }

  lemma LeaseInTurn(l: Logs, n: Logs, f: FrameId)
    requires ArriveInTurn(l) && f !in l.arrived
    requires n.arrived == l.arrived + [f] && n.leases == l.leases + {f} && n.taken == l.taken && n.swept == l.swept
    ensures ArriveInTurn(n)
  {
    OtherLease(l.arrived, f, l.leases);
    UnleasedAppend(l.arrived, f, l.leases + {f});
    assert Unleased(l.arrived, l.leases) + [] == Unleased(l.arrived, l.leases);
  }

  lemma LeaseLogs(s: State, a: Action, l: Logs)
    requires a.LeaseArrives?
    ensures var n := Note(l, s, a);
            && n.arrived == l.arrived + [a.f] && n.leases == l.leases + {a.f}
            && n.taken == l.taken && n.swept == l.swept
  {
  }

  lemma LeaseArrives(s: State, a: Action, l: Logs)
    requires a.LeaseArrives? && Enabled(s, a) && Arrival(s, l) && a.f !in s.frames.queue && a.f !in s.senders
    ensures Arrival(Apply(s, a), Note(l, s, a))
  {
    LeaseLogs(s, a, l);
    LeaseOnce(s.submitted, s.senders.Keys, s.frames.queue, l.arrived, l.leases, a.f);
    LeaseInTurn(l, Note(l, s, a), a.f);
  }

  /** No frame arrives. */
  lemma NothingNew(s: State, a: Action, l: Logs)
    requires !a.LeaseArrives? && !Receives(s, a) && !Sweeps(s, a)
    ensures var n := Note(l, s, a);
            n.arrived == l.arrived && n.leases == l.leases && n.swept == l.swept && n.taken == l.taken
  {
  }

  lemma SenderArrival(s: State, a: Action, l: Logs)
    requires a.SenderStep? && Enabled(s, a) && Arrival(s, l)
    ensures Arrival(Apply(s, a), Note(l, s, a))
  {
    NothingNew(s, a, l);
    assert a.f !in l.arrived && a.f !in l.leases;
  }

  lemma SweepArrival(s: State, a: Action, l: Logs)
    requires Sweeps(s, a) && Enabled(s, a) && Arrival(s, l)
    ensures Arrival(Apply(s, a), Note(l, s, a))
  {
    assert l.arrived + [] == l.arrived;
    var f := s.frames.queue[0];
    assert Unleased(l.arrived, l.leases) + (l.swept + [f]) == l.taken + [f];
  }

  lemma OnTheirWay(s: State, a: Action)
    requires !a.LeaseArrives? && !Receives(s, a) && !Sweeps(s, a) && !a.SenderStep? && Enabled(s, a)
    ensures var t := Apply(s, a);
            && t.frames.queue == s.frames.queue && s.submitted <= t.submitted
            && t.senders.Keys <= s.senders.Keys + (t.submitted - s.submitted)
            && (Destroying(s.closer) ==> Destroying(t.closer))
  {
    if a.WriterStep? || a.CloserStep? {
      TakerEffect(s, a);
    }
  }

  lemma OtherArrival(s: State, a: Action, l: Logs)
    requires !a.LeaseArrives? && !Receives(s, a) && !Sweeps(s, a) && !a.SenderStep?
    requires Enabled(s, a) && Arrival(s, l)
    ensures Arrival(Apply(s, a), Note(l, s, a))
  {
    NothingNew(s, a, l);
    OnTheirWay(s, a);
  }

  lemma ArrivalStep(s: State, a: Action, l: Logs)
    requires Enabled(s, a) && Arrival(s, l) && forall f :: Inv(s, f)
    ensures Arrival(Apply(s, a), Note(l, s, a))
  {
    if Receives(s, a) {
      assert Inv(s, s.frames.queue[0]);
      FrontAlone(s);
      ReceiveArrives(s, a, l);
    } else if Sweeps(s, a) {
      SweepArrival(s, a, l);
    } else {
      match a
      case LeaseArrives(f) =>
        assert Inv(s, f);
        LeaseIsNew(s, a);
        LeaseArrives(s, a, l);
      case SenderStep(_) => SenderArrival(s, a, l);
      case _ => OtherArrival(s, a, l);
    }
  }

  lemma {:induction false} AllInv(keepalive: bool, run: seq<Action>)
    requires Legal(Init(keepalive), run)
    ensures forall f :: Inv(Exec(Init(keepalive), run), f)
  {
    forall f: FrameId
      ensures Inv(Exec(Init(keepalive), run), f)
    {
      RunKeepsInv(keepalive, run, f);
    }
  }

  lemma {:induction false} ArrivalAlways(keepalive: bool, run: seq<Action>)
    requires Legal(Init(keepalive), run)
    ensures Arrival(Exec(Init(keepalive), run), LogsOf(Init(keepalive), run))
  {
    if run != [] {
      var before := run[..|run|-1];
      ArrivalAlways(keepalive, before);
      AllInv(keepalive, before);
      ArrivalStep(Exec(Init(keepalive), before), run[|run|-1], LogsOf(Init(keepalive), before));
    }
  }

  // Runs without trouble

  function InHand(w: Writer): seq<FrameId> {
    if w.Got? || w.Sending? then [w.f] else []
  }

  ghost predicate EverTroubles(s: State, run: seq<Action>)
    requires Legal(s, run)
  {
    run != [] && (EverTroubles(s, run[..|run|-1]) || Troubles(Exec(s, run[..|run|-1]), run[|run|-1]))
  }

  ghost predicate Smooth(s: State, l: Logs) {
    l.sent + InHand(s.writer) == l.arrived && s.frames.backlog == []
  }

  lemma SmoothWriter(s: State, ok: bool, l: Logs)
    requires WriterReady(s, ok) && !Troubles(s, WriterStep(ok)) && Smooth(s, l) && Coordinated(s)
    ensures Smooth(Apply(s, WriterStep(ok)), Note(l, s, WriterStep(ok)))
  {
    assert l.arrived + [] == l.arrived && l.sent + [] == l.sent;
  }

  lemma SmoothStep(s: State, a: Action, l: Logs)
    requires Enabled(s, a) && !Troubles(s, a) && Smooth(s, l) && Coordinated(s)
    ensures Smooth(Apply(s, a), Note(l, s, a))
  {
    match a
    case WriterStep(ok) => SmoothWriter(s, ok, l);
    case _ => assert l.arrived + [] == l.arrived && l.sent + [] == l.sent;
  }

  lemma {:induction false} SmoothAlways(keepalive: bool, run: seq<Action>)
    requires Legal(Init(keepalive), run) && !EverTroubles(Init(keepalive), run)
    ensures Smooth(Exec(Init(keepalive), run), LogsOf(Init(keepalive), run))
  {
    if run != [] {
      var before := run[..|run|-1];
      SmoothAlways(keepalive, before);
      RunKeepsInv(keepalive, before, 0);
      SmoothStep(Exec(Init(keepalive), before), run[|run|-1], LogsOf(Init(keepalive), before));
    }
  }

  /**
   As long as a transport is set and every sending succeeds, the frames sent, leases aside, are a prefix
   of those pushed; what is missing is with the write loop, taken by Close, or in the queue, in this order.
   */
  lemma {:induction false} SentAsPushed(keepalive: bool, run: seq<Action>)
    requires Legal(Init(keepalive), run) && !EverTroubles(Init(keepalive), run)
    ensures var s, l := Exec(Init(keepalive), run), LogsOf(Init(keepalive), run);
            && Unleased(l.sent + InHand(s.writer), l.leases) + l.swept + s.frames.queue == l.pushed
            && Unleased(l.sent, l.leases) <= l.pushed
  {
    SmoothAlways(keepalive, run);
    ArrivalAlways(keepalive, run);
    QueueIsFifo(keepalive, run);
    var s, l := Exec(Init(keepalive), run), LogsOf(Init(keepalive), run);
    if InHand(s.writer) == [] {
      assert l.sent + [] == l.sent;
    } else {
      UnleasedAppend(l.sent, s.writer.f, l.leases);
    }
  }

  // The order of sending in any run

  /** x arrived before y. */
  ghost predicate Before(arrived: seq<FrameId>, x: FrameId, y: FrameId) {
    exists i, j :: 0 <= i < j < |arrived| && arrived[i] == x && arrived[j] == y
  }

  ghost predicate InOrder(line: seq<FrameId>, arrived: seq<FrameId>) {
    && (forall x :: x in line ==> x in arrived)
    && forall i, j :: 0 <= i < j < |line| ==> Before(arrived, line[i], line[j])
  }

  /** The frames sent, then those that the write loop still has to send: the backlog and the one in hand. */
  ghost function Line(s: State, l: Logs): seq<FrameId>
    requires PrefixOk(s)
  {
    l.sent + s.frames.backlog[SettledPrefix(s.writer, s.closer)..] + InHand(s.writer)
  }

  /** A frame is sent ahead of the frames in the backlog. */
  predicate Overtakes(s: State, a: Action) {
    a == WriterStep(true) && s.writer.Sending? && s.frames.backlog != []
  }

  lemma BeforeGrows(arrived: seq<FrameId>, f: FrameId, x: FrameId, y: FrameId)
    requires Before(arrived, x, y)
    ensures Before(arrived + [f], x, y)
  {
    var i, j :| 0 <= i < j < |arrived| && arrived[i] == x && arrived[j] == y;
    assert (arrived + [f])[i] == x && (arrived + [f])[j] == y;
  }

  lemma BeforeNewest(arrived: seq<FrameId>, x: FrameId, f: FrameId)
    requires x in arrived
    ensures Before(arrived + [f], x, f)
  {
    var i :| 0 <= i < |arrived| && arrived[i] == x;
    assert (arrived + [f])[i] == x && (arrived + [f])[|arrived|] == f;
  }

  lemma BeforeOneWay(arrived: seq<FrameId>, x: FrameId, y: FrameId)
    requires Distinct(arrived) && Before(arrived, x, y)
    ensures !Before(arrived, y, x)
  {
  }

  lemma OrderGrows(line: seq<FrameId>, arrived: seq<FrameId>, f: FrameId)
    requires InOrder(line, arrived)
    ensures InOrder(line + [f], arrived + [f])
  {
    var more := line + [f];
    forall i, j | 0 <= i < j < |more|
      ensures Before(arrived + [f], more[i], more[j])
    {
      assert more[i] == line[i];
      if j < |line| {
        BeforeGrows(arrived, f, line[i], line[j]);
      } else {
        BeforeNewest(arrived, line[i], f);
      }
    }
  }

  lemma OrderDrops(p: seq<FrameId>, q: seq<FrameId>, r: seq<FrameId>, arrived: seq<FrameId>)
    requires InOrder(p + q + r, arrived)
    ensures InOrder(p + r, arrived)
  {
    var all, rest := p + q + r, p + r;
    assert forall i :: 0 <= i < |p| ==> rest[i] == all[i];
    assert forall i :: |p| <= i < |rest| ==> rest[i] == all[i + |q|];
    forall x | x in rest
      ensures x in arrived
    {
      assert x in all;
    }
    forall i, j | 0 <= i < j < |rest|
      ensures Before(arrived, rest[i], rest[j])
    {
      var i', j' := if i < |p| then i else i + |q|, if j < |p| then j else j + |q|;
      assert Before(arrived, all[i'], all[j']);
    }
  }

  lemma OrderReversed(p: seq<FrameId>, q: seq<FrameId>, f: FrameId, arrived: seq<FrameId>)
    requires InOrder(p + q + [f], arrived) && Distinct(arrived) && q != []
    ensures !InOrder(p + [f] + q, arrived)
  {
    var all, other := p + q + [f], p + [f] + q;
    assert all[|p|] == q[0] && all[|p| + |q|] == f;
    assert other[|p|] == f && other[|p| + 1] == q[0];
    BeforeOneWay(arrived, q[0], f);
  }

  /** Every step but a receive, a send ahead of the backlog and the end of a frame leaves the line as it is. */
  lemma LineOfOthers(s: State, a: Action, l: Logs)
    requires Enabled(s, a) && Coordinated(s) && PrefixOk(s) && PrefixOk(Apply(s, a))
    requires !a.WriterStep? && !a.CloserStep? && !a.LeaseArrives?
    ensures Line(Apply(s, a), Note(l, s, a)) == Line(s, l) && Note(l, s, a).arrived == l.arrived
  {
    assert l.sent + [] == l.sent && l.arrived + [] == l.arrived;
  }

  lemma LineOfLease(s: State, a: Action, l: Logs)
    requires Enabled(s, a) && a.LeaseArrives? && Coordinated(s) && PrefixOk(s)
    ensures PrefixOk(Apply(s, a)) && Line(Apply(s, a), Note(l, s, a)) == Line(s, l) + [a.f]
    ensures Note(l, s, a).arrived == l.arrived + [a.f]
  {
    assert l.sent + [] == l.sent;
  }

  /** Frames of the line that are given up, lost or destroyed. */
  ghost predicate LineShrinks(line: seq<FrameId>, after: seq<FrameId>) {
    exists p, q, r :: line == p + q + r && after == p + r
  }

  lemma LineOfCloser(s: State, l: Logs)
    requires Enabled(s, CloserStep) && Coordinated(s) && PrefixOk(s) && PrefixOk(Apply(s, CloserStep))
    ensures Note(l, s, CloserStep).arrived == l.arrived
    ensures LineShrinks(Line(s, l), Line(Apply(s, CloserStep), Note(l, s, CloserStep)))
  {
    assert l.sent + [] == l.sent && l.arrived + [] == l.arrived;
    var line, after := Line(s, l), Line(Apply(s, CloserStep), Note(l, s, CloserStep));
    if s.closer.DestroyBacklog? && s.closer.i < |s.frames.backlog| {
      var b, i := s.frames.backlog, s.closer.i;
      assert b[i..] == [b[i]] + b[i+1..];
      assert line == l.sent + [b[i]] + b[i+1..] && after == l.sent + b[i+1..];
    } else {
      assert line == line + [] + [] && after == line + [];
    }
  }

  /** The line after a step of the write loop. */
  ghost function WriterLine(s: State, ok: bool, l: Logs): seq<FrameId>
    requires WriterReady(s, ok) && SettledPrefix(WriterNext(s, ok), s.closer) <= |WriterEffect(s, ok).backlog|
  {
    (l.sent + SentBy(s, WriterStep(ok)))
    + WriterEffect(s, ok).backlog[SettledPrefix(WriterNext(s, ok), s.closer)..] + InHand(WriterNext(s, ok))
  }

  lemma StartLine(s: State, ok: bool, l: Logs)
    requires s.writer.BacklogStart? && !Destroying(s.closer)
    ensures LineShrinks(Line(s, l), WriterLine(s, ok, l))
  {
    assert l.sent + [] == l.sent;
    var b, line, after := s.frames.backlog, Line(s, l), WriterLine(s, ok, l);
    if s.hasTransport {
      assert line == line + [] + [] && after == line + [];
    } else {
      assert line == l.sent + b + [] && after == l.sent + [];
    }
  }

  lemma BacklogLine(s: State, ok: bool, l: Logs)
    requires s.writer.BacklogSend? && !Destroying(s.closer) && PrefixOk(s)
    ensures SettledPrefix(WriterNext(s, ok), s.closer) <= |WriterEffect(s, ok).backlog|
    ensures LineShrinks(Line(s, l), WriterLine(s, ok, l))
  {
    assert l.sent + [] == l.sent;
    var b, i, line, after := s.frames.backlog, s.writer.i, Line(s, l), WriterLine(s, ok, l);
    if i < |b| && !ok {
      assert line == l.sent + [b[i]] + b[i+1..] && after == l.sent + b[i+1..];
    } else {
      assert i < |b| ==> (l.sent + [b[i]]) + b[i+1..] == l.sent + b[i..];
      assert line == line + [] + [] && after == line + [];
    }
  }

  lemma HandLine(s: State, ok: bool, l: Logs)
    requires (s.writer.Got? || s.writer.Sending?) && !Destroying(s.closer) && !Overtakes(s, WriterStep(ok))
    ensures WriterLine(s, ok, l) == Line(s, l)
  {
    MovedBack(l.sent, s.frames.backlog, s.writer.f);
    if s.writer.Got? {
      GotLine(s, ok, l);
    } else {
      SendingLine(s, ok, l);
    }
  }

  lemma MovedBack(sent: seq<FrameId>, b: seq<FrameId>, f: FrameId)
    ensures (sent + []) + b[0..] + [f] == sent + b[0..] + [f]
    ensures (sent + []) + (b + [f])[0..] + [] == sent + b[0..] + [f]
    ensures b == [] ==> (sent + [f]) + b[0..] + [] == sent + b[0..] + [f]
  {
  }

  lemma GotLine(s: State, ok: bool, l: Logs)
    requires s.writer.Got? && !Destroying(s.closer)
    requires (l.sent + []) + s.frames.backlog[0..] + [s.writer.f] == Line(s, l)
    requires (l.sent + []) + (s.frames.backlog + [s.writer.f])[0..] + [] == Line(s, l)
    ensures WriterLine(s, ok, l) == Line(s, l)
  {
    assert SentBy(s, WriterStep(ok)) == [];
  }

  lemma SendingLine(s: State, ok: bool, l: Logs)
    requires s.writer.Sending? && !Destroying(s.closer)
    requires ok ==> (l.sent + [s.writer.f]) + s.frames.backlog[0..] + [] == Line(s, l)
    requires !ok ==> (l.sent + []) + (s.frames.backlog + [s.writer.f])[0..] + [] == Line(s, l)
    ensures WriterLine(s, ok, l) == Line(s, l)
  {
    assert SentBy(s, WriterStep(ok)) == if ok then [s.writer.f] else [];
  }

  lemma RestLine(s: State, ok: bool, l: Logs)
    requires !s.writer.BacklogStart? && !s.writer.BacklogSend? && !s.writer.Got? && !s.writer.Sending?
    requires WriterReady(s, ok) && PrefixOk(s) && !Receives(s, WriterStep(ok))
    ensures SettledPrefix(WriterNext(s, ok), s.closer) <= |WriterEffect(s, ok).backlog|
    ensures WriterLine(s, ok, l) == Line(s, l)
  {
    assert l.sent + [] == l.sent;
  }

  lemma ReceiveLine(s: State, ok: bool, l: Logs)
    requires WriterReady(s, ok) && PrefixOk(s) && Receives(s, WriterStep(ok)) && !Destroying(s.closer)
    ensures SettledPrefix(WriterNext(s, ok), s.closer) <= |WriterEffect(s, ok).backlog|
    ensures WriterLine(s, ok, l) == Line(s, l) + [s.frames.queue[0]]
    ensures Note(l, s, WriterStep(ok)).arrived == l.arrived + [s.frames.queue[0]]
  {
    assert l.sent + [] == l.sent;
  }

  lemma OrderShrinks(line: seq<FrameId>, after: seq<FrameId>, arrived: seq<FrameId>)
    requires InOrder(line, arrived) && LineShrinks(line, after)
    ensures InOrder(after, arrived)
  {
    var p, q, r :| line == p + q + r && after == p + r;
    OrderDrops(p, q, r, arrived);
  }

  lemma WriterOrder(s: State, ok: bool, l: Logs)
    requires WriterReady(s, ok) && Coordinated(s) && PrefixOk(s) && InOrder(Line(s, l), l.arrived)
    requires !Overtakes(s, WriterStep(ok))
    ensures SettledPrefix(WriterNext(s, ok), s.closer) <= |WriterEffect(s, ok).backlog|
    ensures InOrder(WriterLine(s, ok, l), Note(l, s, WriterStep(ok)).arrived)
  {
    if Receives(s, WriterStep(ok)) {
      ReceiveLine(s, ok, l);
      OrderGrows(Line(s, l), l.arrived, s.frames.queue[0]);
    } else {
      assert Note(l, s, WriterStep(ok)).arrived == l.arrived;
      if s.writer.BacklogStart? {
        StartLine(s, ok, l);
        OrderShrinks(Line(s, l), WriterLine(s, ok, l), l.arrived);
      } else if s.writer.BacklogSend? {
        BacklogLine(s, ok, l);
        OrderShrinks(Line(s, l), WriterLine(s, ok, l), l.arrived);
      } else if s.writer.Got? || s.writer.Sending? {
        HandLine(s, ok, l);
      } else {
        RestLine(s, ok, l);
      }
    }
  }

  lemma CloserOrder(s: State, l: Logs)
    requires Enabled(s, CloserStep) && Coordinated(s) && PrefixOk(s) && PrefixOk(Apply(s, CloserStep))
    requires InOrder(Line(s, l), l.arrived)
    ensures InOrder(Line(Apply(s, CloserStep), Note(l, s, CloserStep)), Note(l, s, CloserStep).arrived)
  {
    LineOfCloser(s, l);
    OrderShrinks(Line(s, l), Line(Apply(s, CloserStep), Note(l, s, CloserStep)), l.arrived);
  }

  lemma OrderStep(s: State, a: Action, l: Logs)
    requires Enabled(s, a) && !Overtakes(s, a) && Coordinated(s) && PrefixOk(s) && PrefixOk(Apply(s, a))
    requires InOrder(Line(s, l), l.arrived)
    ensures InOrder(Line(Apply(s, a), Note(l, s, a)), Note(l, s, a).arrived)
  {
    match a
    case WriterStep(ok) => WriterOrder(s, ok, l);
    case CloserStep => CloserOrder(s, l);
    case LeaseArrives(f) =>
      LineOfLease(s, a, l);
      OrderGrows(Line(s, l), l.arrived, f);
    case _ => LineOfOthers(s, a, l);
  }

  lemma OvertakingBreaks(s: State, a: Action, l: Logs)
    requires Enabled(s, a) && Overtakes(s, a) && Coordinated(s)
    requires InOrder(Line(s, l), l.arrived) && Distinct(l.arrived)
    ensures PrefixOk(Apply(s, a)) && !InOrder(Line(Apply(s, a), Note(l, s, a)), Note(l, s, a).arrived)
  {
    OrderReversed(l.sent, s.frames.backlog, s.writer.f, l.arrived);
    var n := Note(l, s, a);
    assert n.arrived == l.arrived && n.sent == l.sent + [s.writer.f];
    assert s.frames.backlog[0..] == s.frames.backlog;
    assert Line(Apply(s, a), n) == l.sent + [s.writer.f] + s.frames.backlog;
  }

  /** What has been sent and what waits to be sent are in order of arrival. */
  ghost predicate Sorted(s: State, l: Logs) {
    PrefixOk(s) && InOrder(Line(s, l), l.arrived)
  }

  lemma SortedStep(s: State, a: Action, l: Logs)
    requires Enabled(s, a) && Coordinated(s) && PrefixOk(Apply(s, a)) && Distinct(l.arrived) && Sorted(s, l)
    ensures Sorted(Apply(s, a), Note(l, s, a)) <==> !Overtakes(s, a)
  {
    if Overtakes(s, a) {
      OvertakingBreaks(s, a, l);
    } else {
      OrderStep(s, a, l);
    }
  }

  lemma {:induction false} RunCoordinated(keepalive: bool, run: seq<Action>)
    requires Legal(Init(keepalive), run)
    ensures Coordinated(Exec(Init(keepalive), run)) && PrefixOk(Exec(Init(keepalive), run))
  {
    RunKeepsInv(keepalive, run, 0);
  }

  ghost predicate EverOvertakes(s: State, run: seq<Action>)
    requires Legal(s, run)
  {
    run != [] && (EverOvertakes(s, run[..|run|-1]) || Overtakes(Exec(s, run[..|run|-1]), run[|run|-1]))
  }

  ghost predicate AlwaysSorted(s: State, run: seq<Action>)
    requires Legal(s, run)
  {
    Sorted(Exec(s, run), LogsOf(s, run)) && (run != [] ==> AlwaysSorted(s, run[..|run|-1]))
  }

  /**
   Frames are sent in the order of their arrival, and what is still to be sent stays behind them in that
   order, at every moment, exactly in the runs in which no frame is sent while others wait in the backlog.
   */
  lemma {:induction false} InOrderExactly(keepalive: bool, run: seq<Action>)
    requires Legal(Init(keepalive), run)
    ensures AlwaysSorted(Init(keepalive), run) <==> !EverOvertakes(Init(keepalive), run)
  {
    if run != [] {
      var before := run[..|run|-1];
      InOrderExactly(keepalive, before);
      if AlwaysSorted(Init(keepalive), before) {
        RunCoordinated(keepalive, before);
        RunCoordinated(keepalive, run);
        ArrivalAlways(keepalive, before);
        SortedStep(Exec(Init(keepalive), before), run[|run|-1], LogsOf(Init(keepalive), before));
      }
    }
  }

  // What Done means

  function DoneBy(s: State, a: Action): seq<FrameId> {
    SentBy(s, a) + GivenUpBy(s, a) + RefusedBy(s, a) + DestroyedBy(s, a)
  }

  lemma DoneStep(s: State, a: Action)
    requires Enabled(s, a)
    ensures Apply(s, a).frames.done == s.frames.done + DoneBy(s, a)
  {
    match a
    case WriterStep(ok) => WriterDone(s, ok);
    case CloserStep => CloserDone(s);
    case SenderStep(_) =>
    case _ => assert s.frames.done + [] == s.frames.done;
  }

  lemma WriterDone(s: State, ok: bool)
    requires WriterReady(s, ok)
    ensures WriterEffect(s, ok).done == s.frames.done + DoneBy(s, WriterStep(ok))
  {
    assert s.frames.done + [] == s.frames.done;
  }

  lemma CloserDone(s: State)
    requires Enabled(s, CloserStep)
    ensures CloserEffect(s).done == s.frames.done + DoneBy(s, CloserStep)
  {
    assert s.frames.done + [] == s.frames.done;
  }

  lemma {:induction false} DoneByOcc(s: State, a: Action, f: FrameId)
    ensures Occ(DoneBy(s, a), f)
         == Occ(SentBy(s, a), f) + Occ(GivenUpBy(s, a), f) + Occ(RefusedBy(s, a), f) + Occ(DestroyedBy(s, a), f)
  {
    OccConcat(SentBy(s, a) + GivenUpBy(s, a) + RefusedBy(s, a), DestroyedBy(s, a), f);
    OccConcat(SentBy(s, a) + GivenUpBy(s, a), RefusedBy(s, a), f);
    OccConcat(SentBy(s, a), GivenUpBy(s, a), f);
  }

  /** Where the calls of Done come from. */
  ghost predicate Explained(s: State, l: Logs, f: FrameId) {
    Occ(s.frames.done, f) == Occ(l.sent, f) + Occ(l.givenUp, f) + Occ(l.refused, f) + Occ(l.destroyed, f)
  }

  lemma ExplainedStep(s: State, a: Action, l: Logs, f: FrameId)
    requires Enabled(s, a) && Explained(s, l, f)
    ensures Explained(Apply(s, a), Note(l, s, a), f)
  {
    DoneStep(s, a);
    DoneByOcc(s, a, f);
    OccConcat(s.frames.done, DoneBy(s, a), f);
    OccConcat(l.sent, SentBy(s, a), f);
    OccConcat(l.givenUp, GivenUpBy(s, a), f);
    OccConcat(l.refused, RefusedBy(s, a), f);
    OccConcat(l.destroyed, DestroyedBy(s, a), f);
  }

  /** Only what has been kept is in the backlog or given up from it, and only Close refuses and destroys. */
  ghost predicate Grounded(s: State, l: Logs) {
    && (forall f :: f in s.frames.backlog || f in l.givenUp ==> f in l.kept)
    && (l.refused != [] || l.destroyed != [] ==> s.closed)
  }

  lemma GroundedWriter(s: State, ok: bool, l: Logs)
    requires WriterReady(s, ok) && Grounded(s, l)
    ensures Grounded(Apply(s, WriterStep(ok)), Note(l, s, WriterStep(ok)))
  {
    assert forall f :: f in WriterEffect(s, ok).backlog ==> f in l.kept + KeptBy(s, WriterStep(ok));
    assert forall f :: f in l.givenUp + GivenUpBy(s, WriterStep(ok)) ==> f in l.kept;
  }

  lemma GroundedCloser(s: State, l: Logs)
    requires Enabled(s, CloserStep) && Grounded(s, l)
    ensures Grounded(Apply(s, CloserStep), Note(l, s, CloserStep))
  {
    assert GivenUpBy(s, CloserStep) == [] && KeptBy(s, CloserStep) == [];
    assert forall f :: f in CloserEffect(s).backlog ==> f in l.kept;
  }

  lemma GroundedSender(s: State, a: Action, l: Logs)
    requires a.SenderStep? && Enabled(s, a) && Grounded(s, l) && Coordinated(s)
    ensures Grounded(Apply(s, a), Note(l, s, a))
  {
    assert SenderEffect(s, a.f).backlog == s.frames.backlog;
    assert RefusedBy(s, a) != [] ==> s.closed;
  }

  lemma GroundedStep(s: State, a: Action, l: Logs)
    requires Enabled(s, a) && Grounded(s, l) && Coordinated(s)
    ensures Grounded(Apply(s, a), Note(l, s, a))
  {
    match a
    case WriterStep(ok) => GroundedWriter(s, ok, l);
    case CloserStep => GroundedCloser(s, l);
    case SenderStep(_) => GroundedSender(s, a, l);
    case _ =>
  }

  lemma {:induction false} GroundedAlways(keepalive: bool, run: seq<Action>, f: FrameId)
    requires Legal(Init(keepalive), run)
    ensures Explained(Exec(Init(keepalive), run), LogsOf(Init(keepalive), run), f)
    ensures Grounded(Exec(Init(keepalive), run), LogsOf(Init(keepalive), run))
  {
    if run != [] {
      var before := run[..|run|-1];
      var s, l := Exec(Init(keepalive), before), LogsOf(Init(keepalive), before);
      GroundedAlways(keepalive, before, f);
      RunCoordinated(keepalive, before);
      ExplainedStep(s, run[|run|-1], l, f);
      GroundedStep(s, run[|run|-1], l);
    }
  }

  /**
   Before Close is called, Done is called for a frame exactly when the transport has accepted it, or when
   it was kept in the backlog, tried again and has failed; each at most once, and not both.
   */
  lemma {:induction false} DoneBeforeClose(keepalive: bool, run: seq<Action>, f: FrameId)
    requires Legal(Init(keepalive), run)
    ensures var s, l := Exec(Init(keepalive), run), LogsOf(Init(keepalive), run);
            && Occ(l.sent, f) + Occ(l.givenUp, f) <= Occ(s.frames.done, f) <= 1
            && (f in l.givenUp ==> f in l.kept)
            && (!s.closed ==> Occ(s.frames.done, f) == Occ(l.sent, f) + Occ(l.givenUp, f))
  {
    GroundedAlways(keepalive, run, f);
    DoneAtMostOnce(keepalive, run, f);
  }

  // Frames submitted one after the other

  lemma PushedStep(s: State, a: Action, l: Logs)
    requires Enabled(s, a) && s.senders.Keys <= s.submitted && forall f :: f in l.pushed ==> f in s.submitted
    ensures forall f :: f in Note(l, s, a).pushed ==> f in Apply(s, a).submitted
  {
  }

  lemma {:induction false} PushedSubmitted(keepalive: bool, run: seq<Action>)
    requires Legal(Init(keepalive), run)
    ensures forall f :: f in LogsOf(Init(keepalive), run).pushed ==> f in Exec(Init(keepalive), run).submitted
  {
    if run != [] {
      var before := run[..|run|-1];
      PushedSubmitted(keepalive, before);
      RunKeepsInv(keepalive, before, 0);
      PushedStep(Exec(Init(keepalive), before), run[|run|-1], LogsOf(Init(keepalive), before));
    }
  }

  lemma {:induction false} PushedGrows(s: State, run: seq<Action>, k: nat)
    requires Legal(s, run) && k <= |run|
    ensures Legal(s, run[..k]) && LogsOf(s, run[..k]).pushed <= LogsOf(s, run).pushed
    decreases |run|
  {
    if k < |run| {
      assert run[..|run|-1][..k] == run[..k];
      PushedGrows(s, run[..|run|-1], k);
    } else {
      assert run[..k] == run;
    }
  }

  /** A frame that is submitted only after another has been pushed stays behind it in the queue. */
  lemma {:induction false} SubmittedInTurn(keepalive: bool, run: seq<Action>, k: nat, f: FrameId, g: FrameId)
    requires Legal(Init(keepalive), run) && k <= |run| && Legal(Init(keepalive), run[..k])
    requires f in LogsOf(Init(keepalive), run[..k]).pushed && g !in Exec(Init(keepalive), run[..k]).submitted
    requires g in LogsOf(Init(keepalive), run).pushed
    ensures Before(LogsOf(Init(keepalive), run).pushed, f, g)
  {
    PushedGrows(Init(keepalive), run, k);
    PushedSubmitted(keepalive, run[..k]);
    var early, late := LogsOf(Init(keepalive), run[..k]).pushed, LogsOf(Init(keepalive), run).pushed;
    var i :| 0 <= i < |early| && early[i] == f;
    var j :| 0 <= j < |late| && late[j] == g;
    assert late[i] == f;
  }
}
