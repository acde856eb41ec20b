/**
 Linearizability of the lock-free queue: for every run there is a run of an atomic FIFO
 queue with the same calls and returns in the same order.

 The only operation without a fixed linearization point is a Dequeue that returns nil: it
 takes effect when it reads a nil successor, but only if its later check of q.head
 succeeds. The simulation is therefore stated for every set of such undecided calls.
 */
module LKQueueLinearizability {
  import opened Options
  import opened LKQueue
  import opened LKQueueInvariant

  // The atomic queue: each call takes effect at one instant between call and return

  datatype SpecCall<V> = Todo(op: Op<V>) | Did(result: Option<V>)

  datatype Spec<V> = Spec(queue: seq<V>, calls: map<Tid, SpecCall<V>>)

  datatype SpecAction<V> = SpecStart(t: Tid, op: Op<V>) | TakeEffect(t: Tid) | SpecEnd(t: Tid)

  function SpecInit<V>(): Spec<V> {
    Spec([], map[])
  }

  predicate SpecEnabled<V>(q: Spec<V>, a: SpecAction<V>) {
    match a
    case SpecStart(t, _) => t !in q.calls
    case TakeEffect(t) => t in q.calls && q.calls[t].Todo?
    case SpecEnd(t) => t in q.calls && q.calls[t].Did?
  }

  /** The sequential meaning of an operation: the new contents and the value handed back. */
  function Perform<V>(queue: seq<V>, op: Op<V>): (seq<V>, Option<V>) {
    match op
    case Enq(v) => (queue + [v], None)
    case Deq => if queue == [] then (queue, None) else (queue[1..], Some(queue[0]))
  }

  function SpecApply<V>(q: Spec<V>, a: SpecAction<V>): Spec<V>
    requires SpecEnabled(q, a)
  {
    match a
    case SpecStart(t, op) => q.(calls := q.calls[t := Todo(op)])
    case TakeEffect(t) =>
      var (queue, result) := Perform(q.queue, q.calls[t].op);
      Spec(queue, q.calls[t := Did(result)])
    case SpecEnd(t) => q.(calls := q.calls - {t})
  }

  function SpecEmitted<V>(q: Spec<V>, a: SpecAction<V>): seq<Event<V>>
    requires SpecEnabled(q, a)
  {
    match a
    case SpecStart(t, op) => [Called(t, op)]
    case TakeEffect(_) => []
    case SpecEnd(t) => [Returned(t, q.calls[t].result)]
  }

  /** run takes the atomic queue from q to q' and shows the client exactly trace. */
  ghost predicate SpecRuns<V>(q: Spec<V>, run: seq<SpecAction<V>>, q': Spec<V>, trace: seq<Event<V>>)
    decreases run
  {
    if run == [] then q' == q && trace == []
    else
      && SpecEnabled(q, run[0])
      && SpecEmitted(q, run[0]) <= trace
      && SpecRuns(SpecApply(q, run[0]), run[1..], q', trace[|SpecEmitted(q, run[0])|..])
  }

  lemma {:induction false} SpecRunsAppend<V>(q: Spec<V>, r1: seq<SpecAction<V>>, q1: Spec<V>, e1: seq<Event<V>>,
                                             r2: seq<SpecAction<V>>, q2: Spec<V>, e2: seq<Event<V>>)
    requires SpecRuns(q, r1, q1, e1) && SpecRuns(q1, r2, q2, e2)
    ensures SpecRuns(q, r1 + r2, q2, e1 + e2)
    decreases r1
  {
    if r1 == [] {
      assert r1 + r2 == r2 && e1 + e2 == e2;
    } else {
      var k := |SpecEmitted(q, r1[0])|;
      SpecRunsAppend(SpecApply(q, r1[0]), r1[1..], q1, e1[k..], r2, q2, e2);
      assert (r1 + r2)[1..] == r1[1..] + r2;
      assert (e1 + e2)[k..] == e1[k..] + e2;
      assert SpecEmitted(q, r1[0]) <= e1 + e2;
    }
  }

  lemma {:induction false} SpecOne<V>(q: Spec<V>, a: SpecAction<V>)
    requires SpecEnabled(q, a)
    ensures SpecRuns(q, [a], SpecApply(q, a), SpecEmitted(q, a))
  {
    var e := SpecEmitted(q, a);
    assert [a][1..] == [] && e[|e|..] == [];
    assert SpecRuns(SpecApply(q, a), [], SpecApply(q, a), []);
  }

  // Abstraction

  /** The values of the linked nodes from position i on. */
  ghost function Values<V>(nodes: seq<Node<V>>, c: seq<Ptr>, i: nat): (vs: seq<V>)
    requires i <= |c| && forall k :: 0 <= k < |c| ==> c[k] < |nodes|
    ensures |vs| == |c| - i
    ensures forall k :: 0 <= k < |vs| ==> vs[k] == nodes[c[i+k]].value
    decreases |c| - i
  {
    if i == |c| then [] else [nodes[c[i]].value] + Values(nodes, c, i + 1)
  }

  /** A Dequeue that has seen head == tail with a nil successor and not yet re-checked q.head. */
  predicate SawEmpty<V>(pc: Pc<V>) {
    pc.DCheck? && pc.head == pc.tail && pc.next.None?
  }

  ghost function AbsCall<V>(m: Memory<V>, pc: Pc<V>, decided: bool): SpecCall<V> {
    if Owned(pc).Some? && Owned(pc).value < |m.nodes| then Todo(Enq(m.nodes[Owned(pc).value].value))
    else if pc.ESwing? || pc.EDone? then Did(None)
    else if pc.DDone? then Did(pc.result)
    else if decided then Did(None)
    else Todo(Deq)
  }

  ghost predicate Undecided<V>(s: State<V>, f: set<Tid>) {
    forall t :: t in f ==> t in s.threads && SawEmpty(s.threads[t])
  }

  ghost function Contents<V>(m: Memory<V>, c: seq<Ptr>): seq<V>
    requires MemoryOk(m, c)
  {
    PosIn(c, m.head);
    Values(m.nodes, c, Pos(c, m.head) + 1)
  }

  /** The atomic state that s stands for when the calls in f are going to return nil. */
  ghost function Abs<V>(s: State<V>, c: seq<Ptr>, f: set<Tid>): Spec<V>
    requires MemoryOk(s.mem, c)
  {
    Spec(Contents(s.mem, c), map t | t in s.threads :: AbsCall(s.mem, s.threads[t], t in f))
  }

  // The effect of one access on the contents

  lemma LinkAppends<V>(m: Memory<V>, c: seq<Ptr>, pc: Pc<V>)
    requires MemoryOk(m, c) && ThreadOk(m, c, pc) && pc.ELink? && Swaps(m, pc)
    ensures MemoryOk(Effect(m, pc), Extend(m, c, pc))
    ensures Contents(Effect(m, pc), Extend(m, c, pc)) == Contents(m, c) + [m.nodes[pc.n].value]
  {
    EffectKeepsMemory(m, c, pc);
    PosAppend(c, pc.n);
    PosIn(c, m.head);
  }

  lemma UnlinkRemoves<V>(m: Memory<V>, c: seq<Ptr>, pc: Pc<V>)
    requires MemoryOk(m, c) && ThreadOk(m, c, pc) && pc.DSwing? && Swaps(m, pc)
    ensures MemoryOk(Effect(m, pc), c)
    ensures Contents(m, c) == [pc.v] + Contents(Effect(m, pc), c)
  {
    EffectKeepsMemory(m, c, pc);
    PosIn(c, m.head);
    PosIn(c, pc.succ);
  }

  lemma OtherwiseSame<V>(m: Memory<V>, c: seq<Ptr>, pc: Pc<V>)
    requires MemoryOk(m, c) && ThreadOk(m, c, pc)
    requires !(Swaps(m, pc) && (pc.ELink? || pc.DSwing?))
    ensures MemoryOk(Effect(m, pc), c)
    ensures Contents(Effect(m, pc), c) == Contents(m, c)
  {
    EffectKeepsMemory(m, c, pc);
  }

  /** A Dequeue that reads a nil successor does so at an instant when the queue is empty. */
  lemma NilReadMeansEmpty<V>(m: Memory<V>, c: seq<Ptr>, pc: Pc<V>)
    requires MemoryOk(m, c) && ThreadOk(m, c, pc) && pc.DLoadNext? && pc.head < |m.nodes|
    requires m.nodes[pc.head].next == None
    ensures Contents(m, c) == []
  {
    Successor(m.nodes, c, pc.head);
    PosIn(c, m.head);
  }

  // One step of the simulation

  /** Another call looks the same to the atomic queue after the access at pc. */
  lemma OtherShown<V>(m: Memory<V>, c: seq<Ptr>, pc: Pc<V>, other: Pc<V>, decided: bool)
    requires OwnsFresh(m, c, other)
    ensures AbsCall(Effect(m, pc), other, decided) == AbsCall(m, other, decided)
  {
  }

  /** Other calls look the same to the atomic queue after a step of t. */
  lemma AbsUpdate<V>(s: State<V>, c: seq<Ptr>, t: Tid, f: set<Tid>, f': set<Tid>)
    requires Inv(s, c) && Enabled(s, Step(t)) && f - {t} == f' - {t}
    requires MemoryOk(Effect(s.mem, s.threads[t]), Extend(s.mem, c, s.threads[t]))
    ensures var s', c' := Apply(s, Step(t)), Extend(s.mem, c, s.threads[t]);
            Abs(s', c', f').calls == Abs(s, c, f).calls[t := AbsCall(s'.mem, s'.threads[t], t in f')]
  {
    var m' := Effect(s.mem, s.threads[t]);
    forall u | u in s.threads && u != t
      ensures AbsCall(m', s.threads[u], u in f') == AbsCall(s.mem, s.threads[u], u in f)
    {
      assert u in f <==> u in f - {t};
      assert u in f' <==> u in f' - {t};
      assert ThreadOk(s.mem, c, s.threads[u]);
      OtherShown(s.mem, c, s.threads[t], s.threads[u], u in f);
    }
  }

  /** What a step of t means to the atomic queue: nothing, or that t's call takes effect. */
  ghost function Simulated<V>(m: Memory<V>, pc: Pc<V>, t: Tid, f': set<Tid>): seq<SpecAction<V>> {
    if (Swaps(m, pc) && (pc.ELink? || pc.DSwing?)) || (pc.DLoadNext? && t in f') then [TakeEffect(t)] else []
  }

  /** The undecided calls before a step of t, given those after it. */
  ghost function Before<V>(m: Memory<V>, pc: Pc<V>, t: Tid, f': set<Tid>): set<Tid> {
    if pc.DLoadNext? then f' - {t}
    else if pc.DCheck? && SawEmpty(pc) && pc.head == m.head then f' + {t}
    else f'
  }

  lemma BeforeUndecided<V>(s: State<V>, t: Tid, f': set<Tid>)
    requires Enabled(s, Step(t)) && Undecided(Apply(s, Step(t)), f')
    ensures Undecided(s, Before(s.mem, s.threads[t], t, f'))
    ensures !s.threads[t].DLoadNext? ==> t !in f'
    ensures Before(s.mem, s.threads[t], t, f') - {t} == f' - {t}
  {
    var f := Before(s.mem, s.threads[t], t, f');
    forall u | u in f
      ensures u in s.threads && SawEmpty(s.threads[u])
    {
      if u != t {
        assert u in f';
      }
    }
  }

  /** The moving call itself, when nothing takes effect. */
  lemma SelfUnchanged<V>(m: Memory<V>, c: seq<Ptr>, pc: Pc<V>, t: Tid, f': set<Tid>)
    requires MemoryOk(m, c) && ThreadOk(m, c, pc) && Running(pc) && Simulated(m, pc, t, f') == []
    requires t in f' ==> pc.DLoadNext? && SawEmpty(Goto(m, pc))
    ensures AbsCall(Effect(m, pc), Goto(m, pc), t in f') == AbsCall(m, pc, t in Before(m, pc, t, f'))
  {
    OwnedAfter(m, pc);
    SelfStable(m, c, pc);
  }

  /** When the call of t takes effect, contents and result change as the operation says. */
  lemma EffectShown<V>(m: Memory<V>, c: seq<Ptr>, pc: Pc<V>, t: Tid, f': set<Tid>)
    requires MemoryOk(m, c) && ThreadOk(m, c, pc) && Running(pc) && Simulated(m, pc, t, f') != []
    requires t in f' ==> pc.DLoadNext? && SawEmpty(Goto(m, pc))
    ensures MemoryOk(Effect(m, pc), Extend(m, c, pc))
    ensures AbsCall(m, pc, t in Before(m, pc, t, f')).Todo?
    ensures Performed(m, c, pc, AbsCall(m, pc, t in Before(m, pc, t, f')).op, t in f')
  {
    EffectKeepsMemory(m, c, pc);
    if pc.ELink? {
      LinkPerformed(m, c, pc, t in f');
    } else if pc.DSwing? {
      SwingPerformed(m, c, pc, t in f');
    } else {
      NilReadMeansEmpty(m, c, pc);
    }
  }

  /** The access at pc changes contents and result as op says. */
  ghost predicate Performed<V>(m: Memory<V>, c: seq<Ptr>, pc: Pc<V>, op: Op<V>, decided: bool)
    requires MemoryOk(m, c) && MemoryOk(Effect(m, pc), Extend(m, c, pc)) && Running(pc)
  {
    var (queue, result) := Perform(Contents(m, c), op);
    && queue == Contents(Effect(m, pc), Extend(m, c, pc))
    && AbsCall(Effect(m, pc), Goto(m, pc), decided) == Did(result)
  }

  lemma LinkPerformed<V>(m: Memory<V>, c: seq<Ptr>, pc: Pc<V>, decided: bool)
    requires MemoryOk(m, c) && ThreadOk(m, c, pc) && pc.ELink? && Swaps(m, pc)
    ensures MemoryOk(Effect(m, pc), Extend(m, c, pc))
    ensures Performed(m, c, pc, Enq(m.nodes[pc.n].value), decided)
  {
    LinkAppends(m, c, pc);
  }

  lemma SwingPerformed<V>(m: Memory<V>, c: seq<Ptr>, pc: Pc<V>, decided: bool)
    requires MemoryOk(m, c) && ThreadOk(m, c, pc) && pc.DSwing? && Swaps(m, pc)
    ensures MemoryOk(Effect(m, pc), Extend(m, c, pc))
    ensures Performed(m, c, pc, Deq, decided)
  {
    UnlinkRemoves(m, c, pc);
  }

  lemma QuietStep<V>(s: State<V>, c: seq<Ptr>, t: Tid, f': set<Tid>)
    requires Inv(s, c) && Enabled(s, Step(t)) && Undecided(Apply(s, Step(t)), f')
    requires Simulated(s.mem, s.threads[t], t, f') == []
    ensures MemoryOk(Effect(s.mem, s.threads[t]), Extend(s.mem, c, s.threads[t]))
    ensures Abs(Apply(s, Step(t)), Extend(s.mem, c, s.threads[t]), f')
         == Abs(s, c, Before(s.mem, s.threads[t], t, f'))
  {
    var pc := s.threads[t];
    var f := Before(s.mem, pc, t, f');
    assert ThreadOk(s.mem, c, pc);
    OtherwiseSame(s.mem, c, pc);
    BeforeUndecided(s, t, f');
    AbsUpdate(s, c, t, f, f');
    SelfUnchanged(s.mem, c, pc, t, f');
    var calls := Abs(s, c, f).calls;
    assert calls[t := calls[t]] == calls;
  }

  lemma EffectStep<V>(s: State<V>, c: seq<Ptr>, t: Tid, f': set<Tid>)
    requires Inv(s, c) && Enabled(s, Step(t)) && Undecided(Apply(s, Step(t)), f')
    requires Simulated(s.mem, s.threads[t], t, f') != []
    ensures MemoryOk(Effect(s.mem, s.threads[t]), Extend(s.mem, c, s.threads[t]))
    ensures SpecEnabled(Abs(s, c, Before(s.mem, s.threads[t], t, f')), TakeEffect(t))
    ensures Abs(Apply(s, Step(t)), Extend(s.mem, c, s.threads[t]), f')
         == SpecApply(Abs(s, c, Before(s.mem, s.threads[t], t, f')), TakeEffect(t))
  {
    var pc := s.threads[t];
    assert ThreadOk(s.mem, c, pc);
    BeforeUndecided(s, t, f');
    EffectShown(s.mem, c, pc, t, f');
    AbsUpdate(s, c, t, Before(s.mem, pc, t, f'), f');
  }

  lemma SimulateStep<V>(s: State<V>, c: seq<Ptr>, t: Tid, f': set<Tid>)
    requires Inv(s, c) && Enabled(s, Step(t)) && Undecided(Apply(s, Step(t)), f')
    ensures MemoryOk(Effect(s.mem, s.threads[t]), Extend(s.mem, c, s.threads[t]))
    ensures SpecRuns(Abs(s, c, Before(s.mem, s.threads[t], t, f')), Simulated(s.mem, s.threads[t], t, f'),
                     Abs(Apply(s, Step(t)), Extend(s.mem, c, s.threads[t]), f'), [])
  {
    if Simulated(s.mem, s.threads[t], t, f') == [] {
      QuietStep(s, c, t, f');
    } else {
      EffectStep(s, c, t, f');
      SpecOne(Abs(s, c, Before(s.mem, s.threads[t], t, f')), TakeEffect(t));
    }
  }

  lemma AllocateSame<V>(m: Memory<V>, c: seq<Ptr>, op: Op<V>)
    requires MemoryOk(m, c)
    ensures MemoryOk(Allocate(m, op), c)
    ensures Contents(Allocate(m, op), c) == Contents(m, c)
  {
    if op.Enq? {
      AllocKeepsChain(m.nodes, c, op.v);
    }
  }

  /** The calls in progress do not notice a new node; the new call has yet to take effect. */
  lemma AllocateShown<V>(m: Memory<V>, c: seq<Ptr>, pc: Pc<V>, op: Op<V>, decided: bool)
    ensures OwnsFresh(m, c, pc) ==> AbsCall(Allocate(m, op), pc, decided) == AbsCall(m, pc, decided)
    ensures AbsCall(Allocate(m, op), Begin(m, op), false) == Todo(op)
  {
  }

  lemma CallShown<V>(s: State<V>, c: seq<Ptr>, t: Tid, op: Op<V>, f: set<Tid>)
    requires Inv(s, c) && t !in s.threads && t !in f
    requires MemoryOk(Allocate(s.mem, op), c)
    ensures Abs(Apply(s, Call(t, op)), c, f).calls == Abs(s, c, f).calls[t := Todo(op)]
  {
    forall u | u in s.threads
      ensures AbsCall(Allocate(s.mem, op), s.threads[u], u in f) == AbsCall(s.mem, s.threads[u], u in f)
    {
      assert ThreadOk(s.mem, c, s.threads[u]);
      AllocateShown(s.mem, c, s.threads[u], op, u in f);
    }
    AllocateShown(s.mem, c, Begin(s.mem, op), op, false);
  }

  lemma SimulateCall<V>(s: State<V>, c: seq<Ptr>, t: Tid, op: Op<V>, f: set<Tid>)
    requires Inv(s, c) && t !in s.threads && Undecided(Apply(s, Call(t, op)), f)
    ensures Undecided(s, f) && Inv(Apply(s, Call(t, op)), c)
    ensures Abs(Apply(s, Call(t, op)), c, f) == SpecApply(Abs(s, c, f), SpecStart(t, op))
  {
    CallKeepsInv(s, c, t, op);
    AllocateSame(s.mem, c, op);
    assert t !in f;
    CallShown(s, c, t, op, f);
  }

  lemma SimulateReturn<V>(s: State<V>, c: seq<Ptr>, t: Tid, f: set<Tid>)
    requires Inv(s, c) && Enabled(s, Return(t)) && Undecided(Apply(s, Return(t)), f)
    ensures Undecided(s, f) && SpecEnabled(Abs(s, c, f), SpecEnd(t)) && Inv(Apply(s, Return(t)), c)
    ensures Abs(Apply(s, Return(t)), c, f) == SpecApply(Abs(s, c, f), SpecEnd(t))
    ensures SpecEmitted(Abs(s, c, f), SpecEnd(t)) == Emitted(s, Return(t))
  {
    ActionKeepsInv(s, c, Return(t));
    assert Abs(Apply(s, Return(t)), c, f).calls == Abs(s, c, f).calls - {t};
  }

  // Whole runs

  /** Whichever undecided calls end up returning nil, the atomic queue can follow the run. */
  lemma {:induction false} Simulate<V>(zero: V, run: seq<Action<V>>, f: set<Tid>) returns (w: seq<SpecAction<V>>)
    requires Legal(Init(zero), run) && Undecided(Exec(Init(zero), run), f)
    ensures Inv(Exec(Init(zero), run), Chain(Init(zero), run))
    ensures SpecRuns(SpecInit(), w, Abs(Exec(Init(zero), run), Chain(Init(zero), run), f), Trace(Init(zero), run))
    decreases run
  {
    RunKeepsInv(zero, run);
    if run == [] {
      w := [];
      var c: seq<Ptr> := [0];
      assert Pos(c, 0) == 0;
      assert f == {};
      assert Abs(Init(zero), c, f) == SpecInit();
    } else {
      var run0, a := run[..|run|-1], run[|run|-1];
      var s, c := Exec(Init(zero), run0), Chain(Init(zero), run0);
      RunKeepsInv(zero, run0);
      var f0, a0, q1, e := f, [], Abs(Apply(s, a), NextChain(s, c, a), f), Emitted(s, a);
      match a {
        case Call(t, op) =>
          SimulateCall(s, c, t, op, f);
          SpecOne(Abs(s, c, f), SpecStart(t, op));
          a0 := [SpecStart(t, op)];
        case Return(t) =>
          SimulateReturn(s, c, t, f);
          SpecOne(Abs(s, c, f), SpecEnd(t));
          a0 := [SpecEnd(t)];
        case Step(t) =>
          SimulateStep(s, c, t, f);
          f0 := Before(s.mem, s.threads[t], t, f);
          a0 := Simulated(s.mem, s.threads[t], t, f);
          BeforeUndecided(s, t, f);
      }
      var w0 := Simulate(zero, run0, f0);
      SpecRunsAppend(SpecInit(), w0, Abs(s, c, f0), Trace(Init(zero), run0), a0, q1, e);
      w := w0 + a0;
    }
  }

  /**
   Linearizability, for any number of threads and any interleaving: the calls and returns of
   a run are those of a run of the atomic FIFO queue, whose contents at the end are the values
   linked and not yet unlinked.
   */
  lemma {:induction false} Linearizable<V>(zero: V, run: seq<Action<V>>)
    requires Legal(Init(zero), run)
    ensures MemoryOk(Exec(Init(zero), run).mem, Chain(Init(zero), run))
    ensures exists w, q :: SpecRuns(SpecInit(), w, q, Trace(Init(zero), run))
                        && q.queue == Contents(Exec(Init(zero), run).mem, Chain(Init(zero), run))
  {
    var w := Simulate(zero, run, {});
    var q := Abs(Exec(Init(zero), run), Chain(Init(zero), run), {});
    assert SpecRuns(SpecInit(), w, q, Trace(Init(zero), run));
  }

  // Order of the values

  /** The value an action puts into the queue: that of the node whose link succeeds. */
  ghost function LinkedBy<V>(s: State<V>, a: Action<V>): seq<V>
    requires Enabled(s, a)
  {
    if a.Step? && s.threads[a.t].ELink? && Swaps(s.mem, s.threads[a.t]) && s.threads[a.t].n < |s.mem.nodes|
    then [s.mem.nodes[s.threads[a.t].n].value] else []
  }

  /** The value an action takes out of the queue: the one Dequeue returns when it has moved q.head. */
  ghost function UnlinkedBy<V>(s: State<V>, a: Action<V>): seq<V>
    requires Enabled(s, a)
  {
    if a.Step? && s.threads[a.t].DSwing? && Swaps(s.mem, s.threads[a.t]) then [s.threads[a.t].v] else []
  }

  ghost function Linked<V>(s: State<V>, run: seq<Action<V>>): seq<V>
    requires Legal(s, run)
  {
    if run == [] then [] else Linked(s, run[..|run|-1]) + LinkedBy(Exec(s, run[..|run|-1]), run[|run|-1])
  }

  ghost function Unlinked<V>(s: State<V>, run: seq<Action<V>>): seq<V>
    requires Legal(s, run)
  {
    if run == [] then [] else Unlinked(s, run[..|run|-1]) + UnlinkedBy(Exec(s, run[..|run|-1]), run[|run|-1])
  }

  lemma EffectContents<V>(m: Memory<V>, c: seq<Ptr>, pc: Pc<V>)
    requires MemoryOk(m, c) && ThreadOk(m, c, pc)
    ensures MemoryOk(Effect(m, pc), Extend(m, c, pc))
    ensures var now := Contents(Effect(m, pc), Extend(m, c, pc));
            if pc.ELink? && Swaps(m, pc) then now == Contents(m, c) + [m.nodes[pc.n].value]
            else if pc.DSwing? && Swaps(m, pc) then [pc.v] + now == Contents(m, c)
            else now == Contents(m, c)
  {
    if pc.ELink? && Swaps(m, pc) {
      LinkAppends(m, c, pc);
    } else if pc.DSwing? && Swaps(m, pc) {
      UnlinkRemoves(m, c, pc);
    } else {
      OtherwiseSame(m, c, pc);
    }
  }

  lemma ActionContents<V>(s: State<V>, c: seq<Ptr>, a: Action<V>)
    requires Inv(s, c) && Enabled(s, a)
    ensures MemoryOk(Apply(s, a).mem, NextChain(s, c, a))
    ensures UnlinkedBy(s, a) + Contents(Apply(s, a).mem, NextChain(s, c, a)) == Contents(s.mem, c) + LinkedBy(s, a)
  {
    if a.Step? {
      assert ThreadOk(s.mem, c, s.threads[a.t]);
      EffectContents(s.mem, c, s.threads[a.t]);
    } else if a.Call? {
      AllocateSame(s.mem, c, a.op);
    }
  }

  lemma Account<V>(gone: seq<V>, leaves: seq<V>, now: seq<V>, before: seq<V>, enters: seq<V>)
    requires leaves + now == before + enters
    ensures (gone + leaves) + now == (gone + before) + enters
  {
    assert (gone + leaves) + now == gone + (leaves + now);
    assert (gone + before) + enters == gone + (before + enters);
  }

  /**
   Values leave in the order in which they were linked, none twice and none invented: what has
   left followed by what is still in the queue is exactly what was linked.
   */
  lemma {:induction false} FifoOrder<V>(zero: V, run: seq<Action<V>>)
    requires Legal(Init(zero), run)
    ensures MemoryOk(Exec(Init(zero), run).mem, Chain(Init(zero), run))
    ensures Unlinked(Init(zero), run) + Contents(Exec(Init(zero), run).mem, Chain(Init(zero), run))
         == Linked(Init(zero), run)
  {
    RunKeepsInv(zero, run);
    if run == [] {
      var c: seq<Ptr> := [0];
      assert Pos(c, 0) == 0;
    } else {
      var run0, a := run[..|run|-1], run[|run|-1];
      FifoOrder(zero, run0);
      RunKeepsInv(zero, run0);
      var s, c := Exec(Init(zero), run0), Chain(Init(zero), run0);
      ActionContents(s, c, a);
      Account(Unlinked(Init(zero), run0), UnlinkedBy(s, a), Contents(Apply(s, a).mem, NextChain(s, c, a)),
              Contents(s.mem, c), LinkedBy(s, a));
    }
  }
}
