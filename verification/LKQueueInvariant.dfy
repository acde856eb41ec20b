/**
 The structural invariant of the lock-free queue: the nodes linked so far form an acyclic,
 nil-ended chain; head reaches tail; tail is the last node or the one before it; and no
 thread ever dereferences nil.
 */
module LKQueueInvariant {
  import opened Options
  import opened LKQueue

  // Positions in the chain

  /** The position of p in the chain, or -1. */
  ghost function Pos(c: seq<Ptr>, p: Ptr): int {
    if c == [] then -1 else if c[|c|-1] == p then |c|-1 else Pos(c[..|c|-1], p)
  }

  ghost predicate Distinct(c: seq<Ptr>) {
    forall i, j :: 0 <= i < j < |c| ==> c[i] != c[j]
  }

  lemma {:induction false} PosIn(c: seq<Ptr>, p: Ptr)
    ensures -1 <= Pos(c, p) < |c|
    ensures Pos(c, p) >= 0 ==> c[Pos(c, p)] == p
    ensures Pos(c, p) == -1 ==> p !in c
  {
    if c != [] && c[|c|-1] != p {
      PosIn(c[..|c|-1], p);
      assert c == c[..|c|-1] + [c[|c|-1]];
    }
  }

  lemma {:induction false} PosAt(c: seq<Ptr>, i: nat)
    requires Distinct(c) && i < |c|
    ensures Pos(c, c[i]) == i
  {
    if i < |c|-1 {
      PosAt(c[..|c|-1], i);
    }
  }

  lemma {:induction false} PosAppend(c: seq<Ptr>, n: Ptr)
    requires Distinct(c) && Pos(c, n) == -1
    ensures Distinct(c + [n])
    ensures forall p :: Pos(c + [n], p) == if p == n then |c| else Pos(c, p)
  {
    PosIn(c, n);
    assert (c + [n])[..|c|] == c;
  }

  // The invariant

  /** c lists the linked nodes, oldest first; nothing outside c has a successor. */
  ghost predicate IsChain<V>(nodes: seq<Node<V>>, c: seq<Ptr>) {
    && |c| > 0
    && Distinct(c)
    && (forall i :: 0 <= i < |c| ==> c[i] < |nodes|)
    && (forall i, j :: 0 <= i < j < |c| && j == i + 1 ==> nodes[c[i]].next == Some(c[j]))
    && nodes[c[|c|-1]].next == None
    && (forall p :: 0 <= p < |nodes| && Pos(c, p) == -1 ==> nodes[p].next == None)
  }

  /** head lies at or before tail; tail is the last node or the one before it. */
  ghost predicate EndsOk<V>(m: Memory<V>, c: seq<Ptr>) {
    0 <= Pos(c, m.head) <= Pos(c, m.tail) && |c| - 2 <= Pos(c, m.tail)
  }

  ghost predicate MemoryOk<V>(m: Memory<V>, c: seq<Ptr>) {
    IsChain(m.nodes, c) && EndsOk(m, c)
  }

  /** The node a running Enqueue has allocated and not linked yet. */
  ghost function Owned<V>(pc: Pc<V>): Option<Ptr> {
    match pc
    case ELoadTail(n) => Some(n)
    case ELoadNext(n, _) => Some(n)
    case ECheck(n, _, _) => Some(n)
    case ELink(n, _) => Some(n)
    case EHelp(n, _, _) => Some(n)
    case _ => None
  }

  /** p is a node that q.tail points to now or pointed to before. */
  ghost predicate Behind(c: seq<Ptr>, p: Ptr, bound: Ptr) {
    0 <= Pos(c, p) <= Pos(c, bound)
  }

  ghost predicate Follows(c: seq<Ptr>, p: Ptr, succ: Ptr) {
    Pos(c, succ) == Pos(c, p) + 1
  }

  /** What the locals of a call say about the chain. */
  ghost predicate LocalsOk<V>(m: Memory<V>, c: seq<Ptr>, pc: Pc<V>) {
    match pc
    case ELoadTail(_) => true
    case ELoadNext(_, tail) => Behind(c, tail, m.tail)
    case ECheck(_, tail, next) => Behind(c, tail, m.tail) && (next.Some? ==> Follows(c, tail, next.value))
    case ELink(_, tail) => Behind(c, tail, m.tail)
    case ESwing(n, tail) => Behind(c, tail, m.tail) && Follows(c, tail, n)
    case EHelp(_, tail, succ) => Behind(c, tail, m.tail) && Follows(c, tail, succ)
    case EDone => true
    case DLoadHead => true
    case DLoadTail(head) => Behind(c, head, m.head)
    case DLoadNext(head, tail) =>
      && Behind(c, head, m.head) && Behind(c, tail, m.tail)
      && (head == m.head ==> Behind(c, head, tail))
    case DCheck(head, tail, next) =>
      && Behind(c, head, m.head) && Behind(c, tail, m.tail)
      && (next.Some? ==> Follows(c, head, next.value))
      && (head == m.head && head != tail ==> next.Some? && Pos(c, head) < Pos(c, m.tail))
    case DHelp(tail, succ) => Behind(c, tail, m.tail) && Follows(c, tail, succ)
    case DReadValue(head, next) =>
      && Behind(c, head, m.head) && Pos(c, head) < Pos(c, m.tail)
      && next.Some? && Follows(c, head, next.value)
    case DSwing(head, succ, v) =>
      && Behind(c, head, m.head) && Pos(c, head) < Pos(c, m.tail)
      && Follows(c, head, succ) && succ < |m.nodes| && m.nodes[succ].value == v
    case DDone(_) => true
    case Crashed => false
  }

  ghost predicate OwnsFresh<V>(m: Memory<V>, c: seq<Ptr>, pc: Pc<V>) {
    Owned(pc).Some? ==> Owned(pc).value < |m.nodes| && Pos(c, Owned(pc).value) == -1
  }

  ghost predicate ThreadOk<V>(m: Memory<V>, c: seq<Ptr>, pc: Pc<V>) {
    LocalsOk(m, c, pc) && OwnsFresh(m, c, pc)
  }

  ghost predicate OwnersDiffer<V>(threads: map<Tid, Pc<V>>) {
    forall t, u :: t in threads && u in threads && t != u && Owned(threads[t]).Some? ==>
                     Owned(threads[t]) != Owned(threads[u])
  }

  ghost predicate Inv<V>(s: State<V>, c: seq<Ptr>) {
    && MemoryOk(s.mem, c)
    && (forall t :: t in s.threads ==> ThreadOk(s.mem, c, s.threads[t]))
    && OwnersDiffer(s.threads)
  }

  /** The chain after the access at pc: only a successful link extends it. */
  ghost function Extend<V>(m: Memory<V>, c: seq<Ptr>, pc: Pc<V>): seq<Ptr> {
    if pc.ELink? && Swaps(m, pc) then c + [pc.n] else c
  }

  ghost function NextChain<V>(s: State<V>, c: seq<Ptr>, a: Action<V>): seq<Ptr> {
    if a.Step? && a.t in s.threads then Extend(s.mem, c, s.threads[a.t]) else c
  }

  /** The nodes linked during a run, in the order their link succeeded, after the initial dummy. */
  ghost function Chain<V>(s: State<V>, run: seq<Action<V>>): seq<Ptr>
    requires Legal(s, run)
  {
    if run == [] then [s.mem.head]
    else NextChain(Exec(s, run[..|run|-1]), Chain(s, run[..|run|-1]), run[|run|-1])
  }

  // One access

  lemma {:induction false} Successor<V>(nodes: seq<Node<V>>, c: seq<Ptr>, p: Ptr)
    requires IsChain(nodes, c) && Pos(c, p) >= 0
    ensures p < |nodes|
    ensures nodes[p].next.Some? <==> Pos(c, p) < |c| - 1
    ensures nodes[p].next.Some? ==> Follows(c, p, nodes[p].next.value)
  {
    PosIn(c, p);
    var i := Pos(c, p);
    if i < |c| - 1 {
      PosAt(c, i + 1);
      var j := i + 1;
      assert nodes[c[i]].next == Some(c[j]);
    }
  }

  lemma {:induction false} LinkKeepsChain<V>(nodes: seq<Node<V>>, c: seq<Ptr>, tail: Ptr, n: Ptr)
    requires IsChain(nodes, c) && Pos(c, tail) == |c| - 1 && tail < |nodes|
    requires n < |nodes| && Pos(c, n) == -1
    ensures IsChain(nodes[tail := nodes[tail].(next := Some(n))], c + [n])
  {
    var c', nodes' := c + [n], nodes[tail := nodes[tail].(next := Some(n))];
    PosAppend(c, n);
    PosIn(c, tail);
    forall i, j | 0 <= i < j < |c'| && j == i + 1
      ensures nodes'[c'[i]].next == Some(c'[j])
    {
      if i < |c| - 1 {
        assert c[i] != c[|c|-1];
        assert nodes[c[i]].next == Some(c[j]);
      }
    }
  }

  lemma {:induction false} AllocKeepsChain<V>(nodes: seq<Node<V>>, c: seq<Ptr>, v: V)
    requires IsChain(nodes, c)
    ensures IsChain(nodes + [Node(v, None)], c)
    ensures Pos(c, |nodes|) == -1
  {
    PosIn(c, |nodes|);
  }

  lemma {:induction false} LinkAtEnd<V>(m: Memory<V>, c: seq<Ptr>, pc: Pc<V>)
    requires MemoryOk(m, c) && pc.ELink? && Swaps(m, pc) && LocalsOk(m, c, pc)
    ensures Pos(c, pc.tail) == Pos(c, m.tail) == |c| - 1
  {
    Successor(m.nodes, c, pc.tail);
    PosIn(c, m.tail);
    PosIn(c, pc.tail);
  }

  lemma EffectKeepsMemory<V>(m: Memory<V>, c: seq<Ptr>, pc: Pc<V>)
    requires MemoryOk(m, c) && ThreadOk(m, c, pc)
    ensures MemoryOk(Effect(m, pc), Extend(m, c, pc))
  {
    if pc.ELink? && Swaps(m, pc) {
      LinkAtEnd(m, c, pc);
      LinkKeepsChain(m.nodes, c, pc.tail, pc.n);
      PosAppend(c, pc.n);
    } else if Swaps(m, pc) {
      PosIn(c, m.tail);
      assert EndsOk(Effect(m, pc), c);
    }
  }

  /** How the memory may change in a step. */
  ghost predicate Evolves<V>(m: Memory<V>, c: seq<Ptr>, m': Memory<V>, c': seq<Ptr>) {
    && |m.nodes| <= |m'.nodes|
    && (forall p :: 0 <= p < |m.nodes| ==> m'.nodes[p].value == m.nodes[p].value)
    && (forall p :: Pos(c, p) >= 0 ==> Pos(c', p) == Pos(c, p))
    && Pos(c, m.head) <= Pos(c', m'.head)
    && Pos(c, m.tail) <= Pos(c', m'.tail)
    && (Pos(c', m'.head) == Pos(c, m.head) ==> m'.head == m.head)
  }

  lemma EffectEvolves<V>(m: Memory<V>, c: seq<Ptr>, pc: Pc<V>)
    requires MemoryOk(m, c) && ThreadOk(m, c, pc)
    ensures Evolves(m, c, Effect(m, pc), Extend(m, c, pc))
  {
    if pc.ELink? && Swaps(m, pc) {
      PosAppend(c, pc.n);
    }
  }

  /** The facts about one call's locals survive whatever the others do. */
  lemma {:induction false} LocalsStable<V>(m: Memory<V>, c: seq<Ptr>, m': Memory<V>, c': seq<Ptr>, pc: Pc<V>)
    requires Evolves(m, c, m', c') && Pos(c, m.head) >= 0 && Pos(c, m.tail) >= 0 && LocalsOk(m, c, pc)
    ensures LocalsOk(m', c', pc)
  {
  }

  lemma EnqueueLocals<V>(m: Memory<V>, c: seq<Ptr>, pc: Pc<V>)
    requires MemoryOk(m, c) && ThreadOk(m, c, pc) && (Owned(pc).Some? || pc.ESwing?)
    ensures LocalsOk(Effect(m, pc), Extend(m, c, pc), Goto(m, pc))
  {
    match pc
    case ELoadNext(n, tail) => Successor(m.nodes, c, tail);
    case ELink(n, tail) =>
      Successor(m.nodes, c, tail);
      if Swaps(m, pc) {
        LinkAtEnd(m, c, pc);
        PosAppend(c, n);
      }
    case _ =>
  }

  lemma DequeueLocals<V>(m: Memory<V>, c: seq<Ptr>, pc: Pc<V>)
    requires MemoryOk(m, c) && ThreadOk(m, c, pc) && Owned(pc).None? && !pc.ESwing? && Running(pc)
    ensures LocalsOk(Effect(m, pc), Extend(m, c, pc), Goto(m, pc))
  {
    match pc
    case DLoadNext(head, tail) =>
      Successor(m.nodes, c, head);
      PosIn(c, head);
      PosIn(c, tail);
      PosIn(c, m.tail);
    case DReadValue(head, next) =>
      PosIn(c, m.tail);
      Successor(m.nodes, c, next.value);
    case _ =>
  }

  /** A step keeps the owned node or gives it up; it gives it up when it links it. */
  lemma OwnedAfter<V>(m: Memory<V>, pc: Pc<V>)
    requires Running(pc)
    ensures Owned(Goto(m, pc)) == Owned(pc) || Owned(Goto(m, pc)) == None
    ensures pc.ELink? && Swaps(m, pc) ==> Owned(Goto(m, pc)) == None && Owned(pc) == Some(pc.n)
  {
  }

  // One step of the whole system

  lemma OwnersStable<V>(s: State<V>, c: seq<Ptr>, a: Action<V>)
    requires Inv(s, c) && Enabled(s, a)
    ensures OwnersDiffer(Apply(s, a).threads)
  {
    match a
    case Call(t, op) =>
      forall u | u in s.threads && Owned(s.threads[u]).Some?
        ensures Owned(s.threads[u]).value < |s.mem.nodes|
      {
        assert ThreadOk(s.mem, c, s.threads[u]);
      }
    case Step(t) => OwnedAfter(s.mem, s.threads[t]);
    case Return(t) =>
  }

  lemma OthersStable<V>(s: State<V>, c: seq<Ptr>, t: Tid, u: Tid)
    requires Inv(s, c) && Enabled(s, Step(t)) && u in s.threads && u != t
    ensures ThreadOk(Effect(s.mem, s.threads[t]), Extend(s.mem, c, s.threads[t]), s.threads[u])
  {
    var pc := s.threads[t];
    assert ThreadOk(s.mem, c, pc) && ThreadOk(s.mem, c, s.threads[u]);
    EffectEvolves(s.mem, c, pc);
    LocalsStable(s.mem, c, Effect(s.mem, pc), Extend(s.mem, c, pc), s.threads[u]);
    if pc.ELink? && Swaps(s.mem, pc) {
      PosAppend(c, pc.n);
      assert Owned(pc) != Owned(s.threads[u]);
    }
  }

  lemma SelfStable<V>(m: Memory<V>, c: seq<Ptr>, pc: Pc<V>)
    requires MemoryOk(m, c) && ThreadOk(m, c, pc) && Running(pc)
    ensures ThreadOk(Effect(m, pc), Extend(m, c, pc), Goto(m, pc))
  {
    OwnedAfter(m, pc);
    if Owned(pc).Some? || pc.ESwing? {
      EnqueueLocals(m, c, pc);
    } else {
      DequeueLocals(m, c, pc);
    }
    assert |Effect(m, pc).nodes| == |m.nodes|;
  }

  lemma CallKeepsInv<V>(s: State<V>, c: seq<Ptr>, t: Tid, op: Op<V>)
    requires Inv(s, c) && t !in s.threads
    ensures Inv(Apply(s, Call(t, op)), c)
  {
    var s' := Apply(s, Call(t, op));
    OwnersStable(s, c, Call(t, op));
    if op.Enq? {
      AllocKeepsChain(s.mem.nodes, c, op.v);
    }
    forall u | u in s'.threads
      ensures ThreadOk(s'.mem, c, s'.threads[u])
    {
      if u != t {
        assert ThreadOk(s.mem, c, s.threads[u]);
        LocalsStable(s.mem, c, s'.mem, c, s.threads[u]);
      }
    }
  }

  lemma StepKeepsInv<V>(s: State<V>, c: seq<Ptr>, t: Tid)
    requires Inv(s, c) && Enabled(s, Step(t))
    ensures Inv(Apply(s, Step(t)), Extend(s.mem, c, s.threads[t]))
  {
    var s', c' := Apply(s, Step(t)), Extend(s.mem, c, s.threads[t]);
    assert ThreadOk(s.mem, c, s.threads[t]);
    OwnersStable(s, c, Step(t));
    EffectKeepsMemory(s.mem, c, s.threads[t]);
    forall u | u in s'.threads
      ensures ThreadOk(s'.mem, c', s'.threads[u])
    {
      if u == t {
        SelfStable(s.mem, c, s.threads[t]);
      } else {
        OthersStable(s, c, t, u);
      }
    }
  }

  lemma ActionKeepsInv<V>(s: State<V>, c: seq<Ptr>, a: Action<V>)
    requires Inv(s, c) && Enabled(s, a)
    ensures Inv(Apply(s, a), NextChain(s, c, a))
  {
    match a
    case Call(t, op) => CallKeepsInv(s, c, t, op);
    case Step(t) => StepKeepsInv(s, c, t);
    case Return(t) => OwnersStable(s, c, a);
  }

  // Whole runs

  lemma {:induction false} RunKeepsInv<V>(zero: V, run: seq<Action<V>>)
    requires Legal(Init(zero), run)
    ensures Inv(Exec(Init(zero), run), Chain(Init(zero), run))
  {
    if run == [] {
      var c: seq<Ptr> := [0];
      assert Pos(c, 0) == 0;
      assert IsChain(Init(zero).mem.nodes, c);
    } else {
      RunKeepsInv(zero, run[..|run|-1]);
      ActionKeepsInv(Exec(Init(zero), run[..|run|-1]), Chain(Init(zero), run[..|run|-1]), run[|run|-1]);
    }
  }

  /** A finite chain that ends in nil, in which head reaches tail and tail is one of the last two. */
  ghost predicate WellShaped<V>(m: Memory<V>, c: seq<Ptr>, h: nat, t: nat) {
    && Distinct(c) && h <= t < |c| && t >= |c| - 2 && c[h] == m.head && c[t] == m.tail
    && (forall i :: 0 <= i < |c| ==> c[i] < |m.nodes|)
    && (forall i, j :: 0 <= i < j < |c| && j == i + 1 ==> m.nodes[c[i]].next == Some(c[j]))
    && m.nodes[c[|c|-1]].next == None
  }

  ghost predicate NeverNil<V>(pc: Pc<V>) {
    !pc.Crashed? && (pc.DReadValue? ==> pc.next.Some?)
  }

  /**
   Every reachable state is well shaped, and no call has dereferenced nil: in particular the
   successor whose value Dequeue reads is there.
   */
  lemma {:induction false} ReachableStructure<V>(zero: V, run: seq<Action<V>>)
    requires Legal(Init(zero), run)
    ensures exists c, h, t :: WellShaped(Exec(Init(zero), run).mem, c, h, t)
    ensures forall t :: t in Exec(Init(zero), run).threads ==> NeverNil(Exec(Init(zero), run).threads[t])
  {
    RunKeepsInv(zero, run);
    var s, c := Exec(Init(zero), run), Chain(Init(zero), run);
    PosIn(c, s.mem.head);
    PosIn(c, s.mem.tail);
    assert WellShaped(s.mem, c, Pos(c, s.mem.head), Pos(c, s.mem.tail));
    forall t | t in s.threads
      ensures NeverNil(s.threads[t])
    {
      assert ThreadOk(s.mem, c, s.threads[t]);
    }
  }

  /**
   A compare-and-swap on a successor or on tail that is not the caller's own swing, the read of a value,
   and an empty result are decided only while the pointer read first is still the one in the queue.
   */
  lemma CheckedFirst<V>(m: Memory<V>, pc: Pc<V>)
    requires Running(pc)
    ensures Goto(m, pc).ELink? || Goto(m, pc).EHelp? ==> pc.ECheck? && pc.tail == m.tail == Goto(m, pc).tail
    ensures Goto(m, pc).DReadValue? ==> pc.DCheck? && pc.head == m.head == Goto(m, pc).head && pc.head != pc.tail
    ensures Goto(m, pc).DHelp? || Goto(m, pc) == DDone(None) ==> pc.DCheck? && pc.head == m.head && pc.head == pc.tail
  {
  }

  // Idle queues

  /** If tail is not the last node, the Enqueue that has linked the last node is about to swing tail to it. */
  ghost predicate LagOwned<V>(s: State<V>, c: seq<Ptr>) {
    |c| > 0 && (s.mem.tail != c[|c|-1] ==>
                  exists t :: t in s.threads && s.threads[t] == ESwing(c[|c|-1], s.mem.tail))
  }

  lemma LagStep<V>(s: State<V>, c: seq<Ptr>, t: Tid)
    requires Inv(s, c) && Enabled(s, Step(t)) && LagOwned(s, c)
    ensures LagOwned(Apply(s, Step(t)), Extend(s.mem, c, s.threads[t]))
  {
    var pc, last := s.threads[t], c[|c|-1];
    assert ThreadOk(s.mem, c, pc);
    PosAt(c, |c|-1);
    PosIn(c, s.mem.tail);
    if pc.ELink? && Swaps(s.mem, pc) {
      LinkAtEnd(s.mem, c, pc);
      PosIn(c, pc.tail);
      assert Apply(s, Step(t)).threads[t] == ESwing(pc.n, s.mem.tail);
    } else if Swaps(s.mem, pc) && !pc.DSwing? {
      SwingToEnd(s.mem, c, pc);
    } else if s.mem.tail != last {
      var u :| u in s.threads && s.threads[u] == ESwing(last, s.mem.tail);
      assert u != t;
      assert Apply(s, Step(t)).threads[u] == s.threads[u];
    }
  }

  lemma {:induction false} SwingToEnd<V>(m: Memory<V>, c: seq<Ptr>, pc: Pc<V>)
    requires MemoryOk(m, c) && ThreadOk(m, c, pc) && Swaps(m, pc) && (pc.ESwing? || pc.EHelp? || pc.DHelp?)
    ensures Effect(m, pc).tail == c[|c|-1]
  {
    PosIn(c, m.tail);
    PosIn(c, Effect(m, pc).tail);
  }

  lemma {:induction false} LagOwnedAlways<V>(zero: V, run: seq<Action<V>>)
    requires Legal(Init(zero), run)
    ensures LagOwned(Exec(Init(zero), run), Chain(Init(zero), run))
  {
    if run != [] {
      LagOwnedAlways(zero, run[..|run|-1]);
      RunKeepsInv(zero, run[..|run|-1]);
      LagAction(Exec(Init(zero), run[..|run|-1]), Chain(Init(zero), run[..|run|-1]), run[|run|-1]);
    }
  }

  lemma LagAction<V>(s: State<V>, c: seq<Ptr>, a: Action<V>)
    requires Inv(s, c) && Enabled(s, a) && LagOwned(s, c)
    ensures LagOwned(Apply(s, a), NextChain(s, c, a))
  {
    if a.Step? {
      LagStep(s, c, a.t);
    } else if s.mem.tail != c[|c|-1] {
      var u :| u in s.threads && s.threads[u] == ESwing(c[|c|-1], s.mem.tail);
      assert Apply(s, a).threads[u] == s.threads[u];
    }
  }

  /**
   Whenever no Enqueue is between its link and its swing, tail is the last node linked: every Enqueue
   that has returned has seen to it that tail reaches its node.
   */
  lemma {:induction false} TailAtEnd<V>(zero: V, run: seq<Action<V>>)
    requires Legal(Init(zero), run)
    requires forall t :: t in Exec(Init(zero), run).threads ==> !Exec(Init(zero), run).threads[t].ESwing?
    ensures Chain(Init(zero), run) != []
    ensures var c := Chain(Init(zero), run); Exec(Init(zero), run).mem.tail == c[|c|-1]
  {
    LagOwnedAlways(zero, run);
  }
}
