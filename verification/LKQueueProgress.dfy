/**
 Lock-freedom: a call goes round its loop again only because some compare-and-swap has
 succeeded since it last read the shared pointers.
 */
module LKQueueProgress {
  import opened Options
  import opened LKQueue
  import opened LKQueueInvariant
  import opened LKQueueLinearizability

  /** How far the queue has advanced: each successful compare-and-swap adds one. */
  ghost function Work<V>(m: Memory<V>, c: seq<Ptr>): int {
    Pos(c, m.head) + Pos(c, m.tail) + |c| - 1
  }

  predicate LoopHead<V>(pc: Pc<V>) {
    pc.ELoadTail? || pc.DLoadHead?
  }

  /** The call holds a value that no longer agrees with the shared pointers. */
  predicate Stale<V>(m: Memory<V>, pc: Pc<V>) {
    match pc
    case ELoadNext(_, tail) => tail != m.tail
    case ECheck(_, tail, next) => tail != m.tail || tail >= |m.nodes| || m.nodes[tail].next != next
    case ELink(_, tail) => tail != m.tail || tail >= |m.nodes| || m.nodes[tail].next != None
    case EHelp(_, tail, _) => tail != m.tail
    case DLoadTail(head) => head != m.head
    case DLoadNext(head, tail) => head != m.head || tail != m.tail
    case DCheck(head, tail, _) => head != m.head || tail != m.tail
    case DHelp(tail, _) => tail != m.tail
    case DReadValue(head, _) => head != m.head
    case DSwing(head, _, _) => head != m.head
    case _ => false
  }

  function Debt<V>(m: Memory<V>, pc: Pc<V>): int {
    if Stale(m, pc) then 1 else 0
  }

  function Bit(b: bool): int {
    if b then 1 else 0
  }

  lemma SwapIsWork<V>(m: Memory<V>, c: seq<Ptr>, pc: Pc<V>)
    requires MemoryOk(m, c) && ThreadOk(m, c, pc)
    ensures Work(Effect(m, pc), Extend(m, c, pc)) == Work(m, c) + Bit(Swaps(m, pc))
  {
    if pc.ELink? && Swaps(m, pc) {
      PosAppend(c, pc.n);
    }
  }

  /** A failed iteration is paid for by staleness, or is itself a successful help. */
  lemma RetryIsPaid<V>(m: Memory<V>, c: seq<Ptr>, pc: Pc<V>)
    requires MemoryOk(m, c) && ThreadOk(m, c, pc) && Running(pc)
    ensures Bit(LoopHead(Goto(m, pc))) + Debt(Effect(m, pc), Goto(m, pc)) <= Debt(m, pc) + Bit(Swaps(m, pc))
  {
    if pc.ELoadNext? {
      Successor(m.nodes, c, pc.tail);
    } else if pc.ECheck? || pc.ELink? {
      Successor(m.nodes, c, pc.tail);
    }
  }

  lemma OtherCallsCost<V>(m: Memory<V>, c: seq<Ptr>, pc: Pc<V>, other: Pc<V>)
    requires MemoryOk(m, c) && ThreadOk(m, c, pc) && ThreadOk(m, c, other)
    ensures Debt(Effect(m, other), pc) <= Debt(m, pc) + Bit(Swaps(m, other))
  {
  }

  lemma AllocationIsFree<V>(m: Memory<V>, c: seq<Ptr>, pc: Pc<V>, op: Op<V>)
    requires MemoryOk(m, c) && ThreadOk(m, c, pc)
    ensures Debt(Allocate(m, op), pc) == Debt(m, pc)
  {
    if pc.ECheck? || pc.ELink? {
      Successor(m.nodes, c, pc.tail);
    }
  }

  // Counting along a run, from position k on

  ghost predicate SucceedsAt<V>(s: State<V>, a: Action<V>)
    requires Enabled(s, a)
  {
    a.Step? && Swaps(s.mem, s.threads[a.t])
  }

  ghost predicate RetriesAt<V>(s: State<V>, a: Action<V>, t: Tid)
    requires Enabled(s, a)
  {
    a == Step(t) && LoopHead(Goto(s.mem, s.threads[t]))
  }

  /** The successful compare-and-swaps of all threads from position k on. */
  ghost function Successes<V>(s: State<V>, run: seq<Action<V>>, k: nat): int
    requires Legal(s, run)
  {
    if |run| <= k then 0
    else Successes(s, run[..|run|-1], k) + Bit(SucceedsAt(Exec(s, run[..|run|-1]), run[|run|-1]))
  }

  /** The failed loop iterations of t from position k on. */
  ghost function Retries<V>(s: State<V>, run: seq<Action<V>>, k: nat, t: Tid): int
    requires Legal(s, run)
  {
    if |run| <= k then 0
    else Retries(s, run[..|run|-1], k, t) + Bit(RetriesAt(Exec(s, run[..|run|-1]), run[|run|-1], t))
  }

  /** The accesses t makes from position k on. */
  ghost function OwnSteps<V>(run: seq<Action<V>>, k: nat, t: Tid): int {
    if |run| <= k then 0 else OwnSteps(run[..|run|-1], k, t) + Bit(run[|run|-1] == Step(t))
  }

  /** One call of t is in progress from position k on. */
  ghost predicate OneCall<V>(run: seq<Action<V>>, k: nat, t: Tid) {
    && 1 <= k <= |run| && run[k-1].Call? && run[k-1].t == t
    && forall i :: k <= i < |run| ==> run[i].t == t ==> run[i].Step?
  }

  lemma {:induction false} WorkDone<V>(zero: V, run: seq<Action<V>>, k: nat)
    requires Legal(Init(zero), run) && k <= |run| && Legal(Init(zero), run[..k])
    ensures Successes(Init(zero), run, k)
         == Work(Exec(Init(zero), run).mem, Chain(Init(zero), run))
          - Work(Exec(Init(zero), run[..k]).mem, Chain(Init(zero), run[..k]))
  {
    if k == |run| {
      assert run[..k] == run;
    } else {
      var run0, a := run[..|run|-1], run[|run|-1];
      assert run0[..k] == run[..k];
      WorkDone(zero, run0, k);
      RunKeepsInv(zero, run0);
      var s, c := Exec(Init(zero), run0), Chain(Init(zero), run0);
      if a.Step? {
        assert ThreadOk(s.mem, c, s.threads[a.t]);
        SwapIsWork(s.mem, c, s.threads[a.t]);
      }
    }
  }

  lemma ActionCost<V>(s: State<V>, c: seq<Ptr>, a: Action<V>, t: Tid)
    requires Inv(s, c) && Enabled(s, a) && t in s.threads && (a.t == t ==> a.Step?)
    ensures t in Apply(s, a).threads
    ensures Bit(RetriesAt(s, a, t)) + Debt(Apply(s, a).mem, Apply(s, a).threads[t])
         <= Debt(s.mem, s.threads[t]) + Bit(SucceedsAt(s, a))
  {
    assert ThreadOk(s.mem, c, s.threads[t]);
    match a
    case Call(_, op) => AllocationIsFree(s.mem, c, s.threads[t], op);
    case Return(_) =>
    case Step(u) =>
      if u == t {
        RetryIsPaid(s.mem, c, s.threads[t]);
      } else {
        assert ThreadOk(s.mem, c, s.threads[u]);
        OtherCallsCost(s.mem, c, s.threads[t], s.threads[u]);
      }
  }

  lemma {:induction false} RetriesPaid<V>(zero: V, run: seq<Action<V>>, k: nat, t: Tid)
    requires Legal(Init(zero), run) && OneCall(run, k, t)
    ensures t in Exec(Init(zero), run).threads
    ensures Retries(Init(zero), run, k, t) + Debt(Exec(Init(zero), run).mem, Exec(Init(zero), run).threads[t])
         <= Successes(Init(zero), run, k)
  {
    var run0, a := run[..|run|-1], run[|run|-1];
    if k < |run| {
      RetriesPaid(zero, run0, k, t);
      RunKeepsInv(zero, run0);
      ActionCost(Exec(Init(zero), run0), Chain(Init(zero), run0), a, t);
    }
  }

  /**
   The failed iterations of one call number at most the compare-and-swaps that succeed during
   that call, whoever performs them.
   */
  lemma {:induction false} RetriesBounded<V>(zero: V, run: seq<Action<V>>, k: nat, t: Tid)
    requires Legal(Init(zero), run) && OneCall(run, k, t)
    ensures Retries(Init(zero), run, k, t) <= Successes(Init(zero), run, k)
  {
    RetriesPaid(zero, run, k, t);
  }

  /** How many accesses of the current iteration are behind pc. */
  function Depth<V>(pc: Pc<V>): int {
    match pc
    case ELoadTail(_) => 0
    case ELoadNext(_, _) => 1
    case ECheck(_, _, _) => 2
    case ELink(_, _) => 3
    case EHelp(_, _, _) => 3
    case ESwing(_, _) => 4
    case EDone => 5
    case DLoadHead => 0
    case DLoadTail(_) => 1
    case DLoadNext(_, _) => 2
    case DCheck(_, _, _) => 3
    case DHelp(_, _) => 4
    case DReadValue(_, _) => 4
    case DSwing(_, _, _) => 5
    case DDone(_) => 6
    case Crashed => 6
  }

  lemma {:induction false} StepsPerRetry<V>(zero: V, run: seq<Action<V>>, k: nat, t: Tid)
    requires Legal(Init(zero), run) && OneCall(run, k, t)
    ensures t in Exec(Init(zero), run).threads
    ensures OwnSteps(run, k, t) <= 6 * Retries(Init(zero), run, k, t) + Depth(Exec(Init(zero), run).threads[t])
  {
    var run0, a := run[..|run|-1], run[|run|-1];
    if k < |run| {
      StepsPerRetry(zero, run0, k, t);
      var s := Exec(Init(zero), run0);
      if a == Step(t) {
        assert !LoopHead(Goto(s.mem, s.threads[t])) ==>
            Depth(s.threads[t]) + 1 <= Depth(Goto(s.mem, s.threads[t]));
      }
    }
  }

  /**
   Lock-freedom with its constant: while n compare-and-swaps succeed, a call that has not
   returned makes at most 6 * (n + 1) accesses.
   */
  lemma {:induction false} LockFree<V>(zero: V, run: seq<Action<V>>, k: nat, t: Tid)
    requires Legal(Init(zero), run) && OneCall(run, k, t)
    ensures OwnSteps(run, k, t) <= 6 * (Successes(Init(zero), run, k) + 1)
  {
    StepsPerRetry(zero, run, k, t);
    RetriesBounded(zero, run, k, t);
  }

  /** Successes cannot go on without new elements: each value linked pays for at most three. */
  lemma {:induction false} SuccessesBounded<V>(zero: V, run: seq<Action<V>>)
    requires Legal(Init(zero), run)
    ensures Successes(Init(zero), run, 0) <= 3 * |Linked(Init(zero), run)|
  {
    WorkDone(zero, run, 0);
    assert run[..0] == [];
    var c: seq<Ptr> := [0];
    assert Pos(c, 0) == 0;
    RunKeepsInv(zero, run);
    PosIn(Chain(Init(zero), run), Exec(Init(zero), run).mem.tail);
    ChainLength(zero, run);
  }

  lemma {:induction false} ChainLength<V>(zero: V, run: seq<Action<V>>)
    requires Legal(Init(zero), run)
    ensures |Chain(Init(zero), run)| == |Linked(Init(zero), run)| + 1
  {
    if run != [] {
      var run0, a := run[..|run|-1], run[|run|-1];
      ChainLength(zero, run0);
      RunKeepsInv(zero, run0);
      var s, c := Exec(Init(zero), run0), Chain(Init(zero), run0);
      if a.Step? {
        assert ThreadOk(s.mem, c, s.threads[a.t]);
      }
    }
  }
}
