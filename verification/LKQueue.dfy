/**
 The lock-free queue as a step machine.

 A state holds the node memory, the two shared pointers and, for every call in progress,
 a program counter with the locals read so far. Every transition performs at most one
 atomic load or compare-and-swap, so a run is an arbitrary interleaving of any number of
 threads. Nodes are never reused (the program relies on garbage collection), so a pointer
 is the index of the node in allocation order.
 */
module LKQueue {
  import opened Options

  type Ptr = nat
  type Tid = nat

  datatype Node<V> = Node(value: V, next: Option<Ptr>)

  datatype Op<V> = Enq(v: V) | Deq

  /** Where a call stands: the name says which access comes next. */
  datatype Pc<V> =
    | ELoadTail(n: Ptr)
    | ELoadNext(n: Ptr, tail: Ptr)
    | ECheck(n: Ptr, tail: Ptr, next: Option<Ptr>)
    | ELink(n: Ptr, tail: Ptr)
    | ESwing(n: Ptr, tail: Ptr)
    | EHelp(n: Ptr, tail: Ptr, succ: Ptr)
    | EDone
    | DLoadHead
    | DLoadTail(head: Ptr)
    | DLoadNext(head: Ptr, tail: Ptr)
    | DCheck(head: Ptr, tail: Ptr, next: Option<Ptr>)
    | DHelp(tail: Ptr, succ: Ptr)
    | DReadValue(head: Ptr, next: Option<Ptr>)
    | DSwing(head: Ptr, succ: Ptr, v: V)
    | DDone(result: Option<V>)
    | Crashed  // a nil or dangling pointer was dereferenced

  /** The shared part: all nodes ever allocated, and the pointers of the queue. */
  datatype Memory<V> = Memory(nodes: seq<Node<V>>, head: Ptr, tail: Ptr)

  datatype State<V> = State(mem: Memory<V>, threads: map<Tid, Pc<V>>)

  datatype Action<V> = Call(t: Tid, op: Op<V>) | Step(t: Tid) | Return(t: Tid)

  /** What a client sees: calls, and returns with the value handed back. */
  datatype Event<V> = Called(t: Tid, op: Op<V>) | Returned(t: Tid, result: Option<V>)

  function Init<V>(zero: V): State<V> {
    State(Memory([Node(zero, None)], 0, 0), map[])
  }

  predicate Finished<V>(pc: Pc<V>) {
    pc.EDone? || pc.DDone?
  }

  predicate Running<V>(pc: Pc<V>) {
    !Finished(pc) && !pc.Crashed?
  }

  predicate Enabled<V>(s: State<V>, a: Action<V>) {
    match a
    case Call(t, _) => t !in s.threads
    case Step(t) => t in s.threads && Running(s.threads[t])
    case Return(t) => t in s.threads && Finished(s.threads[t])
  }

  function Apply<V>(s: State<V>, a: Action<V>): State<V>
    requires Enabled(s, a)
  {
    match a
    case Call(t, op) => State(Allocate(s.mem, op), s.threads[t := Begin(s.mem, op)])
    case Step(t) => State(Effect(s.mem, s.threads[t]), s.threads[t := Goto(s.mem, s.threads[t])])
    case Return(t) => s.(threads := s.threads - {t})
  }

  function Allocate<V>(m: Memory<V>, op: Op<V>): Memory<V> {
    if op.Enq? then m.(nodes := m.nodes + [Node(op.v, None)]) else m
  }

  function Begin<V>(m: Memory<V>, op: Op<V>): Pc<V> {
    if op.Enq? then ELoadTail(|m.nodes|) else DLoadHead
  }

  /** Whether the access at pc is a compare-and-swap that succeeds. */
  predicate Swaps<V>(m: Memory<V>, pc: Pc<V>) {
    match pc
    case ELink(_, tail) => tail < |m.nodes| && m.nodes[tail].next == None
    case ESwing(_, tail) => m.tail == tail
    case EHelp(_, tail, _) => m.tail == tail
    case DHelp(tail, _) => m.tail == tail
    case DSwing(head, _, _) => m.head == head
    case _ => false
  }

  /** The memory after the access at pc. */
  function Effect<V>(m: Memory<V>, pc: Pc<V>): Memory<V> {
    if !Swaps(m, pc) then m
    else match pc
      case ELink(n, tail) => m.(nodes := m.nodes[tail := m.nodes[tail].(next := Some(n))])
      case ESwing(n, _) => m.(tail := n)
      case EHelp(_, _, succ) => m.(tail := succ)
      case DHelp(_, succ) => m.(tail := succ)
      case DSwing(_, succ, _) => m.(head := succ)
  }

  /** Where the call stands after the access at pc. */
  function Goto<V>(m: Memory<V>, pc: Pc<V>): Pc<V>
    requires Running(pc)
  {
    match pc
    case ELoadTail(n) => ELoadNext(n, m.tail)
    case ELoadNext(n, tail) => if tail < |m.nodes| then ECheck(n, tail, m.nodes[tail].next) else Crashed
    case ECheck(n, tail, next) =>
      if tail != m.tail then ELoadTail(n)
      else if next.None? then ELink(n, tail)
      else EHelp(n, tail, next.value)
    case ELink(n, tail) =>
      if tail >= |m.nodes| then Crashed else if Swaps(m, pc) then ESwing(n, tail) else ELoadTail(n)
    case ESwing(_, _) => EDone
    case EHelp(n, _, _) => ELoadTail(n)
    case DLoadHead => DLoadTail(m.head)
    case DLoadTail(head) => DLoadNext(head, m.tail)
    case DLoadNext(head, tail) => if head < |m.nodes| then DCheck(head, tail, m.nodes[head].next) else Crashed
    case DCheck(head, tail, next) =>
      if head != m.head then DLoadHead
      else if head != tail then DReadValue(head, next)
      else if next.None? then DDone(None)
      else DHelp(tail, next.value)
    case DHelp(_, _) => DLoadHead
    case DReadValue(head, next) =>
      if next.Some? && next.value < |m.nodes| then DSwing(head, next.value, m.nodes[next.value].value) else Crashed
    case DSwing(_, _, v) => if Swaps(m, pc) then DDone(Some(v)) else DLoadHead
  }

  // Runs

  ghost predicate Legal<V>(s: State<V>, run: seq<Action<V>>)
    decreases |run|, 0
  {
    run == [] || (Legal(s, run[..|run|-1]) && Enabled(Exec(s, run[..|run|-1]), run[|run|-1]))
  }

  ghost function Exec<V>(s: State<V>, run: seq<Action<V>>): State<V>
    requires Legal(s, run)
    decreases |run|, 1
  {
    if run == [] then s else Apply(Exec(s, run[..|run|-1]), run[|run|-1])
  }

  function Emitted<V>(s: State<V>, a: Action<V>): seq<Event<V>>
    requires Enabled(s, a)
  {
    match a
    case Call(t, op) => [Called(t, op)]
    case Step(_) => []
    case Return(t) => [Returned(t, if s.threads[t].DDone? then s.threads[t].result else None)]
  }

  ghost function Trace<V>(s: State<V>, run: seq<Action<V>>): seq<Event<V>>
    requires Legal(s, run)
  {
    if run == [] then []
    else Trace(s, run[..|run|-1]) + Emitted(Exec(s, run[..|run|-1]), run[|run|-1])
  }
}
