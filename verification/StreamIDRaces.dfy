/**
 Opening streams at the same time: callers of nextStreamID that draw, check and register while others
 draw, check, register and unregister, one access to the counter or the map a step.
 */
module StreamIDRaces {
  import opened Bytes
  import opened StreamIDs

  type Tid = nat

  /** A caller that has made draw n, and may have passed the check of its id. */
  datatype Caller = Drawn(n: nat) | Chosen(n: nat)

  datatype State = State(
    side: Side,
    drawn: nat,                    // how often the counter was advanced
    callers: map<Tid, Caller>,
    messages: set<uint32>,         // the keys of the map of streams
    origins: map<uint32, nat>)     // the draws that live keys were registered from

  datatype Action =
    | Draw(t: Tid)
    | Check(t: Tid)
    | Register(t: Tid)
    | Unregister(id: uint32)
    | Peer(id: uint32)             // the peer opens a stream

  function IdOf(s: State, n: nat): uint32 {
    Id(s.side, SeedAt(0, n))
  }

  function Init(side: Side): State {
    State(side, 0, map[], {}, map[])
  }

  predicate Enabled(s: State, a: Action) {
    match a
    case Draw(t) => t !in s.callers
    case Check(t) => t in s.callers && s.callers[t].Drawn?
    case Register(t) => t in s.callers && s.callers[t].Chosen?
    case Unregister(_) => true
    case Peer(id) => !OwnParity(s.side, id)
  }

  /** A skipped seed is drawn and passed over; an id in use sends its caller back to the start. */
  function Apply(s: State, a: Action): State
    requires Enabled(s, a)
  {
    match a
    case Draw(t) =>
      if Skipped(s.side, SeedAt(0, s.drawn + 1)) then s.(drawn := s.drawn + 1)
      else s.(drawn := s.drawn + 1, callers := s.callers[t := Drawn(s.drawn + 1)])
    case Check(t) =>
      var n := s.callers[t].n;
      if FirstLap(SeedAt(0, n)) || IdOf(s, n) !in s.messages then s.(callers := s.callers[t := Chosen(n)])
      else s.(callers := s.callers - {t})
    case Register(t) =>
      var n := s.callers[t].n;
      s.(callers := s.callers - {t}, messages := s.messages + {IdOf(s, n)}, origins := s.origins[IdOf(s, n) := n])
    case Unregister(id) => s.(messages := s.messages - {id}, origins := s.origins - {id})
    case Peer(id) => s.(messages := s.messages + {id})
  }

  /** The step registers a key that is in use. */
  predicate Overwrites(s: State, a: Action) {
    a.Register? && a.t in s.callers && IdOf(s, s.callers[a.t].n) in s.messages
  }

  ghost predicate Legal(s: State, run: seq<Action>)
    decreases |run|, 0
  {
    run == [] || (Legal(s, run[..|run| - 1]) && Enabled(Exec(s, run[..|run| - 1]), run[|run| - 1]))
  }

  ghost function Exec(s: State, run: seq<Action>): State
    requires Legal(s, run)
    decreases |run|, 1
  {
    if run == [] then s else Apply(Exec(s, run[..|run| - 1]), run[|run| - 1])
  }

  /** Nobody sleeps between draw and register while others make 2^30 draws. */
  ghost predicate Prompt(s: State) {
    forall t :: t in s.callers ==> s.drawn - s.callers[t].n < HALF_SEED
  }

  /** At every moment of the run. */
  ghost predicate AlwaysPrompt(s: State, run: seq<Action>)
    requires Legal(s, run)
  {
    Prompt(Exec(s, run)) && (run != [] ==> AlwaysPrompt(s, run[..|run| - 1]))
  }

  // The invariant

  ghost predicate CallersOk(s: State) {
    && (forall t :: t in s.callers ==> 1 <= s.callers[t].n <= s.drawn)
    && (forall t, u :: t in s.callers && u in s.callers && t != u ==> s.callers[t].n != s.callers[u].n)
  }

  /** Every own key in use comes from a draw that is not a caller's. */
  ghost predicate OriginsOk(s: State) {
    && (forall id :: id in s.messages && OwnParity(s.side, id) ==> id in s.origins)
    && (forall id :: id in s.origins ==> id in s.messages)
    && (forall id :: id in s.origins ==> 1 <= s.origins[id] <= s.drawn && IdOf(s, s.origins[id]) == id)
    && (forall id, t :: id in s.origins && t in s.callers ==> s.callers[t].n != s.origins[id])
  }

  ghost predicate ChosenFree(s: State) {
    forall t :: t in s.callers && s.callers[t].Chosen? ==> IdOf(s, s.callers[t].n) !in s.messages
  }

  ghost predicate Inv(s: State) {
    CallersOk(s) && OriginsOk(s) && ChosenFree(s)
  }

  /** Two draws that are close to each other give different ids. */
  lemma CloseDrawsDiffer(s: State, n: nat, m: nat)
    requires n != m && n < m + HALF_SEED && m < n + HALF_SEED
    ensures IdOf(s, n) != IdOf(s, m)
  {
    if n < m {
      DrawsDiffer(s.side, 0, m, n);
    } else {
      DrawsDiffer(s.side, 0, n, m);
    }
  }

  /** On the first lap the check is left out, and would have found the id free. */
  lemma FirstLapFree(s: State, t: Tid)
    requires Inv(s) && Prompt(s) && t in s.callers && FirstLap(SeedAt(0, s.callers[t].n)) && s.drawn < WRAP
    ensures IdOf(s, s.callers[t].n) !in s.messages
  {
    FirstLapIsSmall(s.callers[t].n);
    IdOfResidue(s.side, SeedAt(0, s.callers[t].n));
    if IdOf(s, s.callers[t].n) in s.messages {
      SameOrigin(s, t, IdOf(s, s.callers[t].n));
    }
  }

  lemma FirstLapIsSmall(n: nat)
    requires n < WRAP && FirstLap(SeedAt(0, n))
    ensures n <= HALF_SEED
  {
  }

  lemma SameOrigin(s: State, t: Tid, id: uint32)
    requires OriginsOk(s) && Prompt(s) && t in s.callers && s.callers[t].n <= HALF_SEED && id in s.origins
    ensures IdOf(s, s.callers[t].n) != id
  {
    CloseDrawsDiffer(s, s.callers[t].n, s.origins[id]);
  }

  lemma RegisterKeepsFree(s: State, t: Tid)
    requires Inv(s) && Prompt(s) && Enabled(s, Register(t))
    ensures ChosenFree(Apply(s, Register(t)))
  {
    forall u | u in s.callers && u != t && s.callers[u].Chosen?
      ensures IdOf(s, s.callers[u].n) != IdOf(s, s.callers[t].n)
    {
      CloseDrawsDiffer(s, s.callers[u].n, s.callers[t].n);
    }
  }

  lemma PeerKeepsFree(s: State, id: uint32)
    requires Inv(s) && Enabled(s, Peer(id))
    ensures ChosenFree(Apply(s, Peer(id)))
  {
    forall t | t in s.callers
      ensures IdOf(s, s.callers[t].n) != id
    {
      IdOfResidue(s.side, SeedAt(0, s.callers[t].n));
    }
  }

  lemma ActionKeepsFree(s: State, a: Action)
    requires Inv(s) && Prompt(s) && Enabled(s, a) && s.drawn < WRAP
    ensures ChosenFree(Apply(s, a))
  {
    match a
    case Check(t) =>
      if FirstLap(SeedAt(0, s.callers[t].n)) {
        FirstLapFree(s, t);
      }
    case Register(t) => RegisterKeepsFree(s, t);
    case Peer(id) => PeerKeepsFree(s, id);
    case _ =>
  }

  lemma ActionKeepsCallers(s: State, a: Action)
    requires CallersOk(s) && Enabled(s, a)
    ensures CallersOk(Apply(s, a))
  {
  }

  lemma RegisterKeepsOrigins(s: State, t: Tid)
    requires CallersOk(s) && OriginsOk(s) && Enabled(s, Register(t))
    ensures OriginsOk(Apply(s, Register(t)))
  {
  }

  lemma DrawKeepsOrigins(s: State, t: Tid)
    requires OriginsOk(s) && Enabled(s, Draw(t))
    ensures OriginsOk(Apply(s, Draw(t)))
  {
  }

  lemma CheckKeepsOrigins(s: State, t: Tid)
    requires OriginsOk(s) && Enabled(s, Check(t))
    ensures OriginsOk(Apply(s, Check(t)))
  {
  }

  lemma ActionKeepsOrigins(s: State, a: Action)
    requires CallersOk(s) && OriginsOk(s) && Enabled(s, a)
    ensures OriginsOk(Apply(s, a))
  {
    match a
    case Draw(t) => DrawKeepsOrigins(s, t);
    case Check(t) => CheckKeepsOrigins(s, t);
    case Register(t) => RegisterKeepsOrigins(s, t);
    case _ =>
  }

  lemma {:induction false} RunKeepsOrigins(side: Side, run: seq<Action>)
    requires Legal(Init(side), run)
    ensures CallersOk(Exec(Init(side), run)) && OriginsOk(Exec(Init(side), run))
    decreases |run|
  {
    if run != [] {
      var n := |run| - 1;
      RunKeepsOrigins(side, run[..n]);
      ActionKeepsCallers(Exec(Init(side), run[..n]), run[n]);
      ActionKeepsOrigins(Exec(Init(side), run[..n]), run[n]);
    }
  }

  /** Different draws, whole laps of the ids apart. */
  predicate LapsApart(n: nat, m: nat) {
    n != m && (n - m) % HALF_SEED == 0
  }

  /** An own stream is in use whose draw is whole laps from draw n. */
  ghost predicate Shadowed(s: State, n: nat) {
    exists id :: id in s.origins && LapsApart(n, s.origins[id])
  }

  lemma SameIdShadowed(s: State, t: Tid)
    requires OriginsOk(s) && t in s.callers
    ensures IdOf(s, s.callers[t].n) in s.origins <==> Shadowed(s, s.callers[t].n)
  {
    var n := s.callers[t].n;
    if IdOf(s, n) in s.origins {
      SameIdExactly(s.side, 0, n, s.origins[IdOf(s, n)]);
      assert LapsApart(n, s.origins[IdOf(s, n)]);
    }
    if Shadowed(s, n) {
      var id :| id in s.origins && LapsApart(n, s.origins[id]);
      SameIdExactly(s.side, 0, n, s.origins[id]);
    }
  }

  /**
   In every reachable state, also after the counter has wrapped around: a caller that registers now
   overwrites a stream exactly if one is in use that was drawn whole laps before or after it.
   */
  lemma {:induction false} OverwritesExactly(side: Side, run: seq<Action>, t: Tid)
    requires Legal(Init(side), run) && Enabled(Exec(Init(side), run), Register(t))
    ensures var s := Exec(Init(side), run);
            Overwrites(s, Register(t)) <==> Shadowed(s, s.callers[t].n)
  {
    RunKeepsOrigins(side, run);
    var s := Exec(Init(side), run);
    SameIdShadowed(s, t);
    IdOfResidue(s.side, SeedAt(0, s.callers[t].n));
  }

  lemma {:induction false} RunKeepsInv(side: Side, run: seq<Action>)
    requires Legal(Init(side), run) && AlwaysPrompt(Init(side), run) && Exec(Init(side), run).drawn < WRAP
    ensures Inv(Exec(Init(side), run))
    decreases |run|
  {
    if run != [] {
      var n := |run| - 1;
      RunKeepsInv(side, run[..n]);
      ActionKeepsFree(Exec(Init(side), run[..n]), run[n]);
      RunKeepsOrigins(side, run);
    }
  }

  /**
   Before the counter wraps around no stream that is in use is overwritten, however many callers draw,
   check and register at the same time, as long as nobody sleeps through 2^30 draws in between.
   */
  lemma {:induction false} NoOverwrite(side: Side, run: seq<Action>, a: Action)
    requires Legal(Init(side), run) && AlwaysPrompt(Init(side), run) && Exec(Init(side), run).drawn < WRAP
    requires Enabled(Exec(Init(side), run), a)
    ensures !Overwrites(Exec(Init(side), run), a)
  {
    RunKeepsInv(side, run);
  }

  // The steps of a caller are those of nextStreamID

  function Draws(run: seq<Action>): nat {
    if run == [] then 0 else Draws(run[..|run| - 1]) + if run[|run| - 1].Draw? then 1 else 0
  }

  /** Every draw advances the counter by one, and no caller holds a seed that Next skips. */
  lemma {:induction false} DrawsCounted(side: Side, run: seq<Action>)
    requires Legal(Init(side), run)
    ensures var s := Exec(Init(side), run);
            && s.side == side && s.drawn == Draws(run)
            && forall t :: t in s.callers ==> !Skipped(side, SeedAt(0, s.callers[t].n))
  {
    if run != [] {
      DrawsCounted(side, run[..|run| - 1]);
    }
  }

  /** A draw and a check, with nothing in between, end a caller's search exactly where nextStreamID ends. */
  lemma DrawAndCheck(s: State, t: Tid)
    requires Enabled(s, Draw(t))
    ensures var d, seed := Apply(s, Draw(t)), SeedAt(0, s.drawn + 1);
            && (t in d.callers <==> !Skipped(s.side, seed))
            && (t in d.callers ==>
                  && Enabled(d, Check(t))
                  && (t in Apply(d, Check(t)).callers <==> !PassedOver(s.side, s.messages, seed)))
  {
  }

  // The keys in use

  /** The step opens a stream with this key. */
  predicate Opens(s: State, a: Action, id: uint32) {
    a == Peer(id) || (a.Register? && a.t in s.callers && IdOf(s, s.callers[a.t].n) == id)
  }

  /** A stream with this key was opened, and not closed since. */
  ghost predicate OpenAfter(s: State, run: seq<Action>, id: uint32)
    requires Legal(s, run)
  {
    run != [] && (var before, a := run[..|run| - 1], run[|run| - 1];
                  Opens(Exec(s, before), a, id) || (a != Unregister(id) && OpenAfter(s, before, id)))
  }

  /** The keys in use are exactly those of the streams that were opened and not closed since. */
  lemma {:induction false} InUseExactly(side: Side, run: seq<Action>, id: uint32)
    requires Legal(Init(side), run)
    ensures id in Exec(Init(side), run).messages <==> OpenAfter(Init(side), run, id)
  {
    if run != [] {
      InUseExactly(side, run[..|run| - 1], id);
    }
  }

  // A caller that sleeps through 2^30 draws

  lemma Continue(s: State, run: seq<Action>, a: Action) returns (longer: seq<Action>)
    requires Legal(s, run) && Enabled(Exec(s, run), a)
    ensures Legal(s, longer) && Exec(s, longer) == Apply(Exec(s, run), a)
  {
    longer := run + [a];
    assert longer[..|run|] == run;
  }

  /** Caller 0 has drawn first and sleeps; drawn draws have been made. */
  function Asleep(drawn: nat): State {
    State(Client, drawn, map[0 := Drawn(1)], {}, map[])
  }

  /** Another caller opens and closes a stream. */
  lemma OpenAndClose(run: seq<Action>, drawn: nat) returns (longer: seq<Action>)
    requires Legal(Init(Client), run) && Exec(Init(Client), run) == Asleep(drawn)
    ensures Legal(Init(Client), longer) && Exec(Init(Client), longer) == Asleep(drawn + 1)
  {
    longer := Opened(run, drawn);
    var id := Id(Client, SeedAt(0, drawn + 1));
    longer := Continue(Init(Client), longer, Unregister(id));
    assert {id} - {id} == {};
    assert map[id := drawn + 1] - {id} == map[];
  }

  lemma Opened(run: seq<Action>, drawn: nat) returns (longer: seq<Action>)
    requires Legal(Init(Client), run) && Exec(Init(Client), run) == Asleep(drawn)
    ensures Legal(Init(Client), longer)
    ensures var id := Id(Client, SeedAt(0, drawn + 1));
            Exec(Init(Client), longer) == State(Client, drawn + 1, map[0 := Drawn(1)], {id}, map[id := drawn + 1])
  {
    SkippedExactly(Client, SeedAt(0, drawn + 1));
    longer := Continue(Init(Client), run, Draw(1));
    longer := Continue(Init(Client), longer, Check(1));
    longer := Continue(Init(Client), longer, Register(1));
    assert map[0 := Drawn(1)][1 := Drawn(drawn + 1)][1 := Chosen(drawn + 1)] - {1} == map[0 := Drawn(1)];
    assert {} + {Id(Client, SeedAt(0, drawn + 1))} == {Id(Client, SeedAt(0, drawn + 1))};
  }

  lemma {:induction false} SleepsThrough(k: nat) returns (run: seq<Action>)
    ensures Legal(Init(Client), run) && Exec(Init(Client), run) == Asleep(k + 1)
  {
    if k == 0 {
      SkippedExactly(Client, SeedAt(0, 1));
      run := Continue(Init(Client), [], Draw(0));
      assert map[][0 := Drawn(1)] == map[0 := Drawn(1)];
    } else {
      run := SleepsThrough(k - 1);
      run := OpenAndClose(run, k);
    }
  }

  /** When another stream has the sleeper's id, the sleeper registers it all the same. */
  lemma SleeperRegisters(run: seq<Action>, n: nat) returns (longer: seq<Action>)
    requires Legal(Init(Client), run)
    requires Exec(Init(Client), run)
          == State(Client, n, map[0 := Drawn(1)], {Id(Client, SeedAt(0, n))}, map[Id(Client, SeedAt(0, n)) := n])
    requires Id(Client, SeedAt(0, n)) == Id(Client, SeedAt(0, 1))
    ensures Legal(Init(Client), longer) && Exec(Init(Client), longer).drawn == n
    ensures Enabled(Exec(Init(Client), longer), Register(0)) && Overwrites(Exec(Init(Client), longer), Register(0))
  {
    assert FirstLap(SeedAt(0, 1));
    longer := Continue(Init(Client), run, Check(0));
  }

  /** So it is after 2^30 draws. */
  lemma SleeperOverwrites(n: nat) returns (run: seq<Action>)
    requires n == HALF_SEED + 1
    ensures Legal(Init(Client), run) && Exec(Init(Client), run).drawn == n
    ensures Enabled(Exec(Init(Client), run), Register(0)) && Overwrites(Exec(Init(Client), run), Register(0))
  {
    run := SleepsThrough(n - 2);
    run := Opened(run, n - 1);
    OneLapLater(n);
    run := SleeperRegisters(run, n);
  }

  lemma OneLapLater(n: nat)
    requires n == HALF_SEED + 1
    ensures Id(Client, SeedAt(0, n)) == Id(Client, SeedAt(0, 1))
  {
    SameIdExactly(Client, 0, n, 1);
  }
}
