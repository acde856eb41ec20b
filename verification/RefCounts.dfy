/**
 Reference counting of buffered frames: IncRef and Release by any number of goroutines, one atomic
 operation a step, and the counter of borrowed buffers.
 */
module RefCounts {

  /** refs and innerPtr of a frame, and how often its buffer was given back to the pool. */
  datatype Frame = Frame(refs: int, inner: bool, returned: nat)

  /** What a goroutine does next inside Release, after its decrement found the count not positive. */
  datatype Pc = Idle | LoadInner(frame: nat) | SwapInner(frame: nat) | ReturnBuff(frame: nat)

  datatype State = State(frames: seq<Frame>, borrowed: int, pcs: seq<Pc>)

  datatype Step =
    | New                       // BorrowByteBuff and newBufferedFrame
    | IncRef(t: nat, frame: nat)
    | Release(t: nat, frame: nat)
    | Go(t: nat)                // the next step of a goroutine inside Release

  predicate Enabled(s: State, step: Step) {
    match step
    case New => true
    case IncRef(t, f) => t < |s.pcs| && s.pcs[t].Idle? && f < |s.frames|
    case Release(t, f) => t < |s.pcs| && s.pcs[t].Idle? && f < |s.frames|
    case Go(t) => t < |s.pcs| && !s.pcs[t].Idle? && s.pcs[t].frame < |s.frames|
  }

  function Advance(pc: Pc, f: Frame): Pc {
    match pc
    case Idle => Idle
    case LoadInner(i) => if f.inner then SwapInner(i) else Idle
    case SwapInner(i) => if f.inner then ReturnBuff(i) else Idle
    case ReturnBuff(i) => Idle
  }

  function Touch(pc: Pc, f: Frame): Frame {
    match pc
    case Idle => f
    case LoadInner(i) => f
    case SwapInner(i) => f.(inner := false)
    case ReturnBuff(i) => f.(returned := f.returned + 1)
  }

  function Apply(s: State, step: Step): State
    requires Enabled(s, step)
  {
    match step
    case New => s.(frames := s.frames + [Frame(1, true, 0)], borrowed := s.borrowed + 1)
    case IncRef(t, f) => s.(frames := s.frames[f := s.frames[f].(refs := s.frames[f].refs + 1)])
    case Release(t, f) =>
      var refs := s.frames[f].refs - 1;
      State(s.frames[f := s.frames[f].(refs := refs)], s.borrowed, if refs > 0 then s.pcs else s.pcs[t := LoadInner(f)])
    case Go(t) =>
      var pc := s.pcs[t];
      State(s.frames[pc.frame := Touch(pc, s.frames[pc.frame])],
            s.borrowed - (if pc.ReturnBuff? then 1 else 0),
            s.pcs[t := Advance(pc, s.frames[pc.frame])])
  }

  function Start(goroutines: nat): State {
    State([], 0, seq(goroutines, i => Idle))
  }

  predicate CanRun(s: State, steps: seq<Step>)
    decreases |steps|
  {
    steps != [] ==> Enabled(s, steps[0]) && CanRun(Apply(s, steps[0]), steps[1..])
  }

  function Run(s: State, steps: seq<Step>): State
    requires CanRun(s, steps)
    decreases |steps|
  {
    if steps == [] then s else Run(Apply(s, steps[0]), steps[1..])
  }

  // Every run: a buffer goes back at most once, and the counter is exact

  /** Goroutines that have taken frame f's buffer and not yet given it back. */
  function Holding(pcs: seq<Pc>, f: nat): nat {
    if pcs == [] then 0 else Holding(pcs[1..], f) + if pcs[0] == ReturnBuff(f) then 1 else 0
  }

  lemma {:induction false} HoldingUpdate(pcs: seq<Pc>, t: nat, pc: Pc, f: nat)
    requires t < |pcs|
    ensures Holding(pcs[t := pc], f)
         == Holding(pcs, f) - (if pcs[t] == ReturnBuff(f) then 1 else 0) + if pc == ReturnBuff(f) then 1 else 0
    decreases |pcs|
  {
    if t > 0 {
      assert pcs[t := pc][1..] == pcs[1..][t - 1 := pc];
      HoldingUpdate(pcs[1..], t - 1, pc, f);
    } else {
      assert pcs[t := pc][1..] == pcs[1..];
    }
  }

  /** How many frames have not given their buffer back. */
  function Unreturned(frames: seq<Frame>): nat {
    if frames == [] then 0 else Unreturned(frames[..|frames| - 1]) + if frames[|frames| - 1].returned == 0 then 1 else 0
  }

  lemma {:induction false} UnreturnedUpdate(frames: seq<Frame>, f: nat, frame: Frame)
    requires f < |frames|
    ensures Unreturned(frames[f := frame])
         == Unreturned(frames) - (if frames[f].returned == 0 then 1 else 0) + if frame.returned == 0 then 1 else 0
    decreases |frames|
  {
    var n := |frames| - 1;
    if f < n {
      assert frames[f := frame][..n] == frames[..n][f := frame];
      UnreturnedUpdate(frames[..n], f, frame);
    } else {
      assert frames[f := frame][..n] == frames[..n];
    }
  }

  /** The buffer is with the frame, with one goroutine, or back in the pool. */
  ghost predicate OneOwner(s: State, f: nat)
    requires f < |s.frames|
  {
    s.frames[f].returned + (if s.frames[f].inner then 1 else 0) + Holding(s.pcs, f) == 1
  }

  ghost predicate PcsInRange(s: State) {
    forall t :: 0 <= t < |s.pcs| && !s.pcs[t].Idle? ==> s.pcs[t].frame < |s.frames|
  }

  ghost predicate Inv(s: State) {
    && PcsInRange(s)
    && (forall f :: 0 <= f < |s.frames| ==> OneOwner(s, f))
    && s.borrowed == Unreturned(s.frames)
  }

  lemma {:induction false} NoneHolding(pcs: seq<Pc>, f: nat)
    requires forall t :: 0 <= t < |pcs| && !pcs[t].Idle? ==> pcs[t].frame < f
    ensures Holding(pcs, f) == 0
    decreases |pcs|
  {
    if pcs != [] {
      NoneHolding(pcs[1..], f);
    }
  }

  lemma {:induction false} SomeHolding(pcs: seq<Pc>, t: nat, f: nat)
    requires t < |pcs| && pcs[t] == ReturnBuff(f)
    ensures Holding(pcs, f) >= 1
    decreases |pcs|
  {
    if t > 0 {
      SomeHolding(pcs[1..], t - 1, f);
    }
  }

  lemma NewKeepsInv(s: State)
    requires Inv(s)
    ensures Inv(Apply(s, New))
  {
    var s' := Apply(s, New);
    NoneHolding(s.pcs, |s.frames|);
    assert s'.frames[..|s.frames|] == s.frames;
    forall f | 0 <= f < |s'.frames|
      ensures OneOwner(s', f)
    {
      if f < |s.frames| {
        assert OneOwner(s, f);
      }
    }
  }

  lemma CountKeepsInv(s: State, step: Step)
    requires Inv(s) && Enabled(s, step) && (step.IncRef? || step.Release?)
    ensures Inv(Apply(s, step))
  {
    var s' := Apply(s, step);
    UnreturnedUpdate(s.frames, step.frame, s'.frames[step.frame]);
    forall f | 0 <= f < |s'.frames|
      ensures OneOwner(s', f)
    {
      assert OneOwner(s, f);
      HoldingUpdate(s.pcs, step.t, LoadInner(step.frame), f);
    }
  }

  lemma GoKeepsInv(s: State, t: nat)
    requires Inv(s) && Enabled(s, Go(t))
    ensures Inv(Apply(s, Go(t)))
  {
    var s' := Apply(s, Go(t));
    var pc := s.pcs[t];
    UnreturnedUpdate(s.frames, pc.frame, s'.frames[pc.frame]);
    if pc.ReturnBuff? {
      SomeHolding(s.pcs, t, pc.frame);
      assert OneOwner(s, pc.frame);
    }
    forall f | 0 <= f < |s'.frames|
      ensures OneOwner(s', f)
    {
      assert OneOwner(s, f);
      HoldingUpdate(s.pcs, t, s'.pcs[t], f);
    }
  }

  lemma StepKeepsInv(s: State, step: Step)
    requires Inv(s) && Enabled(s, step)
    ensures Inv(Apply(s, step))
  {
    match step
    case New => NewKeepsInv(s);
    case IncRef(_, _) => CountKeepsInv(s, step);
    case Release(_, _) => CountKeepsInv(s, step);
    case Go(t) => GoKeepsInv(s, t);
  }

  lemma {:induction false} RunKeepsInv(s: State, steps: seq<Step>)
    requires Inv(s) && CanRun(s, steps)
    ensures Inv(Run(s, steps))
    decreases |steps|
  {
    if steps != [] {
      StepKeepsInv(s, steps[0]);
      RunKeepsInv(Apply(s, steps[0]), steps[1..]);
    }
  }

  /**
   However IncRef and Release are called, no buffer is given back twice, and the borrowed counter is
   the number of buffers that are not back in the pool.
   */
  lemma {:induction false} ReturnedAtMostOnce(goroutines: nat, steps: seq<Step>)
    requires CanRun(Start(goroutines), steps)
    ensures var s := Run(Start(goroutines), steps);
            && (forall f :: 0 <= f < |s.frames| ==> s.frames[f].returned <= 1)
            && s.borrowed == Unreturned(s.frames)
  {
    RunKeepsInv(Start(goroutines), steps);
    var s := Run(Start(goroutines), steps);
    forall f | 0 <= f < |s.frames|
      ensures s.frames[f].returned <= 1
    {
      assert OneOwner(s, f);
    }
  }

  // Which runs keep a counted frame's buffer

  /** IncRef on a count of zero, which no holder of a reference ever sees. */
  predicate Revives(s: State, step: Step) {
    step.IncRef? && step.frame < |s.frames| && s.frames[step.frame].refs == 0
  }

  predicate NeverRevives(s: State, steps: seq<Step>)
    requires CanRun(s, steps)
    decreases |steps|
  {
    steps != [] ==> !Revives(s, steps[0]) && NeverRevives(Apply(s, steps[0]), steps[1..])
  }

  /** The goroutine is inside Release of frame f, having found the count not positive. */
  predicate Releasing(pc: Pc, f: nat) {
    !pc.Idle? && pc.frame == f
  }

  ghost predicate NoneReleasing(pcs: seq<Pc>, f: nat) {
    forall t :: 0 <= t < |pcs| ==> !Releasing(pcs[t], f)
  }

  /** A frame with references has its buffer, and nobody is about to take it away. */
  ghost predicate Kept(s: State, f: nat)
    requires f < |s.frames|
  {
    s.frames[f].refs > 0 ==> s.frames[f].inner && s.frames[f].returned == 0 && NoneReleasing(s.pcs, f)
  }

  ghost predicate AllKept(s: State) {
    forall f :: 0 <= f < |s.frames| ==> Kept(s, f)
  }

  /** At every moment of the run. */
  ghost predicate AlwaysKept(s: State, steps: seq<Step>)
    requires CanRun(s, steps)
    decreases |steps|
  {
    AllKept(s) && (steps != [] ==> AlwaysKept(Apply(s, steps[0]), steps[1..]))
  }

  /** A frame without references that still has its buffer has somebody on the way to return it. */
  ghost predicate Leaving(s: State, f: nat)
    requires f < |s.frames|
  {
    s.frames[f].refs <= 0 && s.frames[f].inner ==> !NoneReleasing(s.pcs, f)
  }

  ghost predicate CountedInv(s: State) {
    Inv(s) && AllKept(s) && forall f :: 0 <= f < |s.frames| ==> Leaving(s, f)
  }

  lemma CountCounted(s: State, step: Step, f: nat)
    requires CountedInv(s) && Enabled(s, step) && !Revives(s, step) && !step.Go?
    requires f < |Apply(s, step).frames|
    ensures Kept(Apply(s, step), f) && Leaving(Apply(s, step), f)
  {
    var s' := Apply(s, step);
    if f < |s.frames| {
      assert Kept(s, f) && Leaving(s, f);
      if step.Release? && !NoneReleasing(s.pcs, f) {
        var t :| 0 <= t < |s.pcs| && Releasing(s.pcs[t], f);
        assert s'.pcs[t] == s.pcs[t];
      }
      if step.Release? && step.frame == f && s'.frames[f].refs <= 0 {
        assert Releasing(s'.pcs[step.t], f);
      }
    }
  }

  lemma GoCounted(s: State, t: nat, f: nat)
    requires CountedInv(s) && Enabled(s, Go(t)) && f < |s.frames|
    ensures Kept(Apply(s, Go(t)), f) && Leaving(Apply(s, Go(t)), f)
  {
    var s' := Apply(s, Go(t));
    assert Kept(s, f) && Leaving(s, f);
    if s.pcs[t].frame == f {
      assert Releasing(s.pcs[t], f);
      if s'.frames[f].inner {
        StillInside(s, t);
      }
    } else if !NoneReleasing(s.pcs, f) {
      var u :| 0 <= u < |s.pcs| && Releasing(s.pcs[u], f);
      assert s'.pcs[u] == s.pcs[u];
    }
  }

  /** A step inside Release that leaves the buffer with the frame does not end the Release. */
  lemma StillInside(s: State, t: nat)
    requires Inv(s) && Enabled(s, Go(t)) && Apply(s, Go(t)).frames[s.pcs[t].frame].inner
    ensures Releasing(Apply(s, Go(t)).pcs[t], s.pcs[t].frame)
  {
    assert OneOwner(s, s.pcs[t].frame);
    if s.pcs[t].ReturnBuff? {
      SomeHolding(s.pcs, t, s.pcs[t].frame);
    }
  }

  lemma StepKeepsCounted(s: State, step: Step)
    requires CountedInv(s) && Enabled(s, step) && !Revives(s, step)
    ensures CountedInv(Apply(s, step))
  {
    StepKeepsInv(s, step);
    forall f | 0 <= f < |Apply(s, step).frames|
      ensures Kept(Apply(s, step), f) && Leaving(Apply(s, step), f)
    {
      if step.Go? {
        GoCounted(s, step.t, f);
      } else {
        CountCounted(s, step, f);
      }
    }
  }

  /** IncRef on zero makes the count positive while the buffer is gone or on its way. */
  lemma RevivalBreaks(s: State, step: Step)
    requires CountedInv(s) && Enabled(s, step) && Revives(s, step)
    ensures !AllKept(Apply(s, step))
  {
    assert Leaving(s, step.frame);
    assert !Kept(Apply(s, step), step.frame);
  }

  lemma {:induction false} RunKeepsCounted(s: State, steps: seq<Step>)
    requires CountedInv(s) && CanRun(s, steps) && NeverRevives(s, steps)
    ensures CountedInv(Run(s, steps))
    decreases |steps|
  {
    if steps != [] {
      StepKeepsCounted(s, steps[0]);
      RunKeepsCounted(Apply(s, steps[0]), steps[1..]);
    }
  }

  lemma {:induction false} KeptFrom(s: State, steps: seq<Step>)
    requires CountedInv(s) && CanRun(s, steps)
    ensures AlwaysKept(s, steps) <==> NeverRevives(s, steps)
    decreases |steps|
  {
    if steps != [] {
      if Revives(s, steps[0]) {
        RevivalBreaks(s, steps[0]);
      } else {
        StepKeepsCounted(s, steps[0]);
        KeptFrom(Apply(s, steps[0]), steps[1..]);
      }
    }
  }

  lemma StartCounted(goroutines: nat)
    ensures CountedInv(Start(goroutines))
  {
  }

  /**
   At every moment every frame with a positive count has its buffer and nobody is returning it, if and
   only if IncRef is never called on a count of zero. Release may be called at will.
   */
  lemma {:induction false} KeptExactly(goroutines: nat, steps: seq<Step>)
    requires CanRun(Start(goroutines), steps)
    ensures AlwaysKept(Start(goroutines), steps) <==> NeverRevives(Start(goroutines), steps)
  {
    StartCounted(goroutines);
    KeptFrom(Start(goroutines), steps);
  }

  /**
   If only holders of a reference count up, then under any interleaving with Release a frame keeps its
   buffer while there are references, and once nobody is inside Release the buffer has gone back
   exactly once if the count is no longer positive, and not at all otherwise.
   */
  lemma {:induction false} ReturnedExactlyAtZero(goroutines: nat, steps: seq<Step>, f: nat)
    requires CanRun(Start(goroutines), steps) && NeverRevives(Start(goroutines), steps)
    requires f < |Run(Start(goroutines), steps).frames|
    ensures var s := Run(Start(goroutines), steps);
            && (s.frames[f].refs > 0 ==> s.frames[f].inner && s.frames[f].returned == 0)
            && (NoneReleasing(s.pcs, f) ==> s.frames[f].returned == if s.frames[f].refs <= 0 then 1 else 0)
  {
    StartCounted(goroutines);
    RunKeepsCounted(Start(goroutines), steps);
    var s := Run(Start(goroutines), steps);
    assert OneOwner(s, f) && Kept(s, f) && Leaving(s, f);
    if NoneReleasing(s.pcs, f) {
      NobodyHolds(s.pcs, f);
    }
  }

  lemma {:induction false} NobodyHolds(pcs: seq<Pc>, f: nat)
    requires NoneReleasing(pcs, f)
    ensures Holding(pcs, f) == 0
    decreases |pcs|
  {
    if pcs != [] {
      assert !Releasing(pcs[0], f);
      NobodyHolds(pcs[1..], f);
    }
  }

  function Incs(steps: seq<Step>, f: nat): nat {
    if steps == [] then 0
    else (if steps[0].IncRef? && steps[0].frame == f then 1 else 0) + Incs(steps[1..], f)
  }

  function Releases(steps: seq<Step>, f: nat): nat {
    if steps == [] then 0
    else (if steps[0].Release? && steps[0].frame == f then 1 else 0) + Releases(steps[1..], f)
  }

  lemma {:induction false} CountFrom(s: State, steps: seq<Step>, f: nat)
    requires CanRun(s, steps) && f < |Run(s, steps).frames|
    ensures Run(s, steps).frames[f].refs
         == (if f < |s.frames| then s.frames[f].refs else 1) + Incs(steps, f) - Releases(steps, f)
    decreases |steps|
  {
    if steps != [] {
      CountFrom(Apply(s, steps[0]), steps[1..], f);
    }
  }

  /**
   The count is one for the creator, plus the calls of IncRef, minus those of Release. So, if IncRef is
   never called on zero and nobody is inside Release, a buffer is back in the pool exactly if Release has
   been called more often than IncRef, and in no run more than once.
   */
  lemma {:induction false} ReturnedByCalls(goroutines: nat, steps: seq<Step>, f: nat)
    requires CanRun(Start(goroutines), steps) && f < |Run(Start(goroutines), steps).frames|
    ensures var frame := Run(Start(goroutines), steps).frames[f];
            && frame.refs == 1 + Incs(steps, f) - Releases(steps, f)
            && (NeverRevives(Start(goroutines), steps) && NoneReleasing(Run(Start(goroutines), steps).pcs, f) ==>
                  frame.returned == if Releases(steps, f) > Incs(steps, f) then 1 else 0)
  {
    CountFrom(Start(goroutines), steps, f);
    if NeverRevives(Start(goroutines), steps) {
      ReturnedExactlyAtZero(goroutines, steps, f);
    }
  }

  /** One run that counts up from zero: the buffer is back in the pool and the count is positive. */
  lemma LostToAStranger()
    ensures var steps := [New, Release(0, 0), Go(0), Go(0), Go(0), IncRef(0, 0)];
            && CanRun(Start(1), steps)
            && Run(Start(1), steps).frames == [Frame(1, false, 1)]
  {
  }
}
