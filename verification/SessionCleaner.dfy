/** The server's periodic removal of dead sessions, and the removal of all of them when it stops. */
module SessionCleaner {
  import opened SessionHeap
  import opened SessionManager

  /** Time never goes back between one reading of the clock and the next. */
  ghost predicate Monotone(clock: nat -> int) {
    forall i: nat, j: nat :: i <= j ==> clock(i) <= clock(j)
  }

  /** IsDead, at the k-th reading of the clock. */
  predicate IsDead(s: Session, clock: nat -> int, k: nat) {
    clock(k) > s.deadline
  }

  /** In the order of their deadlines. */
  ghost predicate InDeadlineOrder(closed: seq<Session>) {
    forall i, j :: 0 <= i < j < |closed| ==> closed[i].deadline <= closed[j].deadline
  }

  /** No session in h is due before any that has been closed. */
  ghost predicate ClosedBefore(closed: seq<Session>, h: seq<Session>) {
    forall c, s :: c in closed && s in h ==> c.deadline <= s.deadline
  }

  /**
   doCleanSession. Sessions are closed in deadline order, each after its deadline by its own reading
   of the clock, and by the reading that ends the loop no session left is past its deadline. Nothing
   is lost: every session is either closed or still managed.
   */
  method DoCleanSession(sm: Manager, clock: nat -> int) returns (closed: seq<Session>)
    requires sm.Valid() && Monotone(clock)
    modifies sm, Elems(sm.h)
    ensures sm.Valid()
    ensures Elems(closed) + Elems(sm.h) == old(Elems(sm.h)) && Elems(closed) !! Elems(sm.h) && Distinct(closed)
    ensures InDeadlineOrder(closed) && ClosedBefore(closed, sm.h)
    ensures forall k :: 0 <= k < |closed| ==> clock(k) > closed[k].deadline
    ensures forall s :: s in sm.h ==> clock(|closed|) <= s.deadline
    ensures old(sm.Bijective()) ==> sm.Bijective()
  {
    closed := [];
    while |sm.h| > 0
      invariant sm.Valid() && Elems(sm.h) <= old(Elems(sm.h))
      invariant Elems(closed) + Elems(sm.h) == old(Elems(sm.h)) && Elems(closed) !! Elems(sm.h) && Distinct(closed)
      invariant InDeadlineOrder(closed) && ClosedBefore(closed, sm.h)
      invariant forall k :: 0 <= k < |closed| ==> clock(k) > closed[k].deadline
      invariant old(sm.Bijective()) ==> sm.Bijective()
      decreases |sm.h|
    {
      ghost var before := sm.h;
      var cur := sm.Pop();
      assert forall s :: s in sm.h <==> s in Elems(sm.h);
      assert forall s :: s in before <==> s in Elems(before);
      if !IsDead(cur, clock, |closed|) {
        sm.PushSession(cur);
        assert Elems(sm.h) == Elems(before);
        StopHere(cur, before, sm.h, clock(|closed|));
        return;
      }
      CloseOne(closed, cur, before, sm.h);
      closed := closed + [cur];
    }
  }

  /** If the session due first is not past its deadline, none is. */
  lemma StopHere(cur: Session, before: seq<Session>, h: seq<Session>, now: int)
    requires Elems(h) == Elems(before) && now <= cur.deadline && forall s :: s in before ==> cur.deadline <= s.deadline
    ensures forall s :: s in h <==> s in before
    ensures forall s :: s in h ==> now <= s.deadline
  {
    assert forall s :: s in h <==> s in Elems(h);
    assert forall s :: s in before <==> s in Elems(before);
  }

  lemma CloseOne(closed: seq<Session>, cur: Session, before: seq<Session>, h: seq<Session>)
    requires InDeadlineOrder(closed) && ClosedBefore(closed, before)
    requires Distinct(closed) && Elems(closed) !! Elems(before)
    requires cur in before && Elems(h) == Elems(before) - {cur}
    requires forall s :: s in before ==> cur.deadline <= s.deadline
    ensures InDeadlineOrder(closed + [cur]) && ClosedBefore(closed + [cur], h) && Distinct(closed + [cur])
    ensures Elems(closed + [cur]) == Elems(closed) + {cur}
  {
    assert cur in Elems(before);
    assert forall s :: s in h ==> s in Elems(h);
    assert forall c :: c in closed ==> c in Elems(closed);
    assert (closed + [cur])[|closed|] == cur;
  }

  /** destroySessions: every session is closed, in deadline order. */
  method DestroySessions(sm: Manager) returns (closed: seq<Session>)
    requires sm.Valid()
    modifies sm, Elems(sm.h)
    ensures sm.Valid() && sm.h == []
    ensures Elems(closed) == old(Elems(sm.h)) && Distinct(closed) && InDeadlineOrder(closed)
    ensures old(sm.Bijective()) ==> sm.m == map[]
  {
    closed := [];
    while |sm.h| > 0
      invariant sm.Valid() && Elems(sm.h) <= old(Elems(sm.h))
      invariant Elems(closed) + Elems(sm.h) == old(Elems(sm.h)) && Elems(closed) !! Elems(sm.h) && Distinct(closed)
      invariant InDeadlineOrder(closed) && ClosedBefore(closed, sm.h)
      invariant old(sm.Bijective()) ==> sm.Bijective()
      decreases |sm.h|
    {
      ghost var before := sm.h;
      var cur := sm.Pop();
      assert forall s :: s in sm.h <==> s in Elems(sm.h);
      assert forall s :: s in before <==> s in Elems(before);
      CloseOne(closed, cur, before, sm.h);
      closed := closed + [cur];
    }
    assert sm.m.Keys == {};
  }
}
