/** The session manager: the heap with its index back-pointers, and the map from tokens to sessions. */
module SessionManager {
  import opened SessionHeap

  class Manager {
    var h: seq<Session>
    var m: map<Token, Session>

    constructor ()
      ensures Valid() && h == [] && m == map[] && Bijective()
    {
      h, m := [], map[];
    }

    /** Every session knows its place, so none is in the heap twice. */
    ghost predicate Indexed()
      reads this, h
    {
      forall i :: 0 <= i < |h| ==> h[i].index == i
    }

    /** Every map entry points at a session in the heap, under its own token. */
    ghost predicate MapOk()
      reads this
    {
      forall k :: k in m ==> m[k] in h && m[k].token == k
    }

    ghost predicate Valid()
      reads this, h
    {
      Indexed() && Ordered(h, |h|) && MapOk()
    }

    /** Every session in the heap is found under its token; with MapOk, map and heap correspond one to one. */
    ghost predicate Bijective()
      reads this
    {
      forall s :: s in h ==> s.token in m && m[s.token] == s
    }

    lemma IndexedIsDistinct()
      requires Indexed()
      ensures Distinct(h)
    {
      forall i, j | 0 <= i < j < |h|
        ensures h[i] != h[j]
      {
        assert h[i].index == i && h[j].index == j;
      }
    }

    // sHeap

    method Swap(i: nat, j: nat)
      requires Indexed() && i < |h| && j < |h|
      modifies this`h, h[i], h[j]
      ensures h == Swapped(old(h), i, j) && Indexed()
    {
      IndexedIsDistinct();
      h := h[i := h[j]][j := h[i]];
      h[i].index, h[j].index := i, j;
    }

    method PushLast(session: Session)
      requires Indexed() && session !in h
      modifies this`h, session
      ensures h == old(h) + [session] && Indexed()
    {
      session.index := |h|;
      h := h + [session];
    }

    method PopLast() returns (x: Session)
      requires Indexed() && h != []
      modifies this`h, h[|h|-1]
      ensures h == old(h[..|h|-1]) && x == old(h[|h|-1]) && x.index == -1 && Indexed()
    {
      IndexedIsDistinct();
      x := h[|h|-1];
      h := h[..|h|-1];
      x.index := -1;
    }

    // container/heap

    method MoveUp(j0: nat)
      requires Indexed() && j0 < |h|
      modifies this`h, Elems(h)
      ensures h == Up(old(h), j0) && Indexed() && Elems(h) == old(Elems(h))
    {
      var j: nat := j0;
      while j > 0 && Less(h, j, (j - 1) / 2)
        invariant j < |h| && Indexed() && Elems(h) == old(Elems(h))
        invariant Up(h, j) == Up(old(h), j0)
        decreases j
      {
        var i: nat := (j - 1) / 2;
        SwappedSame(h, i, j);
        assert h[i] in Elems(h) && h[j] in Elems(h);
        Swap(i, j);
        j := i;
      }
    }

    method MoveDown(i0: nat, n: nat) returns (moved: bool)
      requires Indexed() && i0 < |h| && n <= |h|
      modifies this`h, Elems(h)
      ensures h == Down(old(h), i0, n) && Indexed() && Elems(h) == old(Elems(h))
      ensures moved <==> Sinks(old(h), i0, n)
    {
      var i := i0;
      while 2 * i + 1 < n
        invariant i < |h| == |old(h)| && Indexed() && Elems(h) == old(Elems(h))
        invariant Down(h, i, n) == Down(old(h), i0, n)
        invariant i0 <= i && (i == i0 ==> h == old(h)) && (i > i0 ==> Sinks(old(h), i0, n))
        decreases |h| - i
      {
        var j1 := 2 * i + 1;
        var j := j1;
        if j1 + 1 < n && Less(h, j1 + 1, j1) {
          j := j1 + 1;
        }
        assert j == Child(h, i, n);
        if !Less(h, j, i) {
          break;
        }
        assert Sinks(h, i, n);
        SwappedSame(h, i, j);
        assert h[i] in Elems(h) && h[j] in Elems(h);
        Swap(i, j);
        i := j;
      }
      moved := i > i0;
    }

    method HeapPush(x: Session)
      requires Indexed() && x !in h
      modifies this`h, x, Elems(h)
      ensures h == Push(old(h), x) && Indexed()
    {
      PushLast(x);
      MoveUp(|h| - 1);
    }

    method HeapPop() returns (x: Session)
      requires Indexed() && h != []
      modifies this`h, Elems(h)
      ensures h == BeforePop(old(h))[..|old(h)|-1] && x == BeforePop(old(h))[|old(h)|-1]
      ensures x.index == -1 && Indexed()
    {
      var n := |h| - 1;
      SwappedSame(h, 0, n);
      assert h[0] in Elems(h) && h[n] in Elems(h);
      Swap(0, n);
      var _ := MoveDown(0, n);
      assert h[n] in Elems(h);
      x := PopLast();
    }

    method HeapRemove(i: nat) returns (x: Session)
      requires Indexed() && i < |h|
      modifies this`h, Elems(h)
      ensures h == BeforeRemove(old(h), i)[..|old(h)|-1] && x == BeforeRemove(old(h), i)[|old(h)|-1]
      ensures x.index == -1 && Indexed()
    {
      var n := |h| - 1;
      if n != i {
        SwappedSame(h, i, n);
        assert h[i] in Elems(h) && h[n] in Elems(h);
        Swap(i, n);
        var moved := MoveDown(i, n);
        if !moved {
          MoveUp(i);
        }
      }
      assert h[n] in Elems(h);
      x := PopLast();
    }

    // Manager

    method PushSession(session: Session)
      requires Valid() && session !in h
      modifies this, session, Elems(h)
      ensures Valid() && Elems(h) == old(Elems(h)) + {session}
      ensures m == old(m)[session.token := session]
      ensures old(Bijective()) ==> (Bijective() <==> session.token !in old(m))
    {
      PushOrders(h, session);
      HeapPush(session);
      m := m[session.token := session];
      assert forall s :: s in h <==> s in Elems(h);
      assert forall s :: s in old(h) <==> s in old(Elems(h));
    }

    method Load(token: Token) returns (session: Session?, ok: bool)
      requires Valid()
      ensures ok <==> token in m
      ensures ok ==> session == m[token] && session in h && session.token == token
    {
      ok := token in m;
      session := if ok then m[token] else null;
    }

    method Pop() returns (session: Session)
      requires Valid() && h != []
      modifies this, Elems(h)
      ensures Valid() && session in old(h) && session.index == -1
      ensures forall s :: s in old(h) ==> session.deadline <= s.deadline
      ensures Elems(h) == old(Elems(h)) - {session} && |h| == old(|h|) - 1
      ensures m == old(m) - {session.token}
      ensures old(Bijective()) ==> Bijective()
    {
      IndexedIsDistinct();
      PopOrders(h);
      session := HeapPop();
      m := m - {session.token};
      assert forall s :: s in h <==> s in Elems(h);
      assert forall s :: s in old(h) <==> s in old(Elems(h));
    }

    method Remove(token: Token) returns (session: Session?, ok: bool)
      requires Valid()
      modifies this, Elems(h)
      ensures Valid() && (ok <==> token in old(m))
      ensures ok ==> session == old(m[token]) && session.index == -1 && |h| == old(|h|) - 1
      ensures ok ==> Elems(h) == old(Elems(h)) - {session} && m == old(m) - {token}
      ensures !ok ==> h == old(h) && m == old(m)
      ensures old(Bijective()) ==> Bijective()
    {
      ok := token in m;
      session := if ok then m[token] else null;
      if ok && session.index > -1 {
        IndexedIsDistinct();
        RemoveOrders(h, session.index);
        var _ := HeapRemove(session.index);
        m := m - {token};
        session.index := -1;
        assert forall s :: s in h <==> s in Elems(h);
        assert forall s :: s in old(h) <==> s in old(Elems(h));
      }
    }
  }
}
