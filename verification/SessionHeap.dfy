/**
 The binary heap of sessions, ordered by deadline. Up, Down, Push, Pop and Remove are those of Go's
 container/heap over the session heap's own Less, Swap, Push and Pop.

 The functions here say what the operations do to the list of sessions; SessionManager has the
 methods, which also keep each session's index up to date.
 */
module SessionHeap {

  type Token = seq<int>

  class Session {
    const deadline: int
    const token: Token
    var index: int

    /** NewSession. */
    constructor (deadline: int, token: Token)
      ensures this.deadline == deadline && this.token == token && index == 0
    {
      this.deadline, this.token := deadline, token;
      index := 0;
    }
  }

  function Less(h: seq<Session>, i: nat, j: nat): bool
    requires i < |h| && j < |h|
  {
    h[i].deadline < h[j].deadline
  }

  function Swapped(h: seq<Session>, i: nat, j: nat): (r: seq<Session>)
    requires i < |h| && j < |h|
    ensures |r| == |h|
  {
    h[i := h[j]][j := h[i]]
  }

  function Parent(j: nat): nat
    requires j > 0
  {
    (j - 1) / 2
  }

  function Up(h: seq<Session>, j: nat): (r: seq<Session>)
    requires j < |h|
    ensures |r| == |h|
    decreases j
  {
    if j == 0 || !Less(h, j, Parent(j)) then h else Up(Swapped(h, Parent(j), j), Parent(j))
  }

  /** The smaller child of i among the first n; the left one if they are equal. */
  function Child(h: seq<Session>, i: nat, n: nat): (j: nat)
    requires 2 * i + 1 < n <= |h|
    ensures i < j < n && Parent(j) == i
  {
    if 2 * i + 2 < n && Less(h, 2 * i + 2, 2 * i + 1) then 2 * i + 2 else 2 * i + 1
  }

  predicate Sinks(h: seq<Session>, i: nat, n: nat)
    requires i < |h| && n <= |h|
  {
    2 * i + 1 < n && Less(h, Child(h, i, n), i)
  }

  function Down(h: seq<Session>, i: nat, n: nat): (r: seq<Session>)
    requires i < |h| && n <= |h|
    ensures |r| == |h|
    decreases |h| - i
  {
    if !Sinks(h, i, n) then h else Down(Swapped(h, i, Child(h, i, n)), Child(h, i, n), n)
  }

  function Push(h: seq<Session>, x: Session): seq<Session> {
    Up(h + [x], |h|)
  }

  /** The list before its last element is taken off by Pop. */
  function BeforePop(h: seq<Session>): (r: seq<Session>)
    requires h != []
    ensures |r| == |h|
  {
    Down(Swapped(h, 0, |h| - 1), 0, |h| - 1)
  }

  function BeforeRemove(h: seq<Session>, i: nat): (r: seq<Session>)
    requires i < |h|
    ensures |r| == |h|
  {
    var n := |h| - 1;
    if n == i then h
    else
      var h1 := Swapped(h, i, n);
      if Sinks(h1, i, n) then Down(h1, i, n) else Up(h1, i)
  }

  // Same sessions

  ghost function Elems(h: seq<Session>): set<Session> {
    set s | s in h
  }

  ghost predicate Distinct(h: seq<Session>) {
    forall i, j :: 0 <= i < j < |h| ==> h[i] != h[j]
  }

  lemma SwappedSame(h: seq<Session>, i: nat, j: nat)
    requires i < |h| && j < |h|
    ensures Elems(Swapped(h, i, j)) == Elems(h)
    ensures Distinct(h) ==> Distinct(Swapped(h, i, j))
  {
    var r := Swapped(h, i, j);
    forall s | s in h
      ensures s in r
    {
      var k :| 0 <= k < |h| && h[k] == s;
      assert r[if k == i then j else if k == j then i else k] == s;
    }
  }

  lemma {:induction false} UpSame(h: seq<Session>, j: nat)
    requires j < |h|
    ensures Elems(Up(h, j)) == Elems(h)
    ensures Distinct(h) ==> Distinct(Up(h, j))
    ensures Up(h, j)[j+1..] == h[j+1..]
    decreases j
  {
    if j > 0 && Less(h, j, Parent(j)) {
      SwappedSame(h, Parent(j), j);
      UpSame(Swapped(h, Parent(j), j), Parent(j));
      SuffixSame(Swapped(h, Parent(j), j), Up(h, j), Parent(j) + 1, j + 1);
    }
  }

  lemma SuffixSame(h: seq<Session>, r: seq<Session>, a: nat, b: nat)
    requires |h| == |r| && a <= b <= |h| && r[a..] == h[a..]
    ensures r[b..] == h[b..]
  {
    assert r[b..] == r[a..][b-a..];
    assert h[b..] == h[a..][b-a..];
  }

  lemma {:induction false} DownSame(h: seq<Session>, i: nat, n: nat)
    requires i < n <= |h|
    ensures Elems(Down(h, i, n)) == Elems(h)
    ensures Distinct(h) ==> Distinct(Down(h, i, n))
    ensures Down(h, i, n)[n..] == h[n..]
    decreases |h| - i
  {
    if Sinks(h, i, n) {
      SwappedSame(h, i, Child(h, i, n));
      DownSame(Swapped(h, i, Child(h, i, n)), Child(h, i, n), n);
    }
  }

  // Order

  /** Among the first n, no session is due before its parent. */
  ghost predicate Ordered(h: seq<Session>, n: nat)
    requires n <= |h|
  {
    forall k :: 0 < k < n ==> h[Parent(k)].deadline <= h[k].deadline
  }

  /** Ordered but for k itself, whose children respect its parent: where Up and Down start. */
  ghost predicate OrderedBut(h: seq<Session>, n: nat, at: nat)
    requires n <= |h|
  {
    && (forall k :: 0 < k < n && k != at && Parent(k) != at ==> h[Parent(k)].deadline <= h[k].deadline)
    && (forall k :: 0 < k < n && at > 0 && at < n && Parent(k) == at ==> h[Parent(at)].deadline <= h[k].deadline)
  }

  /** at is not due after its children. */
  ghost predicate AboveChildren(h: seq<Session>, n: nat, at: nat)
    requires n <= |h| && at < |h|
  {
    forall k :: 0 < k < n && Parent(k) == at ==> h[at].deadline <= h[k].deadline
  }

  lemma {:induction false} UpOrders(h: seq<Session>, j: nat, n: nat)
    requires j < n <= |h| && OrderedBut(h, n, j) && AboveChildren(h, n, j)
    ensures Ordered(Up(h, j), n)
    decreases j
  {
    if j > 0 && Less(h, j, Parent(j)) {
      UpStep(h, j, n);
      UpOrders(Swapped(h, Parent(j), j), Parent(j), n);
    }
  }

  lemma UpStep(h: seq<Session>, j: nat, n: nat)
    requires 0 < j < n <= |h| && OrderedBut(h, n, j) && AboveChildren(h, n, j) && Less(h, j, Parent(j))
    ensures OrderedBut(Swapped(h, Parent(j), j), n, Parent(j))
    ensures AboveChildren(Swapped(h, Parent(j), j), n, Parent(j))
  {
  }

  lemma {:induction false} DownOrders(h: seq<Session>, i: nat, n: nat)
    requires i < n <= |h| && OrderedBut(h, n, i)
    requires i > 0 ==> h[Parent(i)].deadline <= h[i].deadline
    ensures Ordered(Down(h, i, n), n)
    decreases |h| - i
  {
    if Sinks(h, i, n) {
      DownStep(h, i, n);
      DownOrders(Swapped(h, i, Child(h, i, n)), Child(h, i, n), n);
    }
  }

  lemma DownStep(h: seq<Session>, i: nat, n: nat)
    requires i < n <= |h| && OrderedBut(h, n, i) && Sinks(h, i, n)
    requires i > 0 ==> h[Parent(i)].deadline <= h[i].deadline
    ensures var j := Child(h, i, n);
            OrderedBut(Swapped(h, i, j), n, j) && Swapped(h, i, j)[i].deadline <= Swapped(h, i, j)[j].deadline
  {
  }

  lemma {:induction false} RootIsFirst(h: seq<Session>, k: nat)
    requires k < |h| && Ordered(h, |h|)
    ensures h[0].deadline <= h[k].deadline
    decreases k
  {
    if k > 0 {
      RootIsFirst(h, Parent(k));
    }
  }

  // The three operations on a heap

  lemma PushOrders(h: seq<Session>, x: Session)
    requires Ordered(h, |h|)
    ensures Ordered(Push(h, x), |h| + 1)
    ensures Elems(Push(h, x)) == Elems(h) + {x}
  {
    UpOrders(h + [x], |h|, |h| + 1);
    UpSame(h + [x], |h|);
    assert (h + [x])[|h|] == x;
  }

  /** Taking off the last element. */
  lemma Front(h: seq<Session>, n: nat)
    requires |h| == n + 1 && Distinct(h) && Ordered(h, n)
    ensures Elems(h[..n]) == Elems(h) - {h[n]}
    ensures Ordered(h[..n], n)
  {
    assert h == h[..n] + [h[n]];
  }

  lemma SameAt(h: seq<Session>, r: seq<Session>, n: nat)
    requires |h| == |r| && n < |h| && h[n..] == r[n..]
    ensures h[n] == r[n]
  {
    assert h[n] == h[n..][0] && r[n] == r[n..][0];
  }

  /** r has the sessions of h, in order but for x at the end. */
  ghost predicate Ready(h: seq<Session>, r: seq<Session>, x: Session) {
    |r| == |h| > 0 && Elems(r) == Elems(h) && Distinct(r) && Ordered(r, |r| - 1) && r[|r|-1] == x
  }

  lemma BeforePopReady(h: seq<Session>)
    requires h != [] && Ordered(h, |h|) && Distinct(h)
    ensures Ready(h, BeforePop(h), h[0])
  {
    var n := |h| - 1;
    var h1 := Swapped(h, 0, n);
    SwappedSame(h, 0, n);
    if n > 0 {
      DownReady(h, h1, 0, h[0]);
    }
  }

  /** Pop takes off a session of least deadline and leaves an ordered heap of the others. */
  lemma PopOrders(h: seq<Session>)
    requires h != [] && Ordered(h, |h|) && Distinct(h)
    ensures var r, n := BeforePop(h), |h| - 1;
            Ordered(r[..n], n) && r[n] == h[0] && Elems(r[..n]) == Elems(h) - {h[0]}
    ensures forall s :: s in h ==> h[0].deadline <= s.deadline
  {
    BeforePopReady(h);
    Front(BeforePop(h), |h| - 1);
    forall s | s in h
      ensures h[0].deadline <= s.deadline
    {
      var k :| 0 <= k < |h| && h[k] == s;
      RootIsFirst(h, k);
    }
  }

  lemma DownReady(h: seq<Session>, h1: seq<Session>, i: nat, x: Session)
    requires Elems(h1) == Elems(h) && Distinct(h1) && |h1| == |h| && i < |h| - 1 && h1[|h|-1] == x
    requires OrderedBut(h1, |h| - 1, i) && (i > 0 ==> h1[Parent(i)].deadline <= h1[i].deadline)
    ensures Ready(h, Down(h1, i, |h| - 1), x)
  {
    DownSame(h1, i, |h| - 1);
    DownOrders(h1, i, |h| - 1);
    SameAt(h1, Down(h1, i, |h| - 1), |h| - 1);
  }

  lemma {:induction false} UpReady(h: seq<Session>, h1: seq<Session>, i: nat, x: Session)
    requires Elems(h1) == Elems(h) && Distinct(h1) && |h1| == |h| && i < |h| - 1 && h1[|h|-1] == x
    requires OrderedBut(h1, |h| - 1, i) && AboveChildren(h1, |h| - 1, i)
    ensures Ready(h, Up(h1, i), x)
  {
    UpSame(h1, i);
    UpOrders(h1, i, |h| - 1);
    SuffixSame(h1, Up(h1, i), i + 1, |h| - 1);
    SameAt(h1, Up(h1, i), |h| - 1);
  }

  lemma BeforeRemoveReady(h: seq<Session>, i: nat)
    requires i < |h| && Ordered(h, |h|) && Distinct(h)
    ensures Ready(h, BeforeRemove(h, i), h[i])
  {
    var n := |h| - 1;
    if i < n {
      var h1 := Swapped(h, i, n);
      SwappedSame(h, i, n);
      RemoveStarts(h, i);
      if Sinks(h1, i, n) {
        DownReady(h, h1, i, h[i]);
      } else {
        UpReady(h, h1, i, h[i]);
      }
    }
  }

  /** Remove takes off the session at i and leaves an ordered heap of the others. */
  lemma RemoveOrders(h: seq<Session>, i: nat)
    requires i < |h| && Ordered(h, |h|) && Distinct(h)
    ensures var r, n := BeforeRemove(h, i), |h| - 1;
            Ordered(r[..n], n) && r[n] == h[i] && Elems(r[..n]) == Elems(h) - {h[i]}
  {
    BeforeRemoveReady(h, i);
    Front(BeforeRemove(h, i), |h| - 1);
  }

  /** The last session in the place of the removed one is in order but for itself. */
  lemma RemoveStarts(h: seq<Session>, i: nat)
    requires i < |h| - 1 && Ordered(h, |h|)
    ensures var h1, n := Swapped(h, i, |h| - 1), |h| - 1;
            && OrderedBut(h1, n, i)
            && (if Sinks(h1, i, n) then i > 0 ==> h1[Parent(i)].deadline <= h1[i].deadline
                else AboveChildren(h1, n, i))
  {
    var h1, n := Swapped(h, i, |h| - 1), |h| - 1;
    forall k | 0 < k < n
      ensures h[Parent(k)].deadline <= h[k].deadline
    {
    }
    if !Sinks(h1, i, n) {
      forall k | 0 < k < n && Parent(k) == i
        ensures h1[i].deadline <= h1[k].deadline
      {
        assert k == 2 * i + 1 || k == 2 * i + 2;
      }
    }
  }
}
