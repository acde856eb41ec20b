/**
 The unbounded buffer: a channel of capacity one in front of a backlog. Every method runs under the
 mutex, so calls and receives interleave as whole steps.
 */
module Unbounded {

  /** The fields: what is in the channel, whether it is open, the backlog, and disposed. */
  datatype Buffer<T> = Buffer(channel: seq<T>, open: bool, backlog: seq<T>, disposed: bool)

  function Fresh<T>(): Buffer<T> {
    Buffer([], true, [], false)
  }

  function Put<T>(b: Buffer<T>, t: T): Buffer<T> {
    if b.disposed then b
    else if b.backlog == [] && b.channel == [] then b.(channel := [t])
    else b.(backlog := b.backlog + [t])
  }

  function Load<T>(b: Buffer<T>): Buffer<T> {
    if b.backlog != [] then
      if b.channel == [] then b.(channel := [b.backlog[0]], backlog := b.backlog[1..]) else b
    else if b.disposed then b.(open := false)
    else b
  }

  function Dispose<T>(b: Buffer<T>): Buffer<T> {
    b.(disposed := true, open := b.open && b.backlog != [])
  }

  function Take<T>(b: Buffer<T>): Buffer<T>
    requires b.channel != []
  {
    b.(channel := b.channel[1..])
  }

  /** Everything that is in the buffer, oldest first. */
  function Waiting<T>(b: Buffer<T>): seq<T> {
    b.channel + b.backlog
  }

  /**
   What holds between steps; idle says that the consumer has called Load since its last receive. An
   idle consumer finds the next element in the channel, or a closed channel once disposed.
   */
  ghost predicate Ok<T>(b: Buffer<T>, idle: bool) {
    && |b.channel| <= 1
    && (!b.open ==> b.disposed && b.backlog == [])
    && (idle && b.channel == [] ==> b.backlog == [] && (b.disposed ==> !b.open))
  }

  lemma PutOk<T>(b: Buffer<T>, idle: bool, t: T)
    requires Ok(b, idle)
    ensures Ok(Put(b, t), idle)
    ensures !b.disposed ==> b.open && Waiting(Put(b, t)) == Waiting(b) + [t]
    ensures b.disposed ==> Put(b, t) == b
  {
    if !b.disposed {
      assert b.channel + (b.backlog + [t]) == (b.channel + b.backlog) + [t];
    }
  }

  lemma LoadOk<T>(b: Buffer<T>)
    requires Ok(b, false)
    ensures Ok(Load(b), true) && Waiting(Load(b)) == Waiting(b)
  {
  }

  lemma DisposeOk<T>(b: Buffer<T>, idle: bool)
    requires Ok(b, idle)
    ensures Ok(Dispose(b), idle) && Waiting(Dispose(b)) == Waiting(b)
  {
  }

  lemma TakeOk<T>(b: Buffer<T>, idle: bool)
    requires Ok(b, idle) && b.channel != []
    ensures Ok(Take(b), false) && Waiting(b) == [b.channel[0]] + Waiting(Take(b))
  {
  }

  /** The object, with its history. The asserts are the sends that would panic on a closed channel. */
  class UnboundedBuffer<T> {
    var c: seq<T>
    var open: bool
    var backlog: seq<T>
    var disposed: bool
    ghost var accepted: seq<T>
    ghost var received: seq<T>

    ghost function Now(): Buffer<T>
      reads this
    {
      Buffer(c, open, backlog, disposed)
    }

    ghost predicate Valid(idle: bool)
      reads this
    {
      Ok(Now(), idle) && received + Waiting(Now()) == accepted
    }

    constructor ()
      ensures Valid(true) && Now() == Fresh() && accepted == [] && received == []
    {
      c, open, backlog, disposed := [], true, [], false;
      accepted, received := [], [];
    }

    method PutOne(t: T, ghost idle: bool) returns (ok: bool)
      requires Valid(idle)
      modifies this
      ensures Valid(idle) && Now() == Put(old(Now()), t)
      ensures ok <==> !old(disposed)
      ensures received == old(received) && accepted == if ok then old(accepted) + [t] else old(accepted)
    {
      PutOk(Now(), idle, t);
      if disposed {
        return false;
      }
      ok := true;
      accepted := accepted + [t];
      assert received + (Waiting(Now()) + [t]) == (received + Waiting(Now())) + [t];
      if |backlog| == 0 {
        if |c| < 1 {
          assert open;
          c := c + [t];
          return;
        }
      }
      backlog := backlog + [t];
    }

    method LoadNext() returns (n: int)
      requires Valid(false)
      modifies this
      ensures Valid(true) && Now() == Load(old(Now()))
      ensures received == old(received) && accepted == old(accepted)
      ensures n == 1 <==> old(c) == [] && old(backlog) != []
      ensures n == -1 <==> old(backlog) == [] && old(disposed)
      ensures -1 <= n <= 1
    {
      LoadOk(Now());
      n := 0;
      if |backlog| > 0 {
        if |c| < 1 {
          assert open;
          c := c + [backlog[0]];
          backlog := backlog[1..];
          n := 1;
        }
      } else if disposed {
        var _ := Close();
        n := -1;
      }
    }

    method DisposeAll(ghost idle: bool)
      requires Valid(idle)
      modifies this
      ensures Valid(idle) && Now() == Dispose(old(Now()))
      ensures received == old(received) && accepted == old(accepted)
    {
      DisposeOk(Now(), idle);
      disposed := true;
      if |backlog| == 0 {
        var _ := Close();
      }
    }

    /** close: closing a closed channel panics, the panic is recovered, and the call has failed. */
    method Close() returns (ok: bool)
      modifies this
      ensures ok <==> old(open)
      ensures !open && c == old(c) && backlog == old(backlog) && disposed == old(disposed)
      ensures accepted == old(accepted) && received == old(received)
    {
      ok := open;
      open := false;
    }

    /** The consumer's receive, when it does not block; more is false when the channel is closed. */
    method Receive(ghost idle: bool) returns (more: bool, t: seq<T>)
      requires Valid(idle) && (c != [] || !open)
      modifies this
      ensures more <==> old(c) != []
      ensures more ==> Valid(false) && t == [old(c)[0]] && Now() == Take(old(Now())) && received == old(received) + t
      ensures !more ==> Valid(idle) && Now() == old(Now()) && received == old(received)
      ensures accepted == old(accepted)
    {
      if c == [] {
        return false, [];
      }
      TakeOk(Now(), idle);
      assert received + ([c[0]] + (c[1..] + backlog)) == (received + [c[0]]) + (c[1..] + backlog);
      more, t := true, [c[0]];
      received := received + [c[0]];
      c := c[1..];
    }

    /**
     The consumer's loop once the buffer is disposed: it never blocks, and ends after exactly as many
     receives as there are elements waiting, having received everything ever accepted.
     */
    method DrainDisposed() returns (got: seq<T>)
      requires Valid(true) && disposed
      modifies this
      ensures got == old(Waiting(Now())) && |got| == old(|c| + |backlog|)
      ensures received == accepted == old(accepted) && c == [] && backlog == [] && !open
    {
      got := [];
      while true
        invariant Valid(true) && disposed && accepted == old(accepted)
        invariant got + Waiting(Now()) == old(Waiting(Now()))
        decreases |c| + |backlog|
      {
        ghost var before := Waiting(Now());
        var more, t := Receive(true);
        if !more {
          break;
        }
        LoadOk(Now());
        assert before == t + Waiting(Now());
        Assoc(got, t, Waiting(Now()));
        got := got + t;
        var _ := LoadNext();
      }
    }
  }

  lemma Assoc<T>(a: seq<T>, b: seq<T>, c: seq<T>)
    ensures (a + b) + c == a + (b + c)
  {
  }
}
