/**
 Stream ids: a 64-bit counter that wraps around, from which 31-bit ids are taken, and the search for
 an id that is not in use.
 */
module StreamIDs {
  import opened Bytes

  const MASK_MODULUS := 0x8000_0000    // v & 0x7FFFFFFF is v modulo this
  const HALF_SEED := 0x4000_0000
  const WRAP := 0x1_0000_0000_0000_0000
  const HALF_WRAP := 0x8000_0000_0000_0000

  datatype Side = Client | Server

  /** The value before masking: 1, 3, 5, ... for a client and 2, 4, 6, ... for a server, modulo 2^64. */
  function Value(side: Side, seed: uint64): uint64 {
    match side
    case Client => (2 * ((seed - 1) % WRAP) + 1) % WRAP
    case Server => 2 * seed % WRAP
  }

  function Id(side: Side, seed: uint64): uint32 {
    Value(side, seed) % MASK_MODULUS
  }

  function FirstLap(seed: uint64): bool {
    seed <= HALF_SEED
  }

  /** A key that the peer cannot have chosen. */
  predicate OwnParity(side: Side, id: int) {
    0 <= id < MASK_MODULUS && id % 2 == if side.Client? then 1 else 0
  }

  /** The residue of the seed modulo 2^30 decides the id. */
  function Residue(side: Side, seed: int): nat {
    (if side.Client? then seed - 1 else seed) % HALF_SEED
  }

  lemma IdOfResidue(side: Side, seed: uint64)
    ensures Id(side, seed) == 2 * Residue(side, seed) + if side.Client? then 1 else 0
    ensures OwnParity(side, Id(side, seed))
  {
    var u := if side.Client? then (seed - 1) % WRAP else seed;
    var q := u / HALF_SEED;
    assert u == q * HALF_SEED + u % HALF_SEED;
    assert 2 * u == q * MASK_MODULUS + 2 * (u % HALF_SEED);
    WrapResidue(if side.Client? then seed - 1 else seed);
    DoubleWrap(u, if side.Client? then 1 else 0);
  }

  lemma WrapResidue(n: int)
    ensures n % WRAP % HALF_SEED == n % HALF_SEED
  {
    var q := n / WRAP;
    assert n == q * WRAP + n % WRAP;
    assert WRAP == HALF_SEED * 0x4_0000_0000;
    assert n % WRAP == n - HALF_SEED * (0x4_0000_0000 * q);
  }

  lemma DoubleWrap(u: int, b: int)
    requires 0 <= u < WRAP && 0 <= b <= 1
    ensures (2 * u + b) % WRAP % MASK_MODULUS == 2 * (u % HALF_SEED) + b
  {
  }

  /** Ids repeat exactly every 2^30 seeds, also across the wrap of the counter. */
  lemma SameIdExactly(side: Side, cur: uint64, d: nat, e: nat)
    ensures Id(side, SeedAt(cur, d)) == Id(side, SeedAt(cur, e)) <==> (d - e) % HALF_SEED == 0
  {
    IdOfResidue(side, SeedAt(cur, d));
    IdOfResidue(side, SeedAt(cur, e));
    ResidueAt(side, cur, d);
    ResidueAt(side, cur, e);
    var c := if side.Client? then cur - 1 else cur;
    DifferenceMod(c + d, c + e);
  }

  lemma ResidueAt(side: Side, cur: uint64, d: nat)
    ensures Residue(side, SeedAt(cur, d)) == ((if side.Client? then cur - 1 else cur) + d) % HALF_SEED
  {
    var n := cur + d;
    var q := n / WRAP;
    assert n == q * WRAP + n % WRAP;
    var c := if side.Client? then 1 else 0;
    assert n % WRAP - c == (n - c) - HALF_SEED * (0x4_0000_0000 * q);
    ShiftMod(n - c, 0x4_0000_0000 * q);
  }

  lemma ShiftMod(n: int, k: int)
    ensures (n - HALF_SEED * k) % HALF_SEED == n % HALF_SEED
  {
  }

  lemma DifferenceMod(a: int, b: int)
    ensures a % HALF_SEED == b % HALF_SEED <==> (a - b) % HALF_SEED == 0
  {
  }

  /** The seed after d increments of the counter. */
  function SeedAt(cur: uint64, d: nat): uint64 {
    (cur + d) % WRAP
  }

  /** Next passes over a seed whose value is zero: for the server, every multiple of 2^63. */
  predicate Skipped(side: Side, seed: uint64) {
    Value(side, seed) == 0
  }

  lemma SkippedExactly(side: Side, seed: uint64)
    ensures Skipped(side, seed) <==> side.Server? && seed % HALF_WRAP == 0
  {
  }

  /** The server's generator yields stream id 0 at every multiple of 2^30; the client's never does. */
  lemma ZeroIdExactly(side: Side, seed: uint64)
    ensures Id(side, seed) == 0 <==> side.Server? && seed % HALF_SEED == 0
  {
    IdOfResidue(side, seed);
  }

  // The search for a free id

  /** The live keys with this side's parity. */
  function Own(side: Side, live: set<uint32>): set<uint32> {
    set id | id in live && OwnParity(side, id)
  }

  /** A seed that nextStreamID goes on from: skipped, or checked and found in use. */
  predicate PassedOver(side: Side, live: set<uint32>, seed: uint64) {
    Skipped(side, seed) || (!FirstLap(seed) && Id(side, seed) in live)
  }

  ghost predicate AllPassedOver(side: Side, cur: uint64, live: set<uint32>, k: nat) {
    forall e :: 1 <= e <= k ==> PassedOver(side, live, SeedAt(cur, e))
  }

  /** The ids tried at the first k seeds. */
  function Tried(side: Side, cur: uint64, k: nat): set<uint32> {
    if k == 0 then {}
    else if Skipped(side, SeedAt(cur, k)) then Tried(side, cur, k - 1)
    else Tried(side, cur, k - 1) + {Id(side, SeedAt(cur, k))}
  }

  function Skips(side: Side, cur: uint64, k: nat): nat {
    if k == 0 then 0 else Skips(side, cur, k - 1) + if Skipped(side, SeedAt(cur, k)) then 1 else 0
  }

  lemma {:induction false} TriedNotSkipped(side: Side, cur: uint64, k: nat, id: uint32)
    requires id in Tried(side, cur, k)
    ensures exists d :: 1 <= d <= k && Id(side, SeedAt(cur, d)) == id && !Skipped(side, SeedAt(cur, d))
    decreases k
  {
    if Skipped(side, SeedAt(cur, k)) || id in Tried(side, cur, k - 1) {
      TriedNotSkipped(side, cur, k - 1, id);
    } else {
      assert Id(side, SeedAt(cur, k)) == id;
    }
  }

  lemma {:induction false} TriedSize(side: Side, cur: uint64, k: nat)
    requires k <= HALF_SEED
    ensures |Tried(side, cur, k)| == k - Skips(side, cur, k)
    decreases k
  {
    if k > 0 {
      TriedSize(side, cur, k - 1);
      NewIdEachTime(side, cur, k);
    }
  }

  lemma {:induction false} NewIdEachTime(side: Side, cur: uint64, k: nat)
    requires 1 <= k <= HALF_SEED
    ensures Id(side, SeedAt(cur, k)) !in Tried(side, cur, k - 1)
  {
    var id := Id(side, SeedAt(cur, k));
    if id in Tried(side, cur, k - 1) {
      TriedNotSkipped(side, cur, k - 1, id);
      var e :| 1 <= e <= k - 1 && Id(side, SeedAt(cur, e)) == id && !Skipped(side, SeedAt(cur, e));
      DrawsDiffer(side, cur, k, e);
    }
  }

  /** Fewer than 2^30 draws apart, ids differ: also those of callers that draw at the same time. */
  lemma DrawsDiffer(side: Side, cur: uint64, d: nat, e: nat)
    requires e < d < e + HALF_SEED
    ensures Id(side, SeedAt(cur, d)) != Id(side, SeedAt(cur, e))
  {
    SameIdExactly(side, cur, d, e);
    SmallMod(d - e);
  }

  lemma SmallMod(d: int)
    requires 0 < d < HALF_SEED
    ensures d % HALF_SEED != 0
  {
  }

  /** Within 2^63 seeds at most one is skipped, and none on the client. */
  lemma {:induction false} FewSkips(side: Side, cur: uint64, k: nat)
    requires k <= HALF_WRAP
    ensures Skips(side, cur, k) <= if side.Client? then 0 else 1
    ensures Skips(side, cur, k) > 0 ==> exists e :: 1 <= e <= k && Skipped(side, SeedAt(cur, e))
    decreases k
  {
    if k > 0 {
      FewSkips(side, cur, k - 1);
      SkippedExactly(side, SeedAt(cur, k));
      if Skips(side, cur, k - 1) > 0 && Skipped(side, SeedAt(cur, k)) {
        var e :| 1 <= e <= k - 1 && Skipped(side, SeedAt(cur, e));
        SkippedExactly(side, SeedAt(cur, e));
        FarApart(cur + e, k - e);
      }
    }
  }

  lemma FarApart(n: nat, d: nat)
    requires 0 < d < HALF_WRAP && n % WRAP % HALF_WRAP == 0
    ensures (n + d) % WRAP % HALF_WRAP != 0
  {
  }

  lemma {:induction false} TriedAreLive(side: Side, cur: uint64, live: set<uint32>, k: nat)
    requires AllPassedOver(side, cur, live, k)
    ensures Tried(side, cur, k) <= Own(side, live)
    decreases k
  {
    if k > 0 {
      TriedAreLive(side, cur, live, k - 1);
      assert PassedOver(side, live, SeedAt(cur, k));
      IdOfResidue(side, SeedAt(cur, k));
    }
  }

  lemma SubsetSize(a: set<uint32>, b: set<uint32>)
    requires a <= b
    ensures |a| <= |b|
  {
    assert b == a + (b - a);
  }

  /** Within one lap no more ids are found in use than are in use: each try is a different one. */
  lemma {:induction false} TriesWithinLap(side: Side, cur: uint64, live: set<uint32>, k: nat)
    requires AllPassedOver(side, cur, live, k)
    requires k <= HALF_SEED
    ensures k - Skips(side, cur, k) <= |Own(side, live)|
  {
    TriedAreLive(side, cur, live, k);
    TriedSize(side, cur, k);
    SubsetSize(Tried(side, cur, k), Own(side, live));
  }

  // A free id is always reached

  /** The first n ids of this side, in the order of their residues. */
  function FirstIds(side: Side, n: nat): set<uint32>
    requires n <= HALF_SEED
  {
    if n == 0 then {} else FirstIds(side, n - 1) + {2 * (n - 1) + if side.Client? then 1 else 0}
  }

  lemma {:induction false} FirstIdsSize(side: Side, n: nat)
    requires n <= HALF_SEED
    ensures |FirstIds(side, n)| == n
    decreases n
  {
    if n > 0 {
      FirstIdsSize(side, n - 1);
      FirstIdsBelow(side, n - 1);
    }
  }

  lemma {:induction false} FirstIdsBelow(side: Side, n: nat)
    requires n <= HALF_SEED
    ensures forall id :: id in FirstIds(side, n) ==> id < 2 * n && OwnParity(side, id)
    decreases n
  {
    if n > 0 {
      FirstIdsBelow(side, n - 1);
      assert OwnParity(side, 2 * (n - 1) + if side.Client? then 1 else 0);
    }
  }

  lemma FreeIdExists(side: Side, live: set<uint32>) returns (free: uint32)
    requires |Own(side, live)| < HALF_SEED
    ensures OwnParity(side, free) && free !in live
  {
    free := FreeBelow(side, live, HALF_SEED);
  }

  lemma FreeBelow(side: Side, live: set<uint32>, n: nat) returns (free: uint32)
    requires |Own(side, live)| < n <= HALF_SEED
    ensures OwnParity(side, free) && free !in live
  {
    var all := FirstIds(side, n);
    FirstIdsSize(side, n);
    FirstIdsBelow(side, n);
    if all <= live {
      assert all <= Own(side, live);
      SubsetSize(all, Own(side, live));
    }
    free :| free in all && free !in live;
  }

  /** Some seed ahead yields the id and is not skipped. */
  lemma Reached(side: Side, cur: uint64, id: uint32) returns (d: nat)
    requires OwnParity(side, id)
    ensures d >= 1 && Id(side, SeedAt(cur, d)) == id && !Skipped(side, SeedAt(cur, d))
  {
    var c := if side.Client? then cur - 1 else cur;
    d := 1 + (id / 2 - (c + 1)) % HALF_SEED;
    HitsResidue(c + 1, id / 2);
    ResidueAt(side, cur, d);
    IdOfResidue(side, SeedAt(cur, d));
    SkippedExactly(side, SeedAt(cur, d));
    if Skipped(side, SeedAt(cur, d)) {
      FarApart(cur + d, HALF_SEED);
      d := d + HALF_SEED;
      SkippedExactly(side, SeedAt(cur, d));
      SameIdExactly(side, cur, d, d - HALF_SEED);
    }
  }

  lemma HitsResidue(n: int, r: int)
    requires 0 <= r < HALF_SEED
    ensures (n + (r - n) % HALF_SEED) % HALF_SEED == r
  {
  }

  // How many calls of Next one search takes

  /** The search ends with the seed after the first k. */
  ghost predicate EndsAfter(side: Side, cur: uint64, live: set<uint32>, k: nat) {
    AllPassedOver(side, cur, live, k) && !PassedOver(side, live, SeedAt(cur, k + 1))
  }

  /** Next draws a skipped seed together with the one after it. */
  function Calls(side: Side, cur: uint64, k: nat): int {
    k + 1 - Skips(side, cur, k)
  }

  /** A server with every id but 0 in use, that meets the skipped seed 2^63 after one try at least. */
  predicate Crowded(side: Side, cur: uint64, live: set<uint32>) {
    side.Server? && 0 !in live && |Own(side, live)| == HALF_SEED - 1
    && HALF_WRAP - HALF_SEED <= cur <= HALF_WRAP - 2
  }

  /** One call more than the ids in use is enough, except on a crowded server. */
  lemma CallsBoundedExactly(side: Side, cur: uint64, live: set<uint32>, k: nat)
    requires EndsAfter(side, cur, live, k) && |Own(side, live)| < HALF_SEED
    ensures Calls(side, cur, k) <= |Own(side, live)| + 1 <==> !Crowded(side, cur, live)
  {
    if Crowded(side, cur, live) {
      CrowdedSearch(side, cur, live, k);
    } else {
      SearchWithinLap(side, cur, live, k);
      TriesWithinLap(side, cur, live, k);
    }
  }

  lemma SearchWithinLap(side: Side, cur: uint64, live: set<uint32>, k: nat)
    requires EndsAfter(side, cur, live, k) && |Own(side, live)| < HALF_SEED
    requires !Crowded(side, cur, live)
    ensures k <= HALF_SEED
  {
    if k > HALF_SEED {
      var e := WholeLapPassedOver(side, cur, live);
      SkippedExactly(side, SeedAt(cur, e));
      AfterSkip(cur, e);
      var d := if cur + e == WRAP then e + 1 else HALF_SEED + 1;
      NotAllPassedOver(side, cur, live, e, d, k);
    }
  }

  /** Right behind the skipped seed 0 the first lap begins, and one lap behind 2^63 comes id 0. */
  lemma NotAllPassedOver(side: Side, cur: uint64, live: set<uint32>, e: nat, d: nat, k: nat)
    requires side.Server? && 0 !in live && 1 <= d <= k
    requires (cur + e == WRAP && d == e + 1) || (cur + e == HALF_WRAP && e == 1 && d == HALF_SEED + 1)
    ensures !AllPassedOver(side, cur, live, k)
  {
    SkippedExactly(side, SeedAt(cur, d));
    ZeroIdExactly(side, SeedAt(cur, d));
  }

  lemma AfterSkip(cur: uint64, e: nat)
    requires 1 <= e <= HALF_SEED && SeedAt(cur, e) % HALF_WRAP == 0
    ensures cur + e == HALF_WRAP || (cur + e == WRAP && SeedAt(cur, e + 1) == 1)
  {
  }

  /** Only a skipped seed lets 2^30 seeds in a row fail, and then only id 0 is free. */
  lemma WholeLapPassedOver(side: Side, cur: uint64, live: set<uint32>) returns (e: nat)
    requires AllPassedOver(side, cur, live, HALF_SEED)
    requires |Own(side, live)| < HALF_SEED
    ensures side.Server? && 0 !in live && |Own(side, live)| == HALF_SEED - 1
    ensures 1 <= e <= HALF_SEED && Skipped(side, SeedAt(cur, e))
  {
    TriesWithinLap(side, cur, live, HALF_SEED);
    FewSkips(side, cur, HALF_SEED);
    e :| 1 <= e <= HALF_SEED && Skipped(side, SeedAt(cur, e));
    if 0 in live {
      TriedAreLive(side, cur, live, HALF_SEED);
      TriedSize(side, cur, HALF_SEED);
      ZeroNotTried(side, cur, e);
      var tried := Tried(side, cur, HALF_SEED);
      SubsetSize(tried + {0}, Own(side, live));
    }
  }

  lemma {:induction false} ZeroNotTried(side: Side, cur: uint64, e: nat)
    requires 1 <= e <= HALF_SEED && Skipped(side, SeedAt(cur, e))
    ensures 0 !in Tried(side, cur, HALF_SEED)
  {
    if 0 in Tried(side, cur, HALF_SEED) {
      TriedNotSkipped(side, cur, HALF_SEED, 0);
      var d :| 1 <= d <= HALF_SEED && Id(side, SeedAt(cur, d)) == 0 && !Skipped(side, SeedAt(cur, d));
      SameIdExactly(side, cur, d, e);
      SameWithinLap(d - e);
    }
  }

  lemma SameWithinLap(d: int)
    requires -HALF_SEED < d < HALF_SEED && d % HALF_SEED == 0
    ensures d == 0
  {
  }

  lemma {:induction false} CrowdedSearch(side: Side, cur: uint64, live: set<uint32>, k: nat)
    requires EndsAfter(side, cur, live, k) && Crowded(side, cur, live)
    ensures k - Skips(side, cur, k) > |Own(side, live)|
  {
    var d := HALF_WRAP + HALF_SEED - 1 - cur;
    forall e | 1 <= e <= d
      ensures PassedOver(side, live, SeedAt(cur, e))
    {
      CrowdedPassesOver(side, cur, live, e);
    }
    assert k >= d;
    TriesGrow(side, cur, d, k);
    FewSkips(side, cur, d);
  }

  lemma CrowdedPassesOver(side: Side, cur: uint64, live: set<uint32>, e: nat)
    requires Crowded(side, cur, live) && 1 <= e && cur + e < HALF_WRAP + HALF_SEED
    ensures PassedOver(side, live, SeedAt(cur, e))
  {
    SkippedExactly(side, cur + e);
    if cur + e != HALF_WRAP {
      ZeroIdExactly(side, cur + e);
      NoLapEnd(cur + e);
      IdOfResidue(side, cur + e);
      AllButZeroLive(side, live, Id(side, cur + e));
    }
  }

  lemma NoLapEnd(n: nat)
    requires HALF_WRAP - HALF_SEED < n < HALF_WRAP + HALF_SEED && n != HALF_WRAP
    ensures n % HALF_SEED != 0
  {
  }

  lemma {:induction false} TriesGrow(side: Side, cur: uint64, d: nat, k: nat)
    requires d <= k
    ensures d - Skips(side, cur, d) <= k - Skips(side, cur, k)
    decreases k
  {
    if d < k {
      TriesGrow(side, cur, d, k - 1);
    }
  }

  lemma AllButZeroLive(side: Side, live: set<uint32>, id: uint32)
    requires side.Server? && 0 !in live && |Own(side, live)| == HALF_SEED - 1
    requires OwnParity(side, id) && id != 0
    ensures id in live
  {
    if id !in live {
      TwoMore(Own(side, live), 0, id);
      OwnBounded(side, HALF_SEED, Own(side, live) + {0, id});
    }
  }

  /** There are no more than n ids below 2 * n. */
  lemma OwnBounded(side: Side, n: nat, ids: set<uint32>)
    requires n <= HALF_SEED && forall x :: x in ids ==> OwnParity(side, x) && x < 2 * n
    ensures |ids| <= n
  {
    FirstIdsSize(side, n);
    forall x | x in ids
      ensures x in FirstIds(side, n)
    {
      AmongFirstIds(side, n, x);
    }
    SubsetSize(ids, FirstIds(side, n));
  }

  lemma TwoMore(s: set<uint32>, x: uint32, y: uint32)
    requires x !in s && y !in s && x != y
    ensures |s + {x, y}| == |s| + 2
  {
    assert s + {x, y} == (s + {x}) + {y};
  }

  lemma {:induction false} AmongFirstIds(side: Side, n: nat, id: uint32)
    requires OwnParity(side, id) && id < 2 * n && n <= HALF_SEED
    ensures id in FirstIds(side, n)
  {
    FirstIdsHas(side, n, id / 2);
  }

  lemma {:induction false} FirstIdsHas(side: Side, n: nat, r: nat)
    requires r < n <= HALF_SEED
    ensures 2 * r + (if side.Client? then 1 else 0) in FirstIds(side, n)
    decreases n
  {
    if r < n - 1 {
      FirstIdsHas(side, n - 1, r);
    }
  }

  /** The id was taken from one of the first n seeds of a connection. */
  ghost predicate Issued(side: Side, n: nat, id: uint32) {
    exists e: nat :: 1 <= e <= n && Yields(side, e, id)
  }

  ghost predicate Yields(side: Side, e: nat, id: uint32) {
    !Skipped(side, SeedAt(0, e)) && Id(side, SeedAt(0, e)) == id
  }

  /** On the first lap of the counter every id is new. */
  lemma FirstLapIsNew(side: Side, n: nat)
    requires 1 <= n <= HALF_SEED
    ensures !Issued(side, n - 1, Id(side, SeedAt(0, n)))
  {
    var id := Id(side, SeedAt(0, n));
    if Issued(side, n - 1, id) {
      var e: nat :| 1 <= e <= n - 1 && Yields(side, e, id);
      DrawsDiffer(side, 0, n, e);
    }
  }

  /** The same id comes from the seed one lap before, or from the one before that if it is skipped. */
  lemma IssuedALapAgo(side: Side, n: nat)
    requires n > 2 * HALF_SEED
    ensures Issued(side, n - 1, Id(side, SeedAt(0, n)))
  {
    var e := LapAgo(side, n);
    SameIdExactly(side, 0, n, e);
    assert Yields(side, e, Id(side, SeedAt(0, n)));
  }

  lemma LapAgo(side: Side, n: nat) returns (e: nat)
    requires n > 2 * HALF_SEED
    ensures 1 <= e < n && (n - e) % HALF_SEED == 0 && !Skipped(side, SeedAt(0, e))
  {
    e := n - HALF_SEED;
    SkippedExactly(side, SeedAt(0, e));
    SkippedExactly(side, SeedAt(0, e - HALF_SEED));
    if Skipped(side, SeedAt(0, e)) {
      if Skipped(side, SeedAt(0, e - HALF_SEED)) {
        FarApart(e - HALF_SEED, HALF_SEED);
      }
      e := e - HALF_SEED;
    }
  }

  /** An id that is handed out unchecked is new exactly until the counter has wrapped around. */
  lemma UncheckedIsNewExactly(side: Side, n: nat)
    requires n >= 1 && FirstLap(SeedAt(0, n)) && !Skipped(side, SeedAt(0, n))
    ensures !Issued(side, n - 1, Id(side, SeedAt(0, n))) <==> n < WRAP
  {
    if n < WRAP {
      FirstLapIsNew(side, n);
    } else {
      IssuedALapAgo(side, n);
    }
  }

  /**
   Among all seeds that are not skipped, those of the first lap are exactly the ones whose id is new, so
   nextStreamID leaves out its check exactly where it is not needed, until the counter has wrapped.
   */
  lemma FirstLapExactly(side: Side, n: nat)
    requires 1 <= n < WRAP && !Skipped(side, SeedAt(0, n))
    ensures FirstLap(SeedAt(0, n)) <==> !Issued(side, n - 1, Id(side, SeedAt(0, n)))
  {
    BeforeTheWrap(n);
    if n <= HALF_SEED {
      FirstLapIsNew(side, n);
    } else if n <= 2 * HALF_SEED {
      SecondLap(side, n);
    } else {
      IssuedALapAgo(side, n);
    }
  }

  lemma BeforeTheWrap(n: nat)
    requires n < WRAP
    ensures SeedAt(0, n) == n
  {
  }

  lemma SecondLap(side: Side, n: nat)
    requires HALF_SEED < n <= 2 * HALF_SEED
    ensures Issued(side, n - 1, Id(side, SeedAt(0, n)))
  {
    var e := n - HALF_SEED;
    SameIdExactly(side, 0, n, e);
    BeforeTheWrap(e);
    SkippedExactly(side, e);
    NotHalfWay(e);
    assert Yields(side, e, Id(side, SeedAt(0, n)));
  }

  lemma NotHalfWay(e: nat)
    requires 1 <= e <= HALF_SEED
    ensures e % HALF_WRAP != 0
  {
  }

  /** On the first lap a client yields 1, 3, 5, ..., and a server 2, 4, 6, ... and at last 0. */
  lemma FirstLapIds(n: nat)
    requires 1 <= n <= 0x4000_0000
    ensures Id(Client, SeedAt(0, n)) == 2 * n - 1
    ensures Id(Server, SeedAt(0, n)) == if n < 0x4000_0000 then 2 * n else 0
  {
    BeforeTheWrap(n);
    IdOfResidue(Client, n);
    IdOfResidue(Server, n);
    FirstResidues(n);
  }

  lemma FirstResidues(n: nat)
    requires 1 <= n <= HALF_SEED
    ensures (n - 1) % HALF_SEED == n - 1 && n % HALF_SEED == if n < HALF_SEED then n else 0
  {
  }

  lemma SeedAtSum(cur: nat, k: nat, j: nat)
    ensures SeedAt((cur + k) % WRAP, j) == (cur + k + j) % WRAP
  {
    var n := cur + k;
    assert n == n / WRAP * WRAP + n % WRAP;
    ShiftWrap(n + j, n / WRAP);
  }

  lemma ShiftWrap(n: int, k: int)
    ensures (n - WRAP * k) % WRAP == n % WRAP
  {
  }

  /** One call of Next, at the k-th seed of a search, ends at the last seed it draws. */
  lemma CallDone(side: Side, cur: uint64, live: set<uint32>, k: nat, last: nat)
    requires AllPassedOver(side, cur, live, k)
    requires last == k + if Skipped(side, SeedAt(cur, k + 1)) then 2 else 1
    requires !Skipped(side, SeedAt(cur, last))
    ensures AllPassedOver(side, cur, live, last - 1)
    ensures last - Skips(side, cur, last) == k - Skips(side, cur, k) + 1
    ensures Skips(side, cur, last) == Skips(side, cur, last - 1)
  {
  }

  /** Until the counter has wrapped, a first-lap id differs from all the ids issued before. */
  lemma Fresh(side: Side, before: nat, n: nat)
    requires before < n && !Skipped(side, SeedAt(0, n))
    ensures OwnParity(side, Id(side, SeedAt(0, n))) && Issued(side, n, Id(side, SeedAt(0, n)))
    ensures FirstLap(SeedAt(0, n)) && n < WRAP ==> !Issued(side, before, Id(side, SeedAt(0, n)))
  {
    IdOfResidue(side, SeedAt(0, n));
    assert Yields(side, n, Id(side, SeedAt(0, n)));
    if FirstLap(SeedAt(0, n)) && n < WRAP {
      UncheckedIsNewExactly(side, n);
    }
  }

  lemma StillIssued(side: Side, before: nat, n: nat, ids: set<uint32>)
    requires before <= n
    ensures forall id :: id in ids && Issued(side, before, id) ==> Issued(side, n, id)
  {
  }

  class DuplexConnection {
    const side: Side
    var cur: uint64               // of the id generator
    var messages: set<uint32>     // the ids with a registered stream
    ghost var drawn: nat          // how often the counter was advanced

    ghost predicate Valid()
      reads this
    {
      cur == SeedAt(0, drawn)
    }

    /** The peer has not used an id of this side's parity. */
    ghost predicate OwnIssued()
      reads this
    {
      forall id :: id in messages && OwnParity(side, id) ==> Issued(side, drawn, id)
    }

    constructor (side: Side)
      ensures Valid() && OwnIssued() && this.side == side && cur == 0 && messages == {} && drawn == 0
    {
      this.side := side;
      cur, messages, drawn := 0, {}, 0;
    }

    method Next() returns (id: uint32, firstLoop: bool)
      requires Valid()
      modifies this`cur, this`drawn
      ensures Valid() && !Skipped(side, cur)
      ensures drawn == old(drawn) + if Skipped(side, SeedAt(old(cur), 1)) then 2 else 1
      ensures id == Id(side, cur) && firstLoop == FirstLap(cur)
      decreases Skipped(side, SeedAt(cur, 1))
    {
      SkippedExactly(side, SeedAt(cur, 1));
      SeedAtSum(0, drawn, 1);
      cur, drawn := SeedAt(cur, 1), drawn + 1;
      var v := Value(side, cur);
      if v != 0 {
        return v % MASK_MODULUS, FirstLap(cur);
      }
      SkippedExactly(side, SeedAt(cur, 1));
      FarApart(cur, 1);
      id, firstLoop := this.Next();
    }

    /**
     The search ends while fewer than 2^30 ids are in use, after one call of Next more than that at
     most unless the server is crowded. Until the counter wraps around the id is free, whatever else is
     registered or not, if the peer keeps to its own parity.
     */
    method NextStreamID() returns (sid: uint32, ghost calls: nat)
      requires Valid() && |Own(side, messages)| < HALF_SEED
      modifies this`cur, this`drawn
      ensures Valid() && drawn > old(drawn)
      ensures OwnParity(side, sid) && Issued(side, drawn, sid)
      ensures sid in messages ==> FirstLap(cur) && (drawn >= WRAP || !Issued(side, old(drawn), sid))
      ensures old(OwnIssued()) ==> OwnIssued() && (drawn < WRAP ==> sid !in messages)
      ensures calls <= |Own(side, messages)| + 1 <==> !Crowded(side, old(cur), messages)
    {
      ghost var c0, d0, k := cur, drawn, 0;
      ghost var free := FreeIdExists(side, messages);
      ghost var goal := Reached(side, c0, free);
      calls := 0;
      while true
        invariant Valid() && drawn == d0 + k && cur == SeedAt(c0, k)
        invariant AllPassedOver(side, c0, messages, k) && k < goal
        invariant calls == k - Skips(side, c0, k)
        decreases goal - k
      {
        ghost var last := k + if Skipped(side, SeedAt(cur, 1)) then 2 else 1;
        SeedAtSum(c0, k, 1);
        SeedAtSum(c0, k, last - k);
        SeedAtSum(0, d0 + k, last - k);
        var firstLap;
        sid, firstLap := Next();
        calls := calls + 1;
        CallDone(side, c0, messages, k, last);
        if firstLap || sid !in messages {
          CallsBoundedExactly(side, c0, messages, last - 1);
          Fresh(side, d0, drawn);
          StillIssued(side, d0, drawn, messages);
          return;
        }
        k := last;
      }
    }

    /** register. */
    method Register(sid: uint32)
      modifies this`messages
      ensures messages == old(messages) + {sid}
      ensures old(OwnIssued()) && (OwnParity(side, sid) ==> Issued(side, drawn, sid)) ==> OwnIssued()
    {
      messages := messages + {sid};
    }

    /** unregister. */
    method Unregister(sid: uint32)
      modifies this`messages
      ensures messages == old(messages) - {sid}
      ensures old(OwnIssued()) ==> OwnIssued()
    {
      messages := messages - {sid};
    }
  }
}
