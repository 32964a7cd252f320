/** The sieve around the threaded sweep: thread scramble, the three sweeps, the outer loop. */
module Sieve {
  import opened Bitmap
  import opened Nonlinear
  import opened Primes
  import opened SieveWorkers

  // ----- the thread-number scramble ------------------------------------------------------------

  function Scrambled(n: nat, t: nat): nat
    requires t < n
  {
    if t % 2 == 0 then n - 1 - t else t - 1
  }

  method ScrambleThreadIds(n: nat) returns (threadID: array<nat>)
    requires n % 2 == 0
    ensures fresh(threadID) && IsPermutation(threadID[..], n)
    ensures forall t :: 0 <= t < n ==> threadID[t] == Scrambled(n, t)
  {
    threadID := new nat[n];
    var idx, ridx := 0, n - 1;
    while idx < n
      invariant 0 <= idx <= n && idx % 2 == 0 && ridx == n - 1 - idx
      invariant forall t :: 0 <= t < idx ==> threadID[t] == Scrambled(n, t)
    {
      threadID[idx] := ridx;
      threadID[idx + 1] := idx;
      idx, ridx := idx + 2, ridx - 2;
    }
    ScrambleIsPermutation(threadID[..], n);
  }

  /** The position that holds thread number v. */
  function Unscrambled(n: nat, v: nat): nat
    requires v < n
  {
    if v % 2 == 0 then v + 1 else n - 1 - v
  }

  lemma ScrambleInverts(n: nat, t: nat)
    requires n % 2 == 0 && t < n
    ensures Scrambled(n, t) < n && Unscrambled(n, Scrambled(n, t)) == t
    ensures Unscrambled(n, t) < n && Scrambled(n, Unscrambled(n, t)) == t
  {
  }

  lemma ScrambleIsPermutation(ids: seq<nat>, n: nat)
    requires n % 2 == 0 && |ids| == n
    requires forall t :: 0 <= t < n ==> ids[t] == Scrambled(n, t)
    ensures IsPermutation(ids, n)
  {
    hide Scrambled, Unscrambled;
    forall t | 0 <= t < n ensures ids[t] < n && Unscrambled(n, ids[t]) == t && t in ids {
      ScrambleInverts(n, t);
      assert ids[Unscrambled(n, t)] == t;
    }
  }

  // ----- three ways to sweep one prime -----------------------------------------------------------

  /** Bits 0..max lose the multiples of p from 2p on; nothing is said beyond max. */
  ghost predicate CrossedOut(p: nat, max: nat, before: seq<bv8>, after: seq<bv8>)
    requires p >= 1
  {
    && |after| == |before|
    && forall i :: 0 <= i <= max && i < 8 * |before| ==>
         (Bit(after, i) <==> Bit(before, i) && !(i % p == 0 && i >= 2 * p))
  }

  /** Worker t runs up to its next interaction with shared memory. */
  method RunWorker(isprime: array<bv8>, c: Config, locks: seq<nat>, ws: seq<Worker>, t: nat)
    returns (locks': seq<nat>, ws': seq<Worker>)
    requires Shaped(c, State(isprime[..], locks, ws)) && t < c.n
    requires Bounded(c, State(isprime[..], locks, ws), t) && Enabled(c, State(isprime[..], locks, ws), t)
    modifies isprime
    ensures State(isprime[..], locks', ws') == Step(c, State(old(isprime[..]), locks, ws), t)
  {
    locks', ws' := locks, ws;
    var w, x := ws[t], U64(ws[t].j + c.ids[t] * c.p);
    var idx, l := x / CODE_LENGTH, LockOf(c, x);
    if w.pc.Head? {
      ws' := ws[t := w.(pc := if w.j < U64(c.max + 1) && x <= U64(c.max + 1) then Wait else Done)];
    } else if w.pc.Wait? {
      locks' := locks[l := locks[l] - 1];
      ws' := ws[t := w.(pc := Read)];
    } else if w.pc.Read? {
      ws' := ws[t := w.(pc := Write, tmp := isprime[idx])];
    } else if w.pc.Write? {
      isprime[idx] := w.tmp & !Mask(x % CODE_LENGTH);
      ws' := ws[t := w.(pc := Post)];
    } else {
      locks' := locks[l := locks[l] + 1];
      ws' := ws[t := w.(pc := Head, j := U64(w.j + U64(c.n * c.p)))];
    }
  }

  /** THREAD_GRID_INVALIDATE: any scheduling of the workers, run to the join,
      which leaves the semaphores as they were. */
  method InvalidateThreads(isprime: array<bv8>, c: Config, updateIsPrime: seq<nat>) returns (locks: seq<nat>)
    requires c.Valid() && c.RoomIn(isprime.Length) && updateIsPrime == FreeLocks(c.locks)
    modifies isprime
    ensures SweptMemory(c, old(isprime[..]), isprime[..]) && locks == updateIsPrime
  {
    ghost var mem0 := isprime[..];
    ghost var rounds := seq(c.n, _ => 0);
    locks := updateIsPrime;
    var ws := seq(c.n, _ => Worker(Head, U64(2 * c.p), 0));
    InitInv(c, mem0);
    while !Joined(State(isprime[..], locks, ws))
      invariant Inv(c, mem0, State(isprime[..], locks, ws), rounds)
      decreases TotalLeft(c, ws)
    {
      ghost var s := State(isprime[..], locks, ws);
      ghost var ready := NoDeadlock(c, mem0, s, rounds);
      var t: nat :| t < c.n && Enabled(c, State(isprime[..], locks, ws), t);
      rounds := SafeStep(c, mem0, s, rounds, t);
      locks, ws := RunWorker(isprime, c, locks, ws, t);
    }
    JoinedIsSwept(c, mem0, State(isprime[..], locks, ws), rounds);
  }

  /** Of bits 0..max the multiples of p from 2p to below j are gone, and nothing else. */
  ghost predicate CrossedTo(p: nat, max: nat, j: nat, before: seq<bv8>, after: seq<bv8>)
    requires p >= 1
  {
    && |after| == |before|
    && forall i :: 0 <= i < 8 * |before| ==>
         (Bit(after, i) <==> Bit(before, i) && !(i <= max && i % p == 0 && 2 * p <= i < j))
  }

  lemma CrossNext(p: nat, max: nat, k: nat, mem0: seq<bv8>, mem: seq<bv8>)
    requires p >= 1 && 2 <= k && p * k <= max && p * k < 8 * |mem|
    requires CrossedTo(p, max, p * k, mem0, mem)
    ensures CrossedTo(p, max, p * k + p, mem0, StoreBit(mem, p * k, false))
  {
    var j := p * k;
    StoreBitBits(mem, j, false);
    MultipleMod(p, k);
    MulLe(p, 2, k);
    forall i | 0 <= i < 8 * |mem0| && i % p == 0 && j <= i < j + p ensures i == j {
      NextMultiple(p, k, i);
    }
  }

  lemma CrossedAll(p: nat, max: nat, j: nat, before: seq<bv8>, after: seq<bv8>)
    requires p >= 1 && max < j && max < 8 * |before| && CrossedTo(p, max, j, before, after)
    ensures CrossedOut(p, max, before, after)
    ensures forall i :: max < i < 8 * |before| ==> Bit(after, i) == Bit(before, i)
  {
  }

  lemma CrossStart(p: nat, max: nat, mem: seq<bv8>)
    requires p >= 1
    ensures CrossedTo(p, max, 2 * p, mem, mem)
  {
  }

  /** SEQUENTIAL_INVALIDATE. */
  method InvalidateSequential(isprime: array<bv8>, p: nat, max: nat)
    requires p >= 1 && max < 8 * isprime.Length
    requires 2 * p < 0x1_0000_0000_0000_0000 && max + 1 + p < 0x1_0000_0000_0000_0000
    modifies isprime
    ensures CrossedOut(p, max, old(isprime[..]), isprime[..])
    ensures forall i :: max < i < 8 * isprime.Length ==> Bit(isprime[..], i) == Bit(old(isprime[..]), i)
  {
    hide CrossedTo, CrossedOut, StoreBit, Bit;
    ghost var mem0 := isprime[..];
    CrossStart(p, max, mem0);
    var j := U64(2 * p);
    ghost var k := 2;
    while j < U64(max + 1)
      invariant j == p * k && 2 <= k && j <= max + p + p
      invariant CrossedTo(p, max, j, mem0, isprime[..])
      decreases max + 1 - j
    {
      CrossNext(p, max, k, mem0, isprime[..]);
      SetIsPrime(isprime, j, 0);
      assert p * (k + 1) == j + p;
      j := U64(j + p);
      k := k + 1;
    }
    CrossedAll(p, max, j, mem0, isprime[..]);
  }

  /** Every run that has reached the join leaves bits 0..max as the sequential loop leaves them. */
  lemma ThreadsMatchSequential(c: Config, mem0: seq<bv8>, run: seq<State>, after: seq<bv8>)
    requires c.Valid() && c.RoomIn(|mem0|) && Run(c, mem0, run) && Joined(run[|run| - 1])
    requires CrossedOut(c.p, c.max, mem0, after)
    ensures |run[|run| - 1].mem| == |mem0|
    ensures forall i :: 0 <= i <= c.max ==> (Bit(run[|run| - 1].mem, i) <==> Bit(after, i))
  {
    EveryRun(c, mem0, run);
    var mem := run[|run| - 1].mem;
    forall i | 0 <= i <= c.max ensures Bit(mem, i) <==> Bit(after, i) {
      assert Bit(mem, i) <==> Bit(mem0, i) && !c.Swept(i);
    }
  }

  lemma NextMultiple(p: nat, k: nat, i: nat)
    requires p >= 1 && i % p == 0 && p * k <= i < p * k + p
    ensures i == p * k
  {
    DivModUnique(p, k, i - p * k);
  }

  /** Bit i is one of the numbers worker t clears before its loop stops. */
  ghost predicate Strikes(c: Config, t: nat, i: nat)
    requires t < |c.ids|
  {
    exists m: nat :: c.Goes(t, m) && i == c.Target(t, m)
  }

  ghost predicate RowCleared(c: Config, t: nat, m: nat, mem0: seq<bv8>, mem: seq<bv8>)
    requires t < |c.ids|
  {
    && |mem| == |mem0|
    && forall i :: 0 <= i < 8 * |mem0| ==> (Bit(mem, i) <==> Bit(mem0, i) && !ClearedBy(c, t, m, i))
  }

  lemma OneMoreCleared(c: Config, t: nat, m: nat, mem0: seq<bv8>, mem: seq<bv8>)
    requires t < |c.ids| && RowCleared(c, t, m, mem0, mem) && c.Target(t, m) < 8 * |mem|
    ensures RowCleared(c, t, m + 1, mem0, StoreBit(mem, c.Target(t, m), false))
  {
    StoreBitBits(mem, c.Target(t, m), false);
    forall i | 0 <= i < 8 * |mem0|
      ensures Bit(StoreBit(mem, c.Target(t, m), false), i) <==> Bit(mem0, i) && !ClearedBy(c, t, m + 1, i)
    {
      ClearedMore(c, t, m, i);
    }
  }

  lemma FirstCounter(c: Config)
    ensures c.Counter(0) == 2 * c.p
  {
  }

  lemma NoneCleared(c: Config, t: nat, mem: seq<bv8>)
    requires t < |c.ids|
    ensures RowCleared(c, t, 0, mem, mem)
  {
  }

  /** The loop of one grid index, run to its end. */
  method InvalidateGridRow(isprime: array<bv8>, c: Config, threadIdx: nat)
    requires c.Valid() && c.RoomIn(isprime.Length) && threadIdx < c.n && c.ids[threadIdx] == threadIdx
    modifies isprime
    ensures forall i :: 0 <= i < 8 * isprime.Length ==>
      (Bit(isprime[..], i) <==> Bit(old(isprime[..]), i) && !Strikes(c, threadIdx, i))
  {
    hide RowCleared, Strikes, StoreBit, Bit, ClearedBy, c.Counter, c.Target, c.Swept;
    FirstCounter(c);
    ghost var mem0 := isprime[..];
    var j := U64(2 * c.p);
    ghost var m := 0;
    NoneCleared(c, threadIdx, mem0);
    while j < U64(c.max + 1)
      invariant j == c.Counter(m)
      invariant m > 0 ==> c.Goes(threadIdx, m - 1)
      invariant RowCleared(c, threadIdx, m, mem0, isprime[..])
      decreases c.max + 1 - j
    {
      CountersFit(c, threadIdx, m);
      var x := U64(j + threadIdx * c.p);
      if x > U64(c.max + 1) {
        break;
      }
      ClearedIsSwept(c, threadIdx, m);
      OneMoreCleared(c, threadIdx, m, mem0, isprime[..]);
      SetIsPrime(isprime, x, 0);
      j := U64(j + U64(c.n * c.p));
      m := m + 1;
    }
    StoppedRow(c, threadIdx, m, mem0, isprime[..]);
  }

  lemma StoppedRow(c: Config, t: nat, m: nat, mem0: seq<bv8>, mem: seq<bv8>)
    requires c.Valid() && t < c.n && !c.Goes(t, m) && (m > 0 ==> c.Goes(t, m - 1))
    requires RowCleared(c, t, m, mem0, mem)
    ensures forall i :: 0 <= i < 8 * |mem0| ==> (Bit(mem, i) <==> Bit(mem0, i) && !Strikes(c, t, i))
  {
    forall i | 0 <= i < 8 * |mem0| ensures ClearedBy(c, t, m, i) <==> Strikes(c, t, i) {
      StoppedStrikes(c, t, m, i);
    }
  }

  lemma StoppedStrikes(c: Config, t: nat, m: nat, i: nat)
    requires c.Valid() && t < c.n && !c.Goes(t, m) && (m > 0 ==> c.Goes(t, m - 1))
    ensures ClearedBy(c, t, m, i) <==> Strikes(c, t, i)
  {
    if ClearedBy(c, t, m, i) {
      var k: nat :| k < m && i == c.Target(t, k);
      GoesDownward(c, t, k, m - 1);
    }
    if Strikes(c, t, i) {
      var k: nat :| c.Goes(t, k) && i == c.Target(t, k);
      if m <= k {
        GoesDownward(c, t, m, k);
      }
      assert k < m;
    }
  }

  /** The workers' index sets cover exactly the swept numbers, and are disjoint. */
  lemma StrikesAreSwept(c: Config, i: nat)
    requires c.Valid()
    ensures c.Swept(i) <==> exists t :: 0 <= t < c.n && Strikes(c, t, i)
    ensures forall t, m: nat, u, k: nat {:trigger c.Target(t, m), c.Target(u, k)} ::
      0 <= t < c.n && 0 <= u < c.n && i == c.Target(t, m) == c.Target(u, k) ==> t == u && m == k
  {
    if c.Swept(i) {
      var t, m := SweptIsCleared(c, i);
      assert Strikes(c, t, i);
    }
    if t :| 0 <= t < c.n && Strikes(c, t, i) {
      var m: nat :| c.Goes(t, m) && i == c.Target(t, m);
      ClearedIsSwept(c, t, m);
    }
    forall t, m: nat, u, k: nat {:trigger c.Target(t, m), c.Target(u, k)} |
      0 <= t < c.n && 0 <= u < c.n && i == c.Target(t, m) == c.Target(u, k)
      ensures t == u && m == k
    {
      TargetsDistinct(c, t, m, u, k);
    }
  }

  /** SEQUENTIAL_GRID_INVALIDATE: the workers' loops one after the other, unscrambled. */
  method InvalidateGrid(isprime: array<bv8>, c: Config)
    requires c.Valid() && c.RoomIn(isprime.Length) && c.ids == seq(c.n, t => t)
    modifies isprime
    ensures SweptMemory(c, old(isprime[..]), isprime[..])
  {
    ghost var mem0 := isprime[..];
    var threadIdx := 0;
    while threadIdx < c.n
      invariant threadIdx <= c.n
      invariant forall i :: 0 <= i < 8 * |mem0| ==>
        (Bit(isprime[..], i) <==> Bit(mem0, i) && !exists u :: 0 <= u < threadIdx && Strikes(c, u, i))
    {
      InvalidateGridRow(isprime, c, threadIdx);
      threadIdx := threadIdx + 1;
    }
    forall i | 0 <= i < 8 * |mem0| ensures Bit(isprime[..], i) <==> Bit(mem0, i) && !c.Swept(i) {
      StrikesAreSwept(c, i);
    }
  }

  // ----- the outer loop ----------------------------------------------------------------------------

  /** i has not been struck out by any prime below p. */
  ghost predicate Survives(i: nat, p: nat) {
    i >= 2 && forall q :: 2 <= q < p && IsPrime(q) ==> !(i % q == 0 && i >= 2 * q)
  }

  /** Bit max before the first sweep: only the first byte reaches it, otherwise it is what the allocator left. */
  ghost predicate LastBit(mem0: seq<bv8>, max: nat)
    requires max < 8 * |mem0|
  {
    if max < 8 then max >= 2 else Bit(mem0, max)
  }

  /** The array when every prime below p has been swept. */
  ghost predicate Sifted(mem0: seq<bv8>, mem: seq<bv8>, max: nat, p: nat)
    requires max < 8 * |mem0|
  {
    && |mem| == |mem0|
    && (forall i :: 0 <= i < max ==> (Bit(mem, i) <==> Survives(i, p)))
    && (Bit(mem, max) <==> LastBit(mem0, max) && Survives(max, p))
  }

  /** The outer loop comes to p: it has swept all smaller primes. */
  ghost predicate Reached(max: nat, p: nat) {
    IsPrime(p) && forall q: nat :: q < p && IsPrime(q) ==> q * q <= max
  }

  /** No counter wraps: neither the bound max + 1, nor the test p * p of a prime the outer loop comes to,
      nor the counters of its sweep. */
  ghost predicate Fits(n: nat, max: nat) {
    && max + 1 < 0x1_0000_0000_0000_0000
    && forall p: nat :: Reached(max, p) ==>
         p * p < 0x1_0000_0000_0000_0000 && (p * p <= max ==> max + 1 + n * p < 0x1_0000_0000_0000_0000)
  }

  /** The array holds every bit that some sweep of the program touches. */
  ghost predicate Roomy(n: nat, max: nat, bytes: nat)
    requires n >= 1
  {
    max < 8 * bytes && forall p: nat :: IsPrime(p) && p * p <= max ==> Config(n, max, p, []).RoomIn(bytes)
  }

  lemma PrimeSurvives(i: nat, p: nat)
    requires IsPrime(i)
    ensures Survives(i, p)
  {
  }

  lemma SurvivorBelowSquare(i: nat, p: nat)
    requires Survives(i, p) && i < p * p
    ensures IsPrime(i)
  {
    if !IsPrime(i) {
      var q := LeastFactor(i);
      MultipleMod(q, i / q);
      assert q < p by { if q >= p { MulLe(q, p, q); MulLe(p, p, q); } }
      TwiceFactor(i, q);
    }
  }

  lemma TwiceFactor(i: nat, q: nat)
    requires 2 <= q < i && i % q == 0
    ensures i >= 2 * q
  {
    var k := i / q;
    assert i == q * k;
    if k < 2 { MulLe(q, k, 1); }
    MulLe(q, 2, k);
  }

  /** Sweeping p takes the array from "below p" to "below p + 1". */
  lemma SweepSifts(mem0: seq<bv8>, before: seq<bv8>, after: seq<bv8>, max: nat, p: nat)
    requires max < 8 * |mem0| && IsPrime(p)
    requires Sifted(mem0, before, max, p) && CrossedOut(p, max, before, after)
    ensures Sifted(mem0, after, max, p + 1)
  {
    forall i | 0 <= i <= max
      ensures Survives(i, p + 1) <==> Survives(i, p) && !(i % p == 0 && i >= 2 * p)
    {
      assert Survives(i, p + 1) ==> !(i % p == 0 && i >= 2 * p);
    }
  }

  ghost predicate NoneSurvive(p: nat, j: nat, s: nat) {
    forall i :: p < i < j ==> !Survives(i, s)
  }

  /** The first surviving bit after p is the next prime. */
  lemma FirstSurvivor(p: nat, j: nat)
    requires IsPrime(p) && p < j && Survives(j, p + 1)
    requires NoneSurvive(p, j, p + 1)
    ensures IsPrime(j) && forall i :: p < i < j ==> !IsPrime(i)
    ensures forall i :: Survives(i, p + 1) <==> Survives(i, j)
  {
    forall i | p < i < j ensures !IsPrime(i) {
      if IsPrime(i) { PrimeSurvives(i, p + 1); }
    }
    if !IsPrime(j) {
      var q := LeastFactor(j);
      PrimeSurvives(q, p + 1);
      TwiceFactor(j, q);
    }
  }

  /** What the scan for the next prime makes of p, from j on. */
  function Scan(mem: seq<bv8>, max: nat, p: nat, j: nat): nat
    requires max < 8 * |mem|
    decreases max + 1 - j
  {
    if j >= U64(max + 1) then p
    else if Bit(mem, j) then j
    else Scan(mem, max, p, j + 1)
  }

  lemma {:induction false} ScanIsFirst(mem: seq<bv8>, max: nat, p: nat, j: nat)
    requires max < 8 * |mem| && max + 1 < 0x1_0000_0000_0000_0000 && j <= max + 1
    ensures var r := Scan(mem, max, p, j);
      || (r == p && forall i :: j <= i <= max ==> !Bit(mem, i))
      || (j <= r <= max && Bit(mem, r) && forall i :: j <= i < r ==> !Bit(mem, i))
    decreases max + 1 - j
  {
    if j <= max && !Bit(mem, j) {
      ScanIsFirst(mem, max, p, j + 1);
    }
  }

  lemma BelowSquare(p: nat)
    requires IsPrime(p)
    ensures 2 <= p < p * p
  {
    MulLt(p, 1, p);
  }

  /** Over a sifted array the scan moves p to the next prime, which it meets before max. */
  lemma ScanFindsNext(mem0: seq<bv8>, mem: seq<bv8>, max: nat, p: nat)
    requires max + 1 < 0x1_0000_0000_0000_0000 && max < 8 * |mem0| && IsPrime(p) && p * p <= max
    requires Sifted(mem0, mem, max, p + 1)
    ensures var p' := Scan(mem, max, p, p + 1);
      && p < p' < max && IsPrime(p') && (forall i :: p < i < p' ==> !IsPrime(i))
      && Sifted(mem0, mem, max, p')
  {
    hide Scan, IsPrime, Survives;
    BelowSquare(p);
    var r := PrimeBelowSquare(p);
    var p' := Scan(mem, max, p, p + 1);
    PrimeSurvives(r, p + 1);
    ScanIsFirst(mem, max, p, p + 1);
    assert p < p' <= r;
    assert NoneSurvive(p, p', p + 1);
    FirstSurvivor(p, p');
  }

  /** The sequential scan for the next prime. */
  method NextPrime(isprime: array<bv8>, p: nat, max: nat) returns (p': nat)
    requires max < 8 * isprime.Length
    ensures p' == Scan(isprime[..], max, p, p + 1)
  {
    p' := p;
    var j := p + 1;
    while j < U64(max + 1)
      invariant Scan(isprime[..], max, p, p + 1) == Scan(isprime[..], max, p, j)
      decreases max + 1 - j
    {
      var marked := ChkIsPrime(isprime, j);
      if marked {
        p' := j;
        return;
      }
      j := j + 1;
    }
  }

  /** The first byte is a constant, every other bit below max is set one at a time. */
  method MarkAll(isprime: array<bv8>, max: nat)
    requires max < 8 * isprime.Length
    modifies isprime
    ensures Sifted(old(isprime[..]), isprime[..], max, 2)
  {
    ghost var mem0 := isprime[..];
    isprime[0] := 0xFC;
    FirstByte(isprime[..]);
    var i := 2;
    while i < max
      invariant i >= 2 && (max >= 2 ==> i <= max)
      invariant forall k :: 0 <= k < 8 * |mem0| ==>
        (Bit(isprime[..], k) <==> if k < 2 then false else if k < i || k < 8 then true else Bit(mem0, k))
    {
      ghost var before := isprime[..];
      SetIsPrime(isprime, i, 1);
      StoreBitBits(before, i, true);
      i := i + 1;
    }
  }

  lemma FirstByte(mem: seq<bv8>)
    requires |mem| > 0 && mem[0] == 0xFC
    ensures forall k :: 0 <= k < 8 ==> (Bit(mem, k) <==> k >= 2)
  {
  }

  function CountPrimes(k: nat): nat {
    if k == 0 then 0 else CountPrimes(k - 1) + (if IsPrime(k - 1) then 1 else 0)
  }

  /** One pass of the outer loop: sweep p with the threads, then scan for the next prime. */
  method SweepAndAdvance(isprime: array<bv8>, ids: seq<nat>, locks: seq<nat>, n: nat, max: nat, p: nat,
                         ghost mem0: seq<bv8>)
    returns (p': nat, locks': seq<nat>)
    requires locks == FreeLocks(4 * n)
    requires n >= 2 && IsPermutation(ids, n) && Fits(n, max) && Roomy(n, max, isprime.Length)
    requires max < 8 * |mem0| && Reached(max, p) && p * p <= max
    requires Sifted(mem0, isprime[..], max, p)
    modifies isprime
    ensures locks' == locks
    ensures p < p' < max && Reached(max, p')
    ensures forall i :: p < i < p' ==> !IsPrime(i)
    ensures Sifted(mem0, isprime[..], max, p')
  {
    hide Sifted, CrossedOut, Scan;
    ghost var before := isprime[..];
    MulLe(p, 2, p);
    locks' := InvalidateThreads(isprime, Config(n, max, p, ids), locks);
    SweepSifts(mem0, before, isprime[..], max, p);
    ScanFindsNext(mem0, isprime[..], max, p);
    p' := NextPrime(isprime, p, max);
    ReachedNext(max, p, p');
  }

  lemma ReachedNext(max: nat, p: nat, p': nat)
    requires Reached(max, p) && p * p <= max && IsPrime(p') && forall i :: p < i < p' ==> !IsPrime(i)
    ensures Reached(max, p')
  {
  }

  lemma NoneMarked(mem: seq<bv8>)
    ensures MarkedBelow(mem, 0) == 0
  {
  }

  lemma MarkedNext(mem: seq<bv8>, k: nat)
    requires k < 8 * |mem|
    ensures MarkedBelow(mem, k + 1) == MarkedBelow(mem, k) + (if Bit(mem, k) then 1 else 0)
  {
  }

  lemma CountNext(x: nat)
    ensures (x % 0x1_0000_0000 + 1) % 0x1_0000_0000 == (x + 1) % 0x1_0000_0000
  {
  }

  /** The printed count; cnt is 32 bits wide. */
  method CountMarked(isprime: array<bv8>, max: nat) returns (cnt: nat)
    requires max < 8 * isprime.Length && max + 1 < 0x1_0000_0000_0000_0000
    ensures cnt == MarkedBelow(isprime[..], max + 1) % 0x1_0000_0000
  {
    hide Bit, MarkedBelow;
    cnt := 0;
    var i := 0;
    NoneMarked(isprime[..]);
    while i < U64(max + 1)
      invariant 0 <= i <= max + 1
      invariant cnt == MarkedBelow(isprime[..], i) % 0x1_0000_0000
    {
      var marked := ChkIsPrime(isprime, i);
      MarkedNext(isprime[..], i);
      CountNext(MarkedBelow(isprime[..], i));
      if marked {
        cnt := (cnt + 1) % 0x1_0000_0000;
      }
      i := i + 1;
    }
  }

  function MarkedBelow(mem: seq<bv8>, k: nat): nat
    requires k <= 8 * |mem|
  {
    if k == 0 then 0 else MarkedBelow(mem, k - 1) + (if Bit(mem, k - 1) then 1 else 0)
  }

  lemma {:induction false} MarkedArePrimes(mem: seq<bv8>, k: nat)
    requires k <= 8 * |mem| && forall i :: 0 <= i < k ==> (Bit(mem, i) <==> IsPrime(i))
    ensures MarkedBelow(mem, k) == CountPrimes(k)
  {
    if k > 0 {
      MarkedArePrimes(mem, k - 1);
    }
  }

  lemma SiftedToTheEnd(mem0: seq<bv8>, mem: seq<bv8>, max: nat, p: nat)
    requires max < 8 * |mem0| && Sifted(mem0, mem, max, p) && p * p > max
    ensures forall i :: 0 <= i < max ==> (Bit(mem, i) <==> IsPrime(i))
    ensures Bit(mem, max) <==> IsPrime(max) && LastBit(mem0, max)
  {
    forall i | 0 <= i <= max ensures Survives(i, p) <==> IsPrime(i) {
      if Survives(i, p) { SurvivorBelowSquare(i, p); }
      if IsPrime(i) { PrimeSurvives(i, p); }
    }
  }

  lemma BoundFits(n: nat, max: nat)
    requires Fits(n, max)
    ensures max + 1 < 0x1_0000_0000_0000_0000
  {
  }

  lemma SquareIsExact(n: nat, max: nat, p: nat)
    requires Fits(n, max) && Reached(max, p)
    ensures U64(p * p) == p * p && IsPrime(p)
  {
  }

  lemma ReachedFirst(max: nat)
    ensures Reached(max, 2)
  {
  }

  /** The whole program: n threads (even), bits 0..max, the array as the allocator left it. */
  method Sieve(isprime: array<bv8>, n: nat, max: nat) returns (cnt: nat)
    requires n % 2 == 0 && n >= 2 && Fits(n, max) && Roomy(n, max, isprime.Length)
    modifies isprime
    ensures forall i :: 0 <= i < max ==> (Bit(isprime[..], i) <==> IsPrime(i))
    ensures Bit(isprime[..], max) <==> IsPrime(max) && LastBit(old(isprime[..]), max)
    ensures cnt == (CountPrimes(max) + if IsPrime(max) && LastBit(old(isprime[..]), max) then 1 else 0) % 0x1_0000_0000
  {
    hide Sifted, IsPrime, Reached, CountPrimes, MarkedBelow, LastBit, Fits;
    ghost var mem0 := isprime[..];
    BoundFits(n, max);
    ReachedFirst(max);
    var threadID := ScrambleThreadIds(n);
    var ids := threadID[..];
    var locks := FreeLocks(4 * n);
    MarkAll(isprime, max);
    var p := 2;
    while U64(p * p) <= max
      invariant Reached(max, p)
      invariant Sifted(mem0, isprime[..], max, p) && locks == FreeLocks(4 * n)
      decreases max + 2 - p
    {
      SquareIsExact(n, max, p);
      p, locks := SweepAndAdvance(isprime, ids, locks, n, max, p, mem0);
    }
    SquareIsExact(n, max, p);
    SiftedToTheEnd(mem0, isprime[..], max, p);
    cnt := CountMarked(isprime, max);
    MarkedArePrimes(isprime[..], max);
    MarkedNext(isprime[..], max);
  }

  // ----- when the hypotheses hold ----------------------------------------------------------------------

  /** A prime whose square is above max ends the outer loop. */
  lemma ReachedBelow(max: nat, p: nat, q: nat)
    requires Reached(max, p) && IsPrime(q) && max < q * q
    ensures p <= q && p * p <= q * q
  {
    MulLe(p, p, q);
    MulLe(q, p, q);
  }

  lemma SquareFits(p: nat)
    requires p < 0x1_0000_0000
    ensures p * p < 0x1_0000_0000_0000_0000
  {
    MulLe(p, p, 0x1_0000_0000);
  }

  lemma StrideFits(n: nat, p: nat)
    requires p < 0x1_0000_0000 && n < 0x8000_0000
    ensures n * p < 0x8000_0000_0000_0000
  {
    MulLe(p, n, 0x8000_0000);
  }

  /** Below 2^32 no counter wraps for any reasonable number of threads. */
  lemma FitsBelow32(n: nat, max: nat)
    requires max < 0x1_0000_0000 && n < 0x8000_0000
    ensures Fits(n, max)
  {
    hide IsPrime, Reached;
    var q := PrimeBelowSquare(0x1_0000);
    MulLe(q, 0x1_0000, q);
    forall p: nat | Reached(max, p)
      ensures p * p < 0x1_0000_0000_0000_0000 && (p * p <= max ==> max + 1 + n * p < 0x1_0000_0000_0000_0000)
    {
      ReachedBelow(max, p, q);
      SquareFits(p);
      StrideFits(n, p);
    }
  }

  /** No prime lies between 4294967291 and 2^32. */
  lemma LastPrime(q: nat)
    requires IsPrime(q) && q < 0x1_0000_0000
    ensures q <= 4294967291
  {
    assert 4294967292 % 2 == 0 && 4294967293 % 9241 == 0 && 4294967294 % 2 == 0 && 4294967295 % 3 == 0;
  }

  lemma LeastPrimeFrom(low: nat, high: nat) returns (p: nat)
    requires 2 <= low <= high && IsPrime(high)
    ensures low <= p <= high && IsPrime(p) && forall i :: low <= i < p ==> !IsPrime(i)
  {
    hide IsPrime;
    p := low;
    while !IsPrime(p)
      invariant low <= p <= high && forall i :: low <= i < p ==> !IsPrime(i)
      decreases high - p
    {
      p := p + 1;
    }
  }

  lemma BelowLastSquare(max: nat, q: nat)
    requires q <= 4294967291 && max < q * q
    ensures max < 4294967291 * 4294967291
  {
    MulLe(q, q, 4294967291);
  }

  lemma FitsBelowSquare(max: nat, q: nat)
    requires IsPrime(q) && q < 0x1_0000_0000 && max < q * q
    ensures Fits(8, max)
  {
    hide IsPrime, Reached;
    LastPrime(q);
    BelowLastSquare(max, q);
    forall p: nat | Reached(max, p)
      ensures p * p < 0x1_0000_0000_0000_0000 && (p * p <= max ==> max + 1 + 8 * p < 0x1_0000_0000_0000_0000)
    {
      ReachedBelow(max, p, q);
      SquareFits(p);
    }
  }

  /** With the source's eight threads no counter wraps exactly for the limits below the square of a 32-bit prime. */
  lemma SourceFits(max: nat)
    ensures Fits(8, max) <==> exists q: nat :: IsPrime(q) && q < 0x1_0000_0000 && max < q * q
  {
    hide IsPrime;
    if q: nat :| IsPrime(q) && q < 0x1_0000_0000 && max < q * q {
      FitsBelowSquare(max, q);
    } else {
      var high := PrimeBelowSquare(0x1_0000_0000);
      var p := LeastPrimeFrom(0x1_0000_0000, high);
      assert Reached(max, p);
      MulLe(p, 0x1_0000_0000, p);
    }
  }

  /** For every limit below 2^32 the program needs no further condition on it than room in the array. */
  method SieveBelow32(isprime: array<bv8>, n: nat, max: nat) returns (cnt: nat)
    requires n % 2 == 0 && 2 <= n < 0x8000_0000 && max < 0x1_0000_0000 && Roomy(n, max, isprime.Length)
    modifies isprime
    ensures forall i :: 0 <= i < max ==> (Bit(isprime[..], i) <==> IsPrime(i))
    ensures Bit(isprime[..], max) <==> IsPrime(max) && LastBit(old(isprime[..]), max)
    ensures cnt == (CountPrimes(max) + if IsPrime(max) && LastBit(old(isprime[..]), max) then 1 else 0) % 0x1_0000_0000
  {
    FitsBelow32(n, max);
    cnt := Sieve(isprime, n, max);
  }

  /** Some worker of the sweep clears a bit past the max / 8 + 1 bytes that the program allocates. */
  ghost predicate LeavesAllocation(c: Config) {
    exists t, m: nat :: 0 <= t < |c.ids| && c.Goes(t, m) && c.Target(t, m) >= 8 * (c.max / 8 + 1)
  }

  /** It does exactly when bit max + 1 starts a byte and one of the workers strikes it. */
  lemma AllocationIsLeft(c: Config)
    requires c.Valid()
    ensures LeavesAllocation(c) <==> c.max % 8 == 7 && c.Swept(c.max + 1)
    ensures !LeavesAllocation(c) <==> c.RoomIn(c.max / 8 + 1)
  {
    if LeavesAllocation(c) {
      var t, m: nat :| 0 <= t < |c.ids| && c.Goes(t, m) && c.Target(t, m) >= 8 * (c.max / 8 + 1);
      ClearedIsSwept(c, t, m);
    }
    if c.max % 8 == 7 && c.Swept(c.max + 1) {
      var t, m := SweptIsCleared(c, c.max + 1);
    }
  }

  /** With the source's eight threads its own allocation has room exactly when max % 8 is not 7. */
  lemma SourceAllocation(max: nat)
    ensures Roomy(8, max, max / 8 + 1) <==> max % 8 != 7
  {
    if max % 8 == 7 {
      var c, k := Config(8, max, 2, []), max / 8;
      assert max + 1 == 2 * (4 * (k + 1)) && (4 * (k + 1) - 2) % 8 != 0;
      assert c.Swept(max + 1) && !c.RoomIn(max / 8 + 1);
      assert IsPrime(2) && 2 * 2 <= max;
    }
  }

  // ----- the limit the source is compiled with ---------------------------------------------------------

  const SOURCE_MAX: nat := 0xFFFF_FFFF_FFFF_FFFF

  /** With MAX = 2^64 - 1 the bound MAX + 1 is 0: no worker of any run ever clears a bit. */
  lemma {:induction false} SourceMaxSweepsNothing(c: Config, mem0: seq<bv8>, run: seq<State>)
    requires c.n >= 1 && |c.ids| == c.n && c.max == SOURCE_MAX && c.max < 8 * |mem0| && Run(c, mem0, run)
    ensures var s := run[|run| - 1];
      s.mem == mem0 && |s.ws| == c.n && forall t :: 0 <= t < c.n ==> s.ws[t].pc.Head? || s.ws[t].pc.Done?
  {
    var k := |run| - 1;
    if k > 0 {
      assert Next(c, run[k - 1], run[k - 1 + 1]);
      SourceMaxSweepsNothing(c, mem0, run[..k]);
      assert U64(c.max + 1) == 0;
    }
  }

  /** The worker whose thread number is 0 tests, waits, reads and writes. */
  lemma FirstClear(c: Config, mem0: seq<bv8>, t: nat) returns (run: seq<State>)
    requires c.n >= 1 && |c.ids| == c.n && t < c.n && c.ids[t] == 0
    requires 2 * c.p <= c.max < SOURCE_MAX && c.max < 8 * |mem0|
    ensures Run(c, mem0, run) && run[|run| - 1].mem == StoreBit(mem0, 2 * c.p, false)
  {
    var s0 := Init(c, mem0);
    assert Number(c, s0, t) == 2 * c.p;
    var s1 := Step(c, s0, t);
    var s2 := Step(c, s1, t);
    var s3 := Step(c, s2, t);
    var s4 := Step(c, s3, t);
    run := [s0, s1, s2, s3, s4];
    assert Next(c, s0, s1) && Next(c, s1, s2) && Next(c, s2, s3) && Next(c, s3, s4);
  }

  /** Among all 64-bit limits with a multiple to clear, that one alone makes every sweep do nothing. */
  lemma SourceMaxIsExact(c: Config, mem0: seq<bv8>)
    requires c.n >= 1 && IsPermutation(c.ids, c.n) && 2 * c.p <= c.max <= SOURCE_MAX
    requires c.max < 8 * |mem0| && Bit(mem0, 2 * c.p)
    ensures (forall run: seq<State> :: Run(c, mem0, run) ==> run[|run| - 1].mem == mem0) <==> c.max == SOURCE_MAX
  {
    if c.max == SOURCE_MAX {
      forall run: seq<State> | Run(c, mem0, run) ensures run[|run| - 1].mem == mem0 {
        SourceMaxSweepsNothing(c, mem0, run);
      }
    } else {
      assert 0 in c.ids;
      var t :| 0 <= t < c.n && c.ids[t] == 0;
      var run := FirstClear(c, mem0, t);
      StoreBitBits(mem0, 2 * c.p, false);
      assert !Bit(run[|run| - 1].mem, 2 * c.p);
    }
  }

  // ----- the outer loop under that limit -----------------------------------------------------------------

  datatype Outer = Outer(mem: seq<bv8>, p: nat)

  /** One turn of the outer loop: a sweep run to the join, then the scan. */
  ghost predicate Turn(n: nat, max: nat, ids: seq<nat>, o: Outer, o': Outer) {
    && max < 8 * |o'.mem|
    && (exists run: seq<State> ::
          Run(Config(n, max, o.p, ids), o.mem, run) && Joined(run[|run| - 1]) && run[|run| - 1].mem == o'.mem)
    && o'.p == Scan(o'.mem, max, o.p, o.p + 1)
  }

  /** All workers up to k have made their one failing test. */
  lemma {:induction false} AllStop(c: Config, mem0: seq<bv8>, k: nat) returns (run: seq<State>)
    requires c.n >= 1 && |c.ids| == c.n && c.max == SOURCE_MAX < 8 * |mem0| && k <= c.n
    ensures Run(c, mem0, run)
    ensures var s := run[|run| - 1];
      Shaped(c, s) && forall t :: 0 <= t < c.n ==> if t < k then s.ws[t].pc.Done? else s.ws[t].pc.Head?
    decreases k
  {
    if k == 0 {
      run := [Init(c, mem0)];
    } else {
      var before := AllStop(c, mem0, k - 1);
      var s := before[|before| - 1];
      assert U64(c.max + 1) == 0;
      var s' := Step(c, s, k - 1);
      assert Next(c, s, s');
      run := before + [s'];
    }
  }

  /** Then the outer loop can always turn again, no turn changes anything, and its guard stays true: it cannot end. */
  lemma SourceMaxNeverEnds(n: nat, ids: seq<nat>, o: Outer, o': Outer)
    requires n >= 1 && |ids| == n && SOURCE_MAX < 8 * |o.mem|
    ensures Turn(n, SOURCE_MAX, ids, o, o') <==> o' == o
    ensures U64(o.p * o.p) <= SOURCE_MAX
  {
    var c := Config(n, SOURCE_MAX, o.p, ids);
    assert U64(SOURCE_MAX + 1) == 0;
    var run := AllStop(c, o.mem, n);
    SourceMaxSweepsNothing(c, o.mem, run);
    assert Joined(run[|run| - 1]);
    assert Turn(n, SOURCE_MAX, ids, o, o);
    if Turn(n, SOURCE_MAX, ids, o, o') {
      var other: seq<State> :| Run(c, o.mem, other) && Joined(other[|other| - 1]) && other[|other| - 1].mem == o'.mem;
      SourceMaxSweepsNothing(c, o.mem, other);
    }
  }
}
