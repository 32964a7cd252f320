/** The threaded invalidation of one prime's multiples as a step system: each worker runs
    test-loop / wait / read / write / post, in any interleaving. */
module SieveWorkers {
  import opened Bitmap
  import opened Nonlinear

  /** Arithmetic on the source's 64-bit counters. */
  function U64(x: nat): (r: nat)
    ensures x < 0x1_0000_0000_0000_0000 ==> r == x
  {
    x % 0x1_0000_0000_0000_0000
  }

  /** n workers, bits 0..max, the prime p being swept, and the scrambled thread numbers. */
  datatype Config = Config(n: nat, max: nat, p: nat, ids: seq<nat>) {
    const locks: nat := 4 * n

    ghost predicate Valid() {
      && n >= 1 && p >= 1 && |ids| == n
      && IsPermutation(ids, n)
      && 2 * p < 0x1_0000_0000_0000_0000
      && max + 1 + n * p < 0x1_0000_0000_0000_0000
    }

    /** The loop counter of every worker in round m. */
    function Counter(m: nat): nat {
      p * (2 + n * m)
    }

    /** What a round adds to the counter. */
    function Stride(): nat {
      n * p
    }

    /** How far worker t's number is ahead of the counter. */
    function Ahead(t: nat): nat
      requires t < |ids|
    {
      ids[t] * p
    }

    /** The m-th number worker t clears. */
    function Target(t: nat, m: nat): nat
      requires t < |ids|
    {
      p * (2 + n * m) + ids[t] * p
    }

    /** The loop of worker t does not stop before its m-th number. */
    predicate Goes(t: nat, m: nat)
      requires t < |ids|
    {
      Counter(m) < max + 1 && Target(t, m) <= max + 1
    }

    /** Exactly the bits a finished threaded sweep has cleared. */
    predicate Swept(i: nat)
      requires n >= 1 && p >= 1
    {
      i % p == 0 && i >= 2 * p &&
      (i <= max || (i == max + 1 && (i / p - 2) % n != 0))
    }

    /** An array of so many bytes holds every bit the sweep touches: 0..max, and max + 1 if a worker clears it. */
    predicate RoomIn(bytes: nat)
      requires n >= 1 && p >= 1
    {
      max < 8 * bytes && (Swept(max + 1) ==> max + 1 < 8 * bytes)
    }
  }

  ghost predicate IsPermutation(s: seq<nat>, n: nat) {
    && |s| == n
    && (forall t :: 0 <= t < n ==> s[t] < n)
    && (forall t, u :: 0 <= t < u < n ==> s[t] != s[u])
    && (forall v :: 0 <= v < n ==> v in s)
  }

  datatype Pc = Head | Wait | Read | Write | Post | Done

  datatype Worker = Worker(pc: Pc, j: nat, tmp: bv8)

  /** Shared memory, the lock semaphores, and the workers. */
  datatype State = State(mem: seq<bv8>, locks: seq<nat>, ws: seq<Worker>)

  /** The semaphores as initialisation leaves them. */
  function FreeLocks(n: nat): seq<nat> {
    seq(n, _ => 1)
  }

  function Init(c: Config, mem: seq<bv8>): State {
    State(mem, FreeLocks(c.locks), seq(c.n, _ => Worker(Head, U64(2 * c.p), 0)))
  }

  /** The number worker t is clearing. */
  function Number(c: Config, s: State, t: nat): nat
    requires t < |s.ws| && t < |c.ids|
  {
    U64(s.ws[t].j + c.ids[t] * c.p)
  }

  function LockOf(c: Config, i: nat): nat
    requires c.n >= 1
  {
    (i / CODE_LENGTH) % c.locks
  }

  predicate Shaped(c: Config, s: State) {
    && c.n >= 1 && |s.ws| == |c.ids| == c.n && |s.locks| == c.locks
    && c.max < 8 * |s.mem|
  }

  /** Indices used by a worker past the loop test stay inside the array. */
  predicate Bounded(c: Config, s: State, t: nat)
    requires Shaped(c, s) && t < c.n
  {
    !s.ws[t].pc.Head? && !s.ws[t].pc.Done? ==> Number(c, s, t) < 8 * |s.mem|
  }

  predicate Enabled(c: Config, s: State, t: nat)
    requires Shaped(c, s) && t < c.n
  {
    match s.ws[t].pc
    case Wait => s.locks[LockOf(c, Number(c, s, t))] > 0
    case Done => false
    case _ => true
  }

  /** One step of worker t. */
  function Step(c: Config, s: State, t: nat): (s': State)
    requires Shaped(c, s) && t < c.n && Bounded(c, s, t) && Enabled(c, s, t)
    ensures Shaped(c, s')
  {
    var w, x := s.ws[t], Number(c, s, t);
    var idx, l := x / CODE_LENGTH, LockOf(c, x);
    match w.pc
    case Head =>
      if w.j < U64(c.max + 1) && x <= U64(c.max + 1) then s.(ws := s.ws[t := w.(pc := Wait)])
      else s.(ws := s.ws[t := w.(pc := Done)])
    case Wait =>
      s.(locks := s.locks[l := s.locks[l] - 1], ws := s.ws[t := w.(pc := Read)])
    case Read =>
      s.(ws := s.ws[t := w.(pc := Write, tmp := s.mem[idx])])
    case Write =>
      s.(mem := s.mem[idx := w.tmp & !Mask(x % CODE_LENGTH)], ws := s.ws[t := w.(pc := Post)])
    case Post =>
      s.(locks := s.locks[l := s.locks[l] + 1], ws := s.ws[t := w.(pc := Head, j := U64(w.j + U64(c.n * c.p)))])
    case Done => s
  }

  predicate Joined(s: State) {
    forall t :: 0 <= t < |s.ws| ==> s.ws[t].pc.Done?
  }

  // ----- the invariant ---------------------------------------------------------------------

  predicate Holding(w: Worker) {
    w.pc.Read? || w.pc.Write? || w.pc.Post?
  }

  /** Worker t has cleared bit i in one of its first rounds. */
  ghost predicate ClearedBy(c: Config, t: nat, rounds: nat, i: nat)
    requires t < |c.ids|
  {
    exists m: nat :: m < rounds && i == c.Target(t, m)
  }

  function RoundsCleared(w: Worker, round: nat): nat {
    if w.pc.Post? then round + 1 else round
  }

  /** What worker t knows: its counter, its loop test, the byte it read. */
  ghost predicate WorkerInv(c: Config, s: State, rounds: seq<nat>, t: nat)
    requires Shaped(c, s) && |rounds| == c.n && t < c.n
  {
    var w := s.ws[t];
    && w.j == c.p * (2 + c.n * rounds[t])
    && (forall m :: 0 <= m < rounds[t] ==> c.Goes(t, m))
    && (w.pc.Done? ==> !c.Goes(t, rounds[t]))
    && (!w.pc.Head? && !w.pc.Done? ==> c.Goes(t, rounds[t]))
    && (w.pc.Write? ==> Number(c, s, t) / 8 < |s.mem| && w.tmp == s.mem[Number(c, s, t) / 8])
  }

  /** The lock worker t holds, or -1. */
  function Held(c: Config, s: State, t: nat): int
    requires Shaped(c, s) && t < c.n
  {
    if Holding(s.ws[t]) then LockOf(c, Number(c, s, t)) else -1
  }

  function AllHeld(c: Config, s: State): (r: seq<int>)
    requires Shaped(c, s)
    ensures |r| == c.n && forall t :: 0 <= t < c.n ==> r[t] == Held(c, s, t)
  {
    seq(c.n, t requires 0 <= t < c.n => Held(c, s, t))
  }

  /** Every lock is free, or held by exactly one worker. */
  ghost predicate Exclusive(locks: seq<nat>, held: seq<int>) {
    && (forall t :: 0 <= t < |held| ==> -1 <= held[t] < |locks|)
    && (forall l :: 0 <= l < |locks| ==> locks[l] <= 1 && (locks[l] == 0 <==> l in held))
    && (forall t, u :: 0 <= t < u < |held| && held[t] == held[u] ==> held[t] == -1)
  }

  ghost predicate LockInv(c: Config, s: State)
    requires Shaped(c, s)
  {
    Exclusive(s.locks, AllHeld(c, s))
  }

  /** Memory is the initial memory minus what the workers have cleared: no update is lost. */
  ghost predicate MemInv(c: Config, mem0: seq<bv8>, s: State, rounds: seq<nat>)
    requires Shaped(c, s) && |rounds| == c.n
  {
    && |s.mem| == |mem0|
    && forall i :: 0 <= i < 8 * |mem0| ==>
         (Bit(s.mem, i) <==>
          Bit(mem0, i) && forall t :: 0 <= t < c.n ==> !ClearedBy(c, t, RoundsCleared(s.ws[t], rounds[t]), i))
  }

  ghost predicate Inv(c: Config, mem0: seq<bv8>, s: State, rounds: seq<nat>) {
    && c.Valid() && Shaped(c, s) && c.RoomIn(|s.mem|) && |rounds| == c.n
    && (forall t :: 0 <= t < c.n ==> WorkerInv(c, s, rounds, t))
    && LockInv(c, s)
    && MemInv(c, mem0, s, rounds)
  }

  lemma InitInv(c: Config, mem0: seq<bv8>)
    requires c.Valid() && c.RoomIn(|mem0|)
    ensures Inv(c, mem0, Init(c, mem0), seq(c.n, _ => 0))
  {
  }

  // ----- every step keeps the invariant ------------------------------------------------------

  lemma NoWrap(c: Config, mem0: seq<bv8>, s: State, rounds: seq<nat>, t: nat)
    requires Inv(c, mem0, s, rounds) && t < c.n
    ensures s.ws[t].j == c.p * (2 + c.n * rounds[t])
    ensures s.ws[t].j < c.max + 1 ==>
      Number(c, s, t) == c.Target(t, rounds[t]) && U64(s.ws[t].j + U64(c.n * c.p)) == c.p * (2 + c.n * (rounds[t] + 1))
  {
    assert WorkerInv(c, s, rounds, t);
    if s.ws[t].j < c.max + 1 {
      CountersFit(c, t, rounds[t]);
    }
  }

  lemma NextTarget(c: Config, m: nat)
    requires c.Valid()
    ensures c.p * (2 + c.n * (m + 1)) == c.p * (2 + c.n * m) + c.n * c.p && c.n * c.p >= 1
  {
    MulLe(c.n, 1, c.p);
  }

  lemma IdBelow(c: Config, t: nat)
    requires c.Valid() && t < c.n
    ensures c.ids[t] < c.n
  {
  }

  /** While the loop test holds, neither the number nor the next counter value wraps. */
  lemma CountersFit(c: Config, t: nat, m: nat)
    requires c.Valid() && t < c.n && c.Counter(m) < c.max + 1
    ensures U64(c.Counter(m) + c.Ahead(t)) == c.Target(t, m)
    ensures U64(c.Counter(m) + U64(c.Stride())) == c.Counter(m + 1) > c.Counter(m)
  {
    IdBelow(c, t);
    hide IsPermutation;
    MulLe(c.p, c.ids[t], c.n);
    NextTarget(c, m);
  }

  /** The round counters after a step of worker t. */
  function NextRounds(s: State, rounds: seq<nat>, t: nat): (r: seq<nat>)
    requires t < |s.ws| == |rounds|
    ensures |r| == |rounds|
  {
    if s.ws[t].pc.Post? then rounds[t := rounds[t] + 1] else rounds
  }

  ghost predicate CanStep(c: Config, mem0: seq<bv8>, s: State, rounds: seq<nat>, t: nat) {
    Inv(c, mem0, s, rounds) && t < c.n && Bounded(c, s, t) && Enabled(c, s, t)
  }

  lemma InvBounded(c: Config, mem0: seq<bv8>, s: State, rounds: seq<nat>, t: nat)
    requires Inv(c, mem0, s, rounds) && t < c.n
    ensures Bounded(c, s, t)
  {
    NoWrap(c, mem0, s, rounds, t);
    assert WorkerInv(c, s, rounds, t);
    if !s.ws[t].pc.Head? && !s.ws[t].pc.Done? {
      ClearedIsSwept(c, t, rounds[t]);
    }
  }

  lemma StepKeepsOwn(c: Config, mem0: seq<bv8>, s: State, rounds: seq<nat>, t: nat)
    requires CanStep(c, mem0, s, rounds, t)
    ensures WorkerInv(c, Step(c, s, t), NextRounds(s, rounds, t), t)
  {
    NoWrap(c, mem0, s, rounds, t);
    assert WorkerInv(c, s, rounds, t);
  }

  /** Two workers in the critical section are in different bytes. */
  lemma DifferentBytes(c: Config, s: State, t: nat, u: nat)
    requires Shaped(c, s) && LockInv(c, s) && t < c.n && u < c.n && t != u
    requires Holding(s.ws[t]) && Holding(s.ws[u])
    ensures Number(c, s, t) / 8 != Number(c, s, u) / 8
  {
    var held := AllHeld(c, s);
    assert held[t] >= 0 && held[u] >= 0;
  }

  lemma StepKeepsOthers(c: Config, mem0: seq<bv8>, s: State, rounds: seq<nat>, t: nat, u: nat)
    requires CanStep(c, mem0, s, rounds, t) && u < c.n && u != t
    ensures WorkerInv(c, Step(c, s, t), NextRounds(s, rounds, t), u)
  {
    assert WorkerInv(c, s, rounds, u);
    if Holding(s.ws[t]) && Holding(s.ws[u]) {
      DifferentBytes(c, s, t, u);
    }
  }

  lemma AcquireExclusive(locks: seq<nat>, held: seq<int>, t: nat, l: nat)
    requires Exclusive(locks, held) && t < |held| && held[t] == -1 && l < |locks| && locks[l] > 0
    ensures Exclusive(locks[l := locks[l] - 1], held[t := l])
  {
    var held' := held[t := l];
    assert held'[t] == l;
    forall k | k in held && k != -1 ensures k in held' {
      var u :| 0 <= u < |held| && held[u] == k;
      assert held'[u] == k;
    }
  }

  lemma ReleaseExclusive(locks: seq<nat>, held: seq<int>, t: nat)
    requires Exclusive(locks, held) && t < |held| && held[t] >= 0
    ensures Exclusive(locks[held[t] := locks[held[t]] + 1], held[t := -1])
  {
    var l, held' := held[t], held[t := -1];
    assert l in held;
    forall k | k in held && k != l ensures k in held' {
      var u :| 0 <= u < |held| && held[u] == k;
      assert held'[u] == k;
    }
  }

  lemma StepKeepsLocks(c: Config, mem0: seq<bv8>, s: State, rounds: seq<nat>, t: nat)
    requires CanStep(c, mem0, s, rounds, t)
    ensures LockInv(c, Step(c, s, t))
  {
    var s' := Step(c, s, t);
    var held, l := AllHeld(c, s), LockOf(c, Number(c, s, t));
    if s.ws[t].pc.Wait? {
      AcquireExclusive(s.locks, held, t, l);
      assert AllHeld(c, s') == held[t := l];
    } else if s.ws[t].pc.Post? {
      ReleaseExclusive(s.locks, held, t);
      assert AllHeld(c, s') == held[t := -1];
    } else {
      assert AllHeld(c, s') == held;
    }
  }

  lemma ClearedMore(c: Config, t: nat, rounds: nat, i: nat)
    requires t < |c.ids|
    ensures ClearedBy(c, t, rounds + 1, i) <==> ClearedBy(c, t, rounds, i) || i == c.Target(t, rounds)
  {
    if ClearedBy(c, t, rounds, i) {
      var m: nat :| m < rounds && i == c.Target(t, m);
      assert m < rounds + 1;
    }
  }

  lemma StepKeepsMem(c: Config, mem0: seq<bv8>, s: State, rounds: seq<nat>, t: nat)
    requires CanStep(c, mem0, s, rounds, t)
    ensures MemInv(c, mem0, Step(c, s, t), NextRounds(s, rounds, t))
  {
    var s', rounds' := Step(c, s, t), NextRounds(s, rounds, t);
    if s.ws[t].pc.Write? {
      var x := Number(c, s, t);
      NoWrap(c, mem0, s, rounds, t);
      assert WorkerInv(c, s, rounds, t);
      assert s'.mem == StoreBit(s.mem, x, false);
      StoreBitBits(s.mem, x, false);
      forall i | 0 <= i < 8 * |mem0|
        ensures Bit(s'.mem, i) <==>
                Bit(mem0, i) && forall u :: 0 <= u < c.n ==> !ClearedBy(c, u, RoundsCleared(s'.ws[u], rounds'[u]), i)
      {
        ClearedMore(c, t, rounds[t], i);
        assert forall u :: 0 <= u < c.n && u != t ==>
          RoundsCleared(s'.ws[u], rounds'[u]) == RoundsCleared(s.ws[u], rounds[u]);
      }
    } else {
      assert forall u :: 0 <= u < c.n ==> RoundsCleared(s'.ws[u], rounds'[u]) == RoundsCleared(s.ws[u], rounds[u]);
    }
  }

  lemma StepKeepsInv(c: Config, mem0: seq<bv8>, s: State, rounds: seq<nat>, t: nat)
    requires CanStep(c, mem0, s, rounds, t)
    ensures Inv(c, mem0, Step(c, s, t), NextRounds(s, rounds, t))
  {
    StepKeepsOwn(c, mem0, s, rounds, t);
    forall u | 0 <= u < c.n && u != t ensures WorkerInv(c, Step(c, s, t), NextRounds(s, rounds, t), u) {
      StepKeepsOthers(c, mem0, s, rounds, t, u);
    }
    StepKeepsLocks(c, mem0, s, rounds, t);
    StepKeepsMem(c, mem0, s, rounds, t);
  }

  // ----- what the workers together have cleared at the join ----------------------------------

  lemma TargetShape(c: Config, t: nat, m: nat)
    requires c.Valid() && t < c.n
    ensures c.Target(t, m) == c.p * (2 + c.n * m + c.ids[t])
    ensures (2 + c.n * m + c.ids[t] - 2) % c.n == c.ids[t] && (2 + c.n * m + c.ids[t] - 2) / c.n == m
  {
    var k := c.ids[t];
    assert c.p * (2 + c.n * m + k) == c.p * (2 + c.n * m) + c.p * k;
    DivModUnique(c.n, m, k);
  }

  /** Rounds stop at the first refused number. */
  lemma GoesDownward(c: Config, t: nat, m: nat, k: nat)
    requires c.Valid() && t < c.n && m <= k && c.Goes(t, k)
    ensures c.Goes(t, m)
  {
    MulLe(c.n, m, k);
    MulLe(c.p, 2 + c.n * m, 2 + c.n * k);
  }

  lemma {:induction false} ClearedIsSwept(c: Config, t: nat, m: nat)
    requires c.Valid() && t < c.n && c.Goes(t, m)
    ensures c.Swept(c.Target(t, m))
  {
    hide IsPermutation;
    TargetShape(c, t, m);
    var q := 2 + c.n * m + c.ids[t];
    DivModUnique(c.p, q, 0);
    assert c.p * q == q * c.p;
    assert q >= 2;
    assert c.p * (q - 2) >= 0;
    assert c.ids[t] == 0 ==> c.Target(t, m) == c.p * (2 + c.n * m);
  }

  lemma WorkerOf(c: Config, v: nat) returns (t: nat)
    requires c.Valid() && v < c.n
    ensures t < c.n && c.ids[t] == v
  {
    assert v in c.ids;
    t :| 0 <= t < c.n && c.ids[t] == v;
  }

  lemma QuotientOf(p: nat, i: nat) returns (q: nat)
    requires p >= 1 && i % p == 0 && i >= 2 * p
    ensures q == i / p && i == p * q && q >= 2
  {
    q := i / p;
    if q < 2 { MulLt(p, q, 2); }
  }

  lemma SweptGoes(c: Config, t: nat, m: nat)
    requires c.Valid() && t < c.n
    requires c.Target(t, m) <= c.max || (c.Target(t, m) == c.max + 1 && c.ids[t] > 0)
    ensures c.Goes(t, m)
  {
    hide IsPermutation;
    if c.ids[t] > 0 { MulLe(c.p, 1, c.ids[t]); }
  }

  lemma SweptIsCleared(c: Config, i: nat) returns (t: nat, m: nat)
    requires c.Valid() && c.Swept(i)
    ensures t < c.n && c.Goes(t, m) && i == c.Target(t, m)
  {
    hide IsPermutation, c.Goes, c.Target;
    var q := QuotientOf(c.p, i);
    m := (q - 2) / c.n;
    var v := (q - 2) % c.n;
    t := WorkerOf(c, v);
    assert q == 2 + c.n * m + v;
    TargetShape(c, t, m);
    SweptGoes(c, t, m);
  }

  /** No number is cleared twice: not by two workers, and not in two rounds of one. */
  lemma TargetsDistinct(c: Config, t: nat, m: nat, u: nat, k: nat)
    requires c.Valid() && t < c.n && u < c.n && c.Target(t, m) == c.Target(u, k)
    ensures t == u && m == k
  {
    TargetShape(c, t, m);
    TargetShape(c, u, k);
    Cancel(c.p, 2 + c.n * m + c.ids[t], 2 + c.n * k + c.ids[u]);
  }

  /** A finished sweep has cleared exactly the swept bits and left every other bit alone. */
  ghost predicate SweptMemory(c: Config, mem0: seq<bv8>, mem: seq<bv8>)
    requires c.Valid()
  {
    && |mem| == |mem0|
    && forall i :: 0 <= i < 8 * |mem0| ==> (Bit(mem, i) <==> Bit(mem0, i) && !c.Swept(i))
  }

  lemma JoinedIsFree(c: Config, mem0: seq<bv8>, s: State, rounds: seq<nat>)
    requires Inv(c, mem0, s, rounds) && Joined(s)
    ensures s.locks == FreeLocks(c.locks)
  {
    assert forall h :: h in AllHeld(c, s) ==> h == -1;
  }

  lemma JoinedIsSwept(c: Config, mem0: seq<bv8>, s: State, rounds: seq<nat>)
    requires Inv(c, mem0, s, rounds) && Joined(s)
    ensures SweptMemory(c, mem0, s.mem) && s.locks == FreeLocks(c.locks)
  {
    JoinedIsFree(c, mem0, s, rounds);
    forall i | 0 <= i < 8 * |mem0| ensures Bit(s.mem, i) <==> Bit(mem0, i) && !c.Swept(i) {
      if c.Swept(i) {
        var t, m := SweptIsCleared(c, i);
        assert WorkerInv(c, s, rounds, t);
        if m >= rounds[t] {
          GoesDownward(c, t, rounds[t], m);
        }
        assert ClearedBy(c, t, rounds[t], i);
      }
      forall t | 0 <= t < c.n && ClearedBy(c, t, rounds[t], i) ensures c.Swept(i) {
        assert WorkerInv(c, s, rounds, t);
        var m: nat :| m < rounds[t] && i == c.Target(t, m);
        ClearedIsSwept(c, t, m);
      }
    }
  }

  // ----- every run reaches the join ------------------------------------------------------------

  /** No reachable state is stuck: until the join some worker can step. */
  lemma NoDeadlock(c: Config, mem0: seq<bv8>, s: State, rounds: seq<nat>) returns (t: nat)
    requires Inv(c, mem0, s, rounds) && !Joined(s)
    ensures CanStep(c, mem0, s, rounds, t)
  {
    t :| 0 <= t < c.n && !s.ws[t].pc.Done?;
    if !Enabled(c, s, t) {
      var l, held := LockOf(c, Number(c, s, t)), AllHeld(c, s);
      assert l in held;
      t :| 0 <= t < c.n && held[t] == l;
    }
    InvBounded(c, mem0, s, rounds, t);
  }

  function Rank(pc: Pc): nat {
    match pc
    case Head => 5 case Wait => 4 case Read => 3 case Write => 2 case Post => 1 case Done => 0
  }

  /** An upper bound on the steps a worker still takes. */
  function Left(c: Config, w: Worker): nat {
    6 * (if w.j <= c.max + c.n * c.p then c.max + c.n * c.p - w.j else 0) + Rank(w.pc)
  }

  function TotalLeft(c: Config, ws: seq<Worker>): nat {
    if ws == [] then 0 else Left(c, ws[0]) + TotalLeft(c, ws[1..])
  }

  lemma {:induction false} TotalAfter(c: Config, ws: seq<Worker>, t: nat, w: Worker)
    requires t < |ws|
    ensures TotalLeft(c, ws[t := w]) == TotalLeft(c, ws) - Left(c, ws[t]) + Left(c, w)
  {
    if t > 0 {
      TotalAfter(c, ws[1..], t - 1, w);
      assert ws[t := w][1..] == ws[1..][t - 1 := w];
    } else {
      assert ws[t := w][1..] == ws[1..];
    }
  }

  lemma OwnStepRunsOut(c: Config, mem0: seq<bv8>, s: State, rounds: seq<nat>, t: nat)
    requires CanStep(c, mem0, s, rounds, t)
    ensures Left(c, Step(c, s, t).ws[t]) < Left(c, s.ws[t])
  {
    if s.ws[t].pc.Post? {
      NoWrap(c, mem0, s, rounds, t);
      assert WorkerInv(c, s, rounds, t);
      CountersFit(c, t, rounds[t]);
    }
  }

  lemma StepsRunOut(c: Config, mem0: seq<bv8>, s: State, rounds: seq<nat>, t: nat)
    requires CanStep(c, mem0, s, rounds, t)
    ensures TotalLeft(c, Step(c, s, t).ws) < TotalLeft(c, s.ws)
  {
    OwnStepRunsOut(c, mem0, s, rounds, t);
    TotalAfter(c, s.ws, t, Step(c, s, t).ws[t]);
  }

  /** Any enabled step of any worker is inside the array, keeps the invariant and makes progress. */
  lemma SafeStep(c: Config, mem0: seq<bv8>, s: State, rounds: seq<nat>, t: nat) returns (rounds': seq<nat>)
    requires Inv(c, mem0, s, rounds) && t < c.n && Enabled(c, s, t)
    ensures Bounded(c, s, t)
    ensures Inv(c, mem0, Step(c, s, t), rounds')
    ensures TotalLeft(c, Step(c, s, t).ws) < TotalLeft(c, s.ws)
  {
    InvBounded(c, mem0, s, rounds, t);
    StepKeepsInv(c, mem0, s, rounds, t);
    StepsRunOut(c, mem0, s, rounds, t);
    rounds' := NextRounds(s, rounds, t);
  }

  /** A run: consecutive states are related by a step of some worker. */
  ghost predicate Next(c: Config, s: State, s': State) {
    && Shaped(c, s)
    && exists t :: 0 <= t < c.n && Bounded(c, s, t) && Enabled(c, s, t) && s' == Step(c, s, t)
  }

  ghost predicate Run(c: Config, mem0: seq<bv8>, run: seq<State>) {
    && |run| >= 1 && run[0] == Init(c, mem0)
    && forall k :: 0 <= k < |run| - 1 ==> Next(c, run[k], run[k + 1])
  }

  lemma {:induction false} RunInv(c: Config, mem0: seq<bv8>, run: seq<State>) returns (rounds: seq<nat>)
    requires c.Valid() && c.RoomIn(|mem0|) && Run(c, mem0, run)
    ensures Inv(c, mem0, run[|run| - 1], rounds)
    ensures |run| - 1 + TotalLeft(c, run[|run| - 1].ws) <= TotalLeft(c, run[0].ws)
  {
    var k := |run| - 1;
    if k == 0 {
      InitInv(c, mem0);
      rounds := seq(c.n, _ => 0);
    } else {
      assert Next(c, run[k - 1], run[k - 1 + 1]);
      var rounds0 := RunInv(c, mem0, run[..k]);
      var t :| 0 <= t < c.n && Bounded(c, run[k - 1], t) && Enabled(c, run[k - 1], t) &&
               run[k] == Step(c, run[k - 1], t);
      rounds := SafeStep(c, mem0, run[k - 1], rounds0, t);
    }
  }

  /** Safety over every interleaving: a run that has reached the join has swept the memory;
      a run that has not can go on, and no run is longer than the initial bound. */
  lemma EveryRun(c: Config, mem0: seq<bv8>, run: seq<State>)
    requires c.Valid() && c.RoomIn(|mem0|) && Run(c, mem0, run)
    ensures var s := run[|run| - 1];
      && (Joined(s) ==> SweptMemory(c, mem0, s.mem) && s.locks == FreeLocks(c.locks))
      && (!Joined(s) ==> exists s' :: Next(c, s, s'))
    ensures |run| - 1 <= TotalLeft(c, Init(c, mem0).ws)
  {
    var s := run[|run| - 1];
    var rounds := RunInv(c, mem0, run);
    if Joined(s) {
      JoinedIsSwept(c, mem0, s, rounds);
    } else {
      var t := NoDeadlock(c, mem0, s, rounds);
      assert Next(c, s, Step(c, s, t));
    }
  }

  /** The critical section is exclusive per byte in every reachable state. */
  lemma EveryRunExcludes(c: Config, mem0: seq<bv8>, run: seq<State>, t: nat, u: nat)
    requires c.Valid() && c.RoomIn(|mem0|) && Run(c, mem0, run)
    requires t < c.n && u < c.n && t != u
    ensures var s := run[|run| - 1];
      |s.ws| == c.n &&
      (Holding(s.ws[t]) && Holding(s.ws[u]) ==> Number(c, s, t) / 8 != Number(c, s, u) / 8)
  {
    var rounds := RunInv(c, mem0, run);
    var s := run[|run| - 1];
    if Holding(s.ws[t]) && Holding(s.ws[u]) {
      DifferentBytes(c, s, t, u);
    }
  }
}
