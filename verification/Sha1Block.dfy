/** sha1_process: a 16-word ring and five renamed registers, against the 80-word form of the standard. */
module Sha1Block {
  import opened Blocks
  import opened Sha1Long
  import S = Sha1Spec

  /** Five unsigned longs in the roles a to e. */
  function Roles(a: ulong, b: ulong, c: ulong, d: ulong, e: ulong): S.Regs {
    S.Regs(Low(a), Low(b), Low(c), Low(d), Low(e))
  }

  function RegsOf(s: seq<ulong>): S.Regs
    requires |s| == 5
  {
    Roles(s[0], s[1], s[2], s[3], s[4])
  }

  /** First schedule word in the ring just before round t. */
  function Base(t: nat): nat {
    if t <= 16 then 0 else t - 16
  }

  /** Slot s mod 16 holds word s, for the sixteen words from Base(t) on. */
  ghost predicate Ring(w: seq<ulong>, block: seq<byte>, t: nat)
    requires |block| == S.SIZE
  {
    |w| == 16 && forall s :: Base(t) <= s < Base(t) + 16 ==> Low(w[s % 16]) == S.Schedule(block, s)
  }

  lemma RingAt(w: seq<ulong>, block: seq<byte>, t: nat, back: nat)
    requires |block| == S.SIZE && Ring(w, block, t) && 16 <= t && 1 <= back <= 16
    ensures Low(w[(t - back) % 16]) == S.Schedule(block, t - back)
  {
  }

  lemma RingStep(w: seq<ulong>, block: seq<byte>, t: nat, x: ulong)
    requires |block| == S.SIZE && Ring(w, block, t) && 16 <= t && Low(x) == S.Schedule(block, t)
    ensures Ring(w[t % 16 := x], block, t + 1)
  {
    hide Low, S.Schedule;
    forall s | t - 15 <= s < t + 1 ensures Low(w[t % 16 := x][s % 16]) == S.Schedule(block, s) {
      if s != t {
        assert s % 16 != t % 16;
      }
    }
  }

  lemma LowScheduled(data: seq<byte>, i: nat)
    requires |data| == S.SIZE && i < 16
    ensures Low(Get(data[4 * i..4 * i + 4])) == S.Schedule(data, i)
  {
    hide Low, S.Pack, S.Extend, Get;
    LowGet(data[4 * i..4 * i + 4]);
  }

  lemma RingAtStart(w: seq<ulong>, block: seq<byte>)
    requires |block| == S.SIZE && |w| == 16 && forall s :: 0 <= s < 16 ==> Low(w[s]) == S.Schedule(block, s)
    ensures Ring(w, block, 0)
  {
    hide Low, S.Schedule;
    forall s | 0 <= s < 16 ensures Low(w[s % 16]) == S.Schedule(block, s) {
      assert s % 16 == s;
    }
  }

  method Load(data: seq<byte>) returns (w: array<ulong>)
    requires |data| == S.SIZE
    ensures fresh(w) && Ring(w[..], data, 0)
  {
    hide Low, S.Schedule, Get, Ring;
    w := new ulong[16];
    for i := 0 to 16
      invariant forall s :: 0 <= s < i ==> Low(w[s]) == S.Schedule(data, s)
    {
      w[i] := Get(data[4 * i..4 * i + 4]);
      LowScheduled(data, i);
    }
    RingAtStart(w[..], data);
  }

  lemma LowExtend(wide: bool, a: ulong, b: ulong, c: ulong, d: ulong)
    ensures Low(Rotate1(wide, Xor4(a, b, c, d))) == S.Extend(Low(a), Low(b), Low(c), Low(d))
  {
    hide Low, Rotate1, Xor4, S.Rotl1, S.Xor4;
    LowRotate1(wide, Xor4(a, b, c, d));
    LowXor4(a, b, c, d);
  }

  /** The operand of round t: W[t] while the block lasts, then the macro R, which overwrites a slot of the ring. */
  method Operand(wide: bool, w: array<ulong>, t: nat, ghost data: seq<byte>) returns (x: ulong)
    requires |data| == S.SIZE && Ring(w[..], data, t)
    modifies w
    ensures Ring(w[..], data, t + 1) && Low(x) == S.Schedule(data, t)
  {
    hide Low, S.Pack, Rotate1, Xor4, S.Extend;
    if t < 16 {
      assert t % 16 == t;
      x := w[t];
    } else {
      RingAt(w[..], data, t, 3);
      RingAt(w[..], data, t, 8);
      RingAt(w[..], data, t, 14);
      RingAt(w[..], data, t, 16);
      assert (t - 16) % 16 == t % 16;
      LowExtend(wide, w[(t - 3) % 16], w[(t - 8) % 16], w[(t - 14) % 16], w[t % 16]);
      var temp := Xor4(w[(t - 3) % 16], w[(t - 8) % 16], w[(t - 14) % 16], w[t % 16]);
      x := Rotate1(wide, temp);
      RingStep(w[..], data, t, x);
      w[t % 16] := x;
    }
  }

  lemma LowTemp(wide: bool, t: nat, a: ulong, b: ulong, c: ulong, d: ulong, e: ulong, x: ulong)
    ensures Low(Plus(wide, e, Plus(wide, Plus(wide, Plus(wide, Rotate5(wide, a), F(t, b, c, d)), K(t)), x))) ==
            S.Temp(Roles(a, b, c, d, e), t, Low(x))
  {
    hide Low, Plus, Rotate5, F, K, S.Add, S.Rotl5, S.F, S.K;
    var r, f, k := Rotate5(wide, a), F(t, b, c, d), K(t);
    LowRotate5(wide, a);
    LowF(t, b, c, d);
    LowK(t);
    LowPlus(wide, r, f);
    LowPlus(wide, Plus(wide, r, f), k);
    LowPlus(wide, Plus(wide, Plus(wide, r, f), k), x);
    LowPlus(wide, e, Plus(wide, Plus(wide, Plus(wide, r, f), k), x));
  }

  /** The macro P: only e and b are stored, and e takes over the role of a. */
  method P(wide: bool, t: nat, a: ulong, b: ulong, c: ulong, d: ulong, e: ulong, x: ulong)
    returns (b': ulong, e': ulong)
    ensures Roles(e', a, b', c, d) == S.Round(Roles(a, b, c, d, e), t, Low(x))
  {
    hide Low, Plus, Rotate5, Rotate30, F, K, S.Rotl30, S.Temp;
    LowTemp(wide, t, a, b, c, d, e, x);
    LowRotate30(wide, b);
    e' := Plus(wide, e, Plus(wide, Plus(wide, Plus(wide, Rotate5(wide, a), F(t, b, c, d)), K(t)), x));
    b' := Rotate30(wide, b);
  }

  /** One renamed round with its operand. */
  method Step(wide: bool, w: array<ulong>, t: nat, a: ulong, b: ulong, c: ulong, d: ulong, e: ulong,
              ghost v: S.Regs, ghost data: seq<byte>) returns (b': ulong, e': ulong)
    requires |data| == S.SIZE && Ring(w[..], data, t) && Roles(a, b, c, d, e) == S.Rounds(v, data, t)
    modifies w
    ensures Ring(w[..], data, t + 1) && Roles(e', a, b', c, d) == S.Rounds(v, data, t + 1)
  {
    hide Low, Ring, S.Round, S.Schedule;
    var x := Operand(wide, w, t, data);
    b', e' := P(wide, t, a, b, c, d, e, x);
  }

  /** sha1_process: eighty rounds in sixteen rows of five, each row bringing every role back to its own register. */
  method Process(wide: bool, state: array<ulong>, data: seq<byte>)
    requires state.Length == 5 && |data| == S.SIZE
    modifies state
    ensures RegsOf(state[..]) == S.Compress(old(RegsOf(state[..])), data)
  {
    hide Low, Ring, S.Rounds, Roles;
    ghost var v := RegsOf(state[..]);
    var w := Load(data);
    var A, B, C, D, E := state[0], state[1], state[2], state[3], state[4];
    assert Roles(A, B, C, D, E) == S.Rounds(v, data, 0) by { StartRounds(v, data); }
    for row := 0 to 16
      invariant Ring(w[..], data, 5 * row) && Roles(A, B, C, D, E) == S.Rounds(v, data, 5 * row)
      invariant state[..] == old(state[..]) && fresh(w)
    {
      B, E := Step(wide, w, 5 * row, A, B, C, D, E, v, data);
      A, D := Step(wide, w, 5 * row + 1, E, A, B, C, D, v, data);
      E, C := Step(wide, w, 5 * row + 2, D, E, A, B, C, v, data);
      D, B := Step(wide, w, 5 * row + 3, C, D, E, A, B, v, data);
      C, A := Step(wide, w, 5 * row + 4, B, C, D, E, A, v, data);
    }
    AddState(wide, state, A, B, C, D, E);
  }

  lemma StartRounds(v: S.Regs, data: seq<byte>)
    requires |data| == S.SIZE
    ensures S.Rounds(v, data, 0) == v
  {
  }

  lemma RolesPlus(wide: bool, s: ulong, t: ulong, u: ulong, v: ulong, w: ulong,
                  a: ulong, b: ulong, c: ulong, d: ulong, e: ulong)
    ensures Roles(Plus(wide, s, a), Plus(wide, t, b), Plus(wide, u, c), Plus(wide, v, d), Plus(wide, w, e)) ==
            S.AddRegs(Roles(s, t, u, v, w), Roles(a, b, c, d, e))
  {
    hide Low, Plus, S.Add;
    LowPlus(wide, s, a);
    LowPlus(wide, t, b);
    LowPlus(wide, u, c);
    LowPlus(wide, v, d);
    LowPlus(wide, w, e);
  }

  method AddState(wide: bool, state: array<ulong>, a: ulong, b: ulong, c: ulong, d: ulong, e: ulong)
    requires state.Length == 5
    modifies state
    ensures RegsOf(state[..]) == S.AddRegs(old(RegsOf(state[..])), Roles(a, b, c, d, e))
  {
    hide Roles, Plus, S.AddRegs;
    RolesPlus(wide, state[0], state[1], state[2], state[3], state[4], a, b, c, d, e);
    state[0] := Plus(wide, state[0], a);
    state[1] := Plus(wide, state[1], b);
    state[2] := Plus(wide, state[2], c);
    state[3] := Plus(wide, state[3], d);
    state[4] := Plus(wide, state[4], e);
  }
}
