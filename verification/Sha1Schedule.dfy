/** The sixteen-word schedule kept in place, and the rounds with rotating roles, as both
    implementations of SHA-1 have them. */
module Sha1Schedule {
  import opened Sha1

  /** The two implementations, which write the same steps in their own way. */
  datatype Form = WsSha1 | Sha1Hpp

  /** The words hold the last sixteen of the schedule, each in the slot of its number modulo 16. */
  ghost predicate Holds(x: seq<Word>, block: seq<Octet>, t: nat)
    requires |block| == 64
  {
    && |x| == 16
    && forall k | (if t < 16 then 0 else t - 16) <= k < (if t < 16 then 16 else t) :: x[k % 16] == W(block, k)
  }

  lemma SlotsDiffer(k: nat, t: nat)
    requires k < t < k + 16
    ensures k % 16 != t % 16
  {
  }

  /** Writing the next word over the one sixteen before it. */
  lemma NextWord(x: seq<Word>, block: seq<Octet>, t: nat)
    requires |block| == 64 && t >= 16 && Holds(x, block, t)
    ensures Mix(x[(t - 3) % 16], x[(t - 8) % 16], x[(t - 14) % 16], x[t % 16]) == W(block, t)
    ensures Holds(x[t % 16 := W(block, t)], block, t + 1)
  {
    assert (t - 16) % 16 == t % 16;
    hide Mix, WordAt;
    forall k | t - 15 <= k < t + 1 ensures x[t % 16 := W(block, t)][k % 16] == W(block, k) {
      if k < t {
        SlotsDiffer(k, t);
      }
    }
  }

  /** The words in the order in which the macro `M` takes them. */
  function MacroM(x16: Word, x14: Word, x8: Word, x3: Word): Word { Rol(x16 ^ x14 ^ x8 ^ x3, 1) }

  lemma MixOrder(x16: Word, x14: Word, x8: Word, x3: Word)
    ensures MacroM(x16, x14, x8, x3) == Mix(x3, x8, x14, x16)
  {
    assert x16 ^ x14 ^ x8 ^ x3 == x3 ^ x8 ^ x14 ^ x16;
  }

  /** The macro `M`, and `SHA1_LOAD`: the schedule word of round t, kept in place. */
  method ScheduleWord(form: Form, x: array<Word>, t: nat, ghost block: seq<Octet>) returns (m: Word)
    requires x.Length == 16 && |block| == 64 && t < 80 && Holds(x[..], block, t)
    modifies x
    ensures m == W(block, t) && Holds(x[..], block, t + 1)
  {
    if t < 16 {
      assert x[..][t % 16] == W(block, t);
      m := x[t];
      return;
    }
    hide Mix, MacroM, W, Holds;
    NextWord(x[..], block, t);
    MixOrder(x[t % 16], x[(t - 14) % 16], x[(t - 8) % 16], x[(t - 3) % 16]);
    if form == WsSha1 {
      m := MacroM(x[t % 16], x[(t - 14) % 16], x[(t - 8) % 16], x[(t - 3) % 16]);
    } else {
      m := Mix(x[(t + 13) % 16], x[(t + 8) % 16], x[(t + 2) % 16], x[t % 16]);
    }
    x[t % 16] := m;
  }

  /** The functions as written in ws_sha1.cpp. */
  function Mixed(t: nat, x: Word, y: Word, z: Word): Word {
    if t < 20 then z ^ (x & (y ^ z)) else if 40 <= t < 60 then (x & y) | (z & (x | y)) else x ^ y ^ z
  }

  /** The functions as written in sha1.hpp. */
  function Muxed(t: nat, u: Word, x: Word, y: Word): Word {
    if t < 20 then (u & (x ^ y)) ^ y else if 40 <= t < 60 then ((u | x) & y) | (u & x) else u ^ x ^ y
  }

  lemma MixedIsF(t: nat, x: Word, y: Word, z: Word)
    ensures Mixed(t, x, y, z) == F(t, x, y, z)
    ensures Muxed(t, x, y, z) == F(t, x, y, z)
  {
    ChByMux(x, y, z);
    MajByOr(x, y, z);
  }

  /** The two orders in which the implementations add up a round. */
  function AddedLast(e: Word, p: Word, q: Word, k: Word, w: Word): Word { e + (p + q + k + w) }
  function AddedFirst(e: Word, p: Word, q: Word, k: Word, w: Word): Word { e + (q + w + k + p) }

  lemma SumOrder(e: Word, p: Word, q: Word, k: Word, w: Word)
    ensures AddedLast(e, p, q, k, w) == Sum(p, q, e, k, w)
    ensures AddedFirst(e, p, q, k, w) == Sum(p, q, e, k, w)
  {
  }

  /** What the variable in the place of e gets in a round: the macro `R` of ws_sha1.cpp. */
  function MacroR(t: nat, a: Word, b: Word, c: Word, d: Word, e: Word, m: Word): Word {
    AddedLast(e, Rol(a, 5), Mixed(t, b, c, d), K(t), m)
  }

  /** The macros `SHA1_ROUND_0` to `SHA1_ROUND_4` of sha1.hpp. */
  function MacroRound(t: nat, a: Word, b: Word, c: Word, d: Word, e: Word, m: Word): Word {
    AddedFirst(e, Rol(a, 5), Muxed(t, b, c, d), K(t), m)
  }

  lemma RoundsAgree(t: nat, a: Word, b: Word, c: Word, d: Word, e: Word, m: Word)
    ensures MacroR(t, a, b, c, d, e, m) == Temp(Registers(a, b, c, d, e), t, m)
    ensures MacroRound(t, a, b, c, d, e, m) == Temp(Registers(a, b, c, d, e), t, m)
  {
    hide Mixed, Muxed, F, K, Rol, Sum, AddedLast, AddedFirst;
    MixedIsF(t, b, c, d);
    SumOrder(e, Rol(a, 5), F(t, b, c, d), K(t), m);
  }

  /** After a round the variables stand for the next working variables, each in a new role. */
  lemma RolesMoveOn(h: Registers, block: seq<Octet>, t: nat, a: Word, b: Word, c: Word, d: Word, e: Word)
    requires |block| == 64 && Rounds(h, block, t) == Registers(a, b, c, d, e)
    ensures Rounds(h, block, t + 1) == Registers(Temp(Registers(a, b, c, d, e), t, W(block, t)), a, Rol(b, 30), c, d)
  {
    hide W, Temp, Rol;
  }

  /** The words of a block, in the first sixteen slots. */
  method LoadWords(block: seq<Octet>) returns (x: array<Word>)
    requires |block| == 64
    ensures fresh(x) && x.Length == 16 && Holds(x[..], block, 0)
  {
    x := new Word[16];
    for i := 0 to 16
      invariant forall k | 0 <= k < i :: x[k] == WordAt(block, k)
    {
      x[i] := WordAt(block, i);
    }
    hide WordAt;
    assert forall k | 0 <= k < 16 :: x[..][k % 16] == x[k];
  }

  /** One round: the new values of the variables in the places of e and b. */
  method RoundR(form: Form, x: array<Word>, t: nat, a: Word, b: Word, c: Word, d: Word, e: Word,
                ghost h: Registers, ghost block: seq<Octet>) returns (e': Word, b': Word)
    requires x.Length == 16 && |block| == 64 && t < 80 && Holds(x[..], block, t)
    requires Rounds(h, block, t) == Registers(a, b, c, d, e)
    modifies x
    ensures Holds(x[..], block, t + 1) && Rounds(h, block, t + 1) == Registers(e', a, b', c, d)
  {
    hide *;
    var m := ScheduleWord(form, x, t, block);
    RoundsAgree(t, a, b, c, d, e, m);
    RolesMoveOn(h, block, t, a, b, c, d, e);
    e' := if form == WsSha1 then MacroR(t, a, b, c, d, e, m) else MacroRound(t, a, b, c, d, e, m);
    b' := Rol(b, 30);
  }

  /** Five rounds, after which every variable is back in its role. */
  method FiveRounds(form: Form, x: array<Word>, t: nat, a0: Word, b0: Word, c0: Word, d0: Word, e0: Word,
                    ghost h: Registers, ghost block: seq<Octet>)
    returns (a: Word, b: Word, c: Word, d: Word, e: Word)
    requires x.Length == 16 && |block| == 64 && t + 5 <= 80 && Holds(x[..], block, t)
    requires Rounds(h, block, t) == Registers(a0, b0, c0, d0, e0)
    modifies x
    ensures Holds(x[..], block, t + 5) && Rounds(h, block, t + 5) == Registers(a, b, c, d, e)
  {
    hide *;
    a, b, c, d, e := a0, b0, c0, d0, e0;
    e, b := RoundR(form, x, t, a, b, c, d, e, h, block);
    d, a := RoundR(form, x, t + 1, e, a, b, c, d, h, block);
    c, e := RoundR(form, x, t + 2, d, e, a, b, c, h, block);
    b, d := RoundR(form, x, t + 3, c, d, e, a, b, h, block);
    a, c := RoundR(form, x, t + 4, b, c, d, e, a, h, block);
  }

  /** Registers as the implementation's variables hold them when its block is done. */
  method Rotate80(form: Form, h: Registers, block: seq<Octet>) returns (r: Registers)
    requires |block| == 64
    ensures r == Rounds(h, block, 80)
  {
    var x := LoadWords(block);
    var a, b, c, d, e := h.a, h.b, h.c, h.d, h.e;
    assert Rounds(h, block, 0) == h == Registers(a, b, c, d, e);
    hide *;
    for i := 0 to 16
      invariant fresh(x) && x.Length == 16 && Holds(x[..], block, 5 * i)
      invariant Rounds(h, block, 5 * i) == Registers(a, b, c, d, e)
    {
      a, b, c, d, e := FiveRounds(form, x, 5 * i, a, b, c, d, e, h, block);
    }
    r := Registers(a, b, c, d, e);
  }
}
