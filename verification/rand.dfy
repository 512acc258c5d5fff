/** The Park-Miller generator of librfn/rand.c in David Carta's form, without a division. */
module Rand {
  import opened Residues
  import opened Words

  const P := 0x7fff_ffff
  const MULTIPLIER := 16807
  /** The inverse of the multiplier modulo P. */
  const INVERSE := 1407677000

  /** Results of 32-bit unsigned operations that do not wrap around. */
  predicate U32(x: int) {
    0 <= x < WORD
  }

  class Seed {
    var seed: nat

    constructor (s: nat)
      ensures seed == s
    {
      seed := s;
    }

    /** rand31_r. The masks and shifts are remainders and quotients of powers of two. */
    method Rand31R() returns (r: nat)
      requires U32(seed)
      modifies this
      ensures r == seed == Next(old(seed))
    {
      ghost var s := seed;
      NoWrap(s);
      Carta(s);
      var lo := Mul32(MULTIPLIER, seed % 0x1_0000);
      var hi := Mul32(MULTIPLIER, seed / 0x1_0000);
      lo := Add32(lo, Mul32(hi % 0x8000, 0x1_0000));
      lo := Add32(lo, hi / 0x8000);
      assert lo == Parts(s);
      Reduced(lo);
      if lo > P {
        lo := lo - P;
      }
      seed := lo;
      r := seed;
    }
  }

  function Mul32(a: nat, b: nat): nat {
    a * b % WORD
  }

  function Add32(a: nat, b: nat): nat {
    (a + b) % WORD
  }

  /** No intermediate result wraps around. */
  lemma NoWrap(s: nat)
    requires U32(s)
    ensures Mul32(MULTIPLIER, s % 0x1_0000) == MULTIPLIER * (s % 0x1_0000)
    ensures Mul32(MULTIPLIER, s / 0x1_0000) == MULTIPLIER * (s / 0x1_0000)
    ensures var lo, hi := MULTIPLIER * (s % 0x1_0000), MULTIPLIER * (s / 0x1_0000);
      && Mul32(hi % 0x8000, 0x1_0000) == hi % 0x8000 * 0x1_0000
      && Add32(lo, hi % 0x8000 * 0x1_0000) == lo + hi % 0x8000 * 0x1_0000
      && Add32(lo + hi % 0x8000 * 0x1_0000, hi / 0x8000) == Parts(s)
  {
  }

  lemma Reduced(lo: nat)
    requires lo <= 2 * P
    ensures (if lo > P then lo - P else lo) == if lo % P == 0 && lo > 0 then P else lo % P
  {
  }

  /** The generator as a function: the residue, with P standing for zero unless the seed is zero. */
  function Next(s: nat): (r: nat) {
    var r := MULTIPLIER * s % P;
    if r == 0 && s > 0 then P else r
  }

  /** The sum of the parts. */
  function Parts(s: nat): nat {
    MULTIPLIER * (s % 0x1_0000) + MULTIPLIER * (s / 0x1_0000) % 0x8000 * 0x1_0000 + MULTIPLIER * (s / 0x1_0000) / 0x8000
  }

  /** Carta's observation: 2^31 is 1 modulo P, so that the upper bits of the product can be added to the
      lower ones. */
  lemma Carta(s: nat)
    requires s < WORD
    ensures Parts(s) % P == MULTIPLIER * s % P
    ensures Parts(s) <= 2 * P && (Parts(s) == 0 <==> s == 0)
  {
    var hi := MULTIPLIER * (s / 0x1_0000);
    assert MULTIPLIER * s == MULTIPLIER * (s % 0x1_0000) + hi * 0x1_0000;
    assert hi == hi / 0x8000 * 0x8000 + hi % 0x8000;
    assert MULTIPLIER * s == Parts(s) + hi / 0x8000 * P;
    AddMultiple(Parts(s), hi / 0x8000, P);
  }

  lemma AddMultiple(x: int, k: int, m: nat)
    requires m > 0
    ensures (x + k * m) % m == x % m
  {
    assert x + k * m == (x / m + k) * m + x % m;
    ModUnique(x + k * m, x / m + k, x % m, m);
  }

  lemma MulMod(a: int, b: int, m: nat)
    requires m > 0
    ensures a * (b % m) % m == a * b % m
  {
    assert a * b == a * (b % m) + a * (b / m) * m by {
      assert b == b / m * m + b % m;
    }
    AddMultiple(a * (b % m), a * (b / m), m);
  }

  // ---------- sequences of random numbers ----------

  /** The seed after n calls. */
  function Iterated(s: nat, n: nat): nat {
    if n == 0 then s else Next(Iterated(s, n - 1))
  }

  function Pow(b: nat, n: nat): nat {
    if n == 0 then 1 else b * Pow(b, n - 1)
  }

  /** The multiplier can be undone modulo P. */
  lemma Undo(s: int)
    ensures INVERSE * (MULTIPLIER * s % P) % P == s % P
  {
    MulMod(INVERSE, MULTIPLIER * s, P);
    assert INVERSE * (MULTIPLIER * s) == s + 11017 * s * P;
    AddMultiple(s, 11017 * s, P);
  }

  /** n calls multiply by the n-th power of the multiplier. */
  lemma {:induction false} IteratedResidue(s: nat, n: nat)
    ensures Iterated(s, n) % P == Pow(MULTIPLIER, n) * s % P
  {
    if n > 0 {
      IteratedResidue(s, n - 1);
      var t := Iterated(s, n - 1);
      assert Next(t) % P == MULTIPLIER * t % P;
      MulMod(MULTIPLIER, t, P);
      MulMod(MULTIPLIER, Pow(MULTIPLIER, n - 1) * s, P);
      assert MULTIPLIER * (Pow(MULTIPLIER, n - 1) * s) == Pow(MULTIPLIER, n) * s;
    }
  }

  /** A seed that is no multiple of P never yields a multiple of P. */
  lemma {:induction false} NeverStuck(s: nat, n: nat)
    requires s % P != 0
    ensures Iterated(s, n) % P != 0
    ensures n > 0 ==> 1 <= Iterated(s, n) < P
  {
    if n > 0 {
      NeverStuck(s, n - 1);
      Undo(Iterated(s, n - 1));
    }
  }

  /** From a seed that is no multiple of P, n calls return the n-th power of the multiplier times the
      seed, modulo P, a number from 1 to P - 1. */
  lemma ParkMiller(s: nat, n: nat)
    requires s % P != 0 && n > 0
    ensures 1 <= Iterated(s, n) < P
    ensures Iterated(s, n) == Pow(MULTIPLIER, n) * s % P
  {
    NeverStuck(s, n);
    IteratedResidue(s, n);
  }

  /** Seeds that differ modulo P never lead to the same number after the same number of calls. */
  lemma {:induction false} NoCollision(s: nat, t: nat, n: nat)
    requires Iterated(s, n) % P == Iterated(t, n) % P
    ensures s % P == t % P
  {
    if n > 0 {
      var a, b := Iterated(s, n - 1), Iterated(t, n - 1);
      assert Next(a) % P == MULTIPLIER * a % P && Next(b) % P == MULTIPLIER * b % P;
      Undo(a);
      Undo(b);
      NoCollision(s, t, n - 1);
    }
  }
}
