/** The bitwise operators of C on unsigned integers, and what they mean arithmetically. */
module Bits {

  const U32: nat := 0x1_0000_0000

  function Pow2(n: nat): (p: nat)
    ensures p > 0
  {
    if n == 0 then 1 else 2 * Pow2(n - 1)
  }

  function Or(a: nat, b: nat): nat
    decreases a + b
  {
    if a == 0 then b else if b == 0 then a
    else 2 * Or(a / 2, b / 2) + if a % 2 == 1 || b % 2 == 1 then 1 else 0
  }

  function And(a: nat, b: nat): nat
  {
    if a == 0 || b == 0 then 0
    else 2 * And(a / 2, b / 2) + if a % 2 == 1 && b % 2 == 1 then 1 else 0
  }

  /** `~a` on 32 bits. */
  function Not(a: nat): nat
    requires a < U32
  {
    U32 - 1 - a
  }

  function Shr(a: nat, n: nat): nat
    decreases n
  {
    if n == 0 then a else Shr(a / 2, n - 1)
  }

  /** `q << n`, without a width. */
  function Shl(q: nat, n: nat): nat
  {
    if n == 0 then q else 2 * Shl(q, n - 1)
  }

  /** Bit `i` of `a`. */
  predicate Bit(a: nat, i: nat)
    decreases i
  {
    if i == 0 then a % 2 == 1 else Bit(a / 2, i - 1)
  }

  lemma {:induction false} BitOfShr(a: nat, i: nat)
    ensures And(Shr(a, i), 1) == if Bit(a, i) then 1 else 0
    decreases i
  {
    if i > 0 { BitOfShr(a / 2, i - 1); }
  }

  lemma {:induction false} BitOfZero(i: nat)
    ensures !Bit(0, i)
  {
    if i > 0 { BitOfZero(i - 1); }
  }

  lemma {:induction false} BitOfOr(a: nat, b: nat, i: nat)
    ensures Bit(Or(a, b), i) <==> Bit(a, i) || Bit(b, i)
    decreases i
  {
    if a == 0 || b == 0 {
      BitOfZero(i);
    } else if i > 0 {
      BitOfOr(a / 2, b / 2, i - 1);
    }
  }

  lemma {:induction false} BitOfAnd(a: nat, b: nat, i: nat)
    ensures Bit(And(a, b), i) <==> Bit(a, i) && Bit(b, i)
    decreases i
  {
    if a == 0 || b == 0 {
      BitOfZero(i);
    } else if i > 0 {
      BitOfAnd(a / 2, b / 2, i - 1);
    }
  }

  lemma {:induction false} BitOfPow2(n: nat, i: nat)
    ensures Bit(Pow2(n), i) <==> i == n
  {
    if n == 0 {
      if i > 0 { BitOfZero(i - 1); }
    } else if i > 0 {
      BitOfPow2(n - 1, i - 1);
    }
  }

  lemma {:induction false} BitOfComplement(a: nat, w: nat, i: nat)
    requires a < Pow2(w) && i < w
    ensures Bit(Pow2(w) - 1 - a, i) <==> !Bit(a, i)
    decreases i
  {
    var c := Pow2(w) - 1 - a;
    if i > 0 {
      assert c / 2 == Pow2(w - 1) - 1 - a / 2;
      BitOfComplement(a / 2, w - 1, i - 1);
    } else {
      assert c % 2 == 1 - a % 2;
    }
  }

  lemma {:induction false} Pow2Of32()
    ensures Pow2(32) == U32 && Pow2(12) == 0x1000 && Pow2(10) == 0x400 && Pow2(22) == 0x40_0000
  {
    assert Pow2(8) == 0x100;
    assert Pow2(16) == 0x1_0000;
    assert Pow2(24) == 0x100_0000;
  }

  /** Setting bit `n` of a word sets that bit and no other. */
  lemma {:induction false} SetBit(a: nat, n: nat, i: nat)
    ensures Bit(Or(a, Pow2(n)), i) <==> i == n || Bit(a, i)
  {
    BitOfOr(a, Pow2(n), i);
    BitOfPow2(n, i);
  }

  /** Clearing bit `n` of a word clears that bit and no other. */
  lemma {:induction false} ClearBit(a: nat, n: nat, i: nat)
    requires n < 32 && i < 32 && Pow2(n) < U32
    ensures Bit(And(a, Not(Pow2(n))), i) <==> i != n && Bit(a, i)
  {
    Pow2Of32();
    BitOfAnd(a, Not(Pow2(n)), i);
    BitOfComplement(Pow2(n), 32, i);
    BitOfPow2(n, i);
  }

  lemma {:induction false} Pow2Less(m: nat, n: nat)
    requires m < n
    ensures Pow2(m) < Pow2(n)
  {
    if m > 0 { Pow2Less(m - 1, n - 1); }
    else if n > 1 { Pow2Less(m, n - 1); }
  }

  /** `a | b` stays within the width of `a` and `b`. */
  lemma {:induction false} OrWidth(a: nat, b: nat, w: nat)
    requires a < Pow2(w) && b < Pow2(w)
    ensures Or(a, b) < Pow2(w)
    decreases w
  {
    if a != 0 && b != 0 { OrWidth(a / 2, b / 2, w - 1); }
  }

  lemma {:induction false} AndBound(a: nat, b: nat)
    ensures And(a, b) <= a && And(a, b) <= b
    decreases a
  {
    if a != 0 && b != 0 { AndBound(a / 2, b / 2); }
  }

  /** Or-ing in bits below a multiple of `2^n` is addition. */
  lemma {:induction false} OrIsPlus(q: nat, b: nat, n: nat)
    requires b < Pow2(n)
    ensures Or(Shl(q, n), b) == Shl(q, n) + b
    decreases n
  {
    if n > 0 { OrIsPlus(q, b / 2, n - 1); }
  }

  /** Masking with the low `n` ones leaves the remainder by `2^n`. */
  lemma {:induction false} LowMask(q: nat, r: nat, n: nat)
    requires r < Pow2(n)
    ensures And(Shl(q, n) + r, Pow2(n) - 1) == r
    decreases n
  {
    if n > 0 {
      var a := Shl(q, n) + r;
      assert a / 2 == Shl(q, n - 1) + r / 2 && a % 2 == r % 2;
      LowMask(q, r / 2, n - 1);
    }
  }

  /** Shifting right undoes shifting left, and drops the bits below. */
  lemma {:induction false} ShrOfShl(q: nat, r: nat, n: nat)
    requires r < Pow2(n)
    ensures Shr(Shl(q, n) + r, n) == q
    decreases n
  {
    if n > 0 {
      assert (Shl(q, n) + r) / 2 == Shl(q, n - 1) + r / 2;
      ShrOfShl(q, r / 2, n - 1);
    }
  }

  lemma {:induction false} ShlBy4(q: nat, n: nat)
    ensures Shl(q, n + 4) == 16 * Shl(q, n)
  {
    assert Shl(q, n + 2) == 4 * Shl(q, n);
    assert Shl(q, n + 4) == 4 * Shl(q, n + 2);
  }

  /** The shifts of page tables as products. */
  lemma {:induction false} ShlValues(q: nat)
    ensures Shl(q, 1) == 2 * q && Shl(q, 10) == 1024 * q && Shl(q, 12) == 4096 * q && Shl(q, 22) == 4194304 * q
  {
    ShlBy4(q, 0);
    ShlBy4(q, 4);
    ShlBy4(q, 8);
    ShlBy4(q, 12);
    ShlBy4(q, 16);
    assert Shl(q, 10) == 4 * Shl(q, 8) && Shl(q, 22) == 4 * Shl(q, 20);
  }

  lemma {:induction false} QuotientUnique(a: int, p: int, q: int, r: int)
    requires p > 0 && a == q * p + r && 0 <= r < p
    ensures a / p == q && a % p == r
  {
    var e := a / p;
    var d := e - q;
    assert e * p == q * p + d * p;
    if d != 0 { LargeMultiple(d, p); }
  }

  lemma {:induction false} LargeMultiple(d: int, p: int)
    requires p > 0 && d != 0
    ensures d * p >= p || d * p <= -p
  {
    if d > 0 {
      assert d * p == p + (d - 1) * p;
    } else {
      assert d * p == -p - (-d - 1) * p;
    }
  }

  /** A mask and its complement split a value into two parts. */
  lemma {:induction false} MaskSplit(a: nat, b: nat, w: nat)
    requires a < Pow2(w) && b < Pow2(w)
    ensures And(a, b) + And(a, Pow2(w) - 1 - b) == a
    decreases w
  {
    if w > 0 {
      var c := Pow2(w) - 1 - b;
      assert c / 2 == Pow2(w - 1) - 1 - b / 2 && c % 2 == 1 - b % 2;
      MaskSplit(a / 2, b / 2, w - 1);
    }
  }

  /** Masking a 32-bit value with `~(2^n - 1)` leaves the multiple of `2^n` below it. */
  lemma {:induction false} HighMask(q: nat, r: nat, n: nat)
    requires Shl(q, n) + r < U32 && Pow2(n) <= U32 && r < Pow2(n)
    ensures And(Shl(q, n) + r, Not(Pow2(n) - 1)) == Shl(q, n)
  {
    Pow2Of32();
    LowMask(q, r, n);
    MaskSplit(Shl(q, n) + r, Pow2(n) - 1, 32);
  }
}
