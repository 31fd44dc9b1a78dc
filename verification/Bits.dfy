/** Bitwise operators on natural numbers, defined bit by bit, together with the
    arithmetic meaning of every mask the kernel applies. */
module Bits {

  const TWO64: nat := 0x1_0000_0000_0000_0000

  /** A `usize` on the 64-bit target. */
  type Word = w: nat | w < TWO64

  function Pow2(k: nat): (p: nat)
    ensures p > 0
  {
    if k == 0 then 1 else 2 * Pow2(k - 1)
  }

  function And(x: nat, y: nat): nat {
    if x == 0 || y == 0 then 0
    else 2 * And(x / 2, y / 2) + (if x % 2 == 1 && y % 2 == 1 then 1 else 0)
  }

  function Or(x: nat, y: nat): nat {
    if x == 0 then y
    else if y == 0 then x
    else 2 * Or(x / 2, y / 2) + (if x % 2 == 1 || y % 2 == 1 then 1 else 0)
  }

  /** 64-bit complement. */
  function Not(x: Word): Word {
    TWO64 - 1 - x
  }

  /** 64-bit logical shifts; a left shift loses the bits above 63. */
  function Shl(x: Word, k: nat): Word {
    x * Pow2(k) % TWO64
  }

  function Shr(x: Word, k: nat): Word {
    if k == 0 then x else Shr(x / 2, k - 1)
  }

  // ---------------------------------------------------------------- powers

  lemma {:induction false} Pow2Add(a: nat, b: nat)
    ensures Pow2(a + b) == Pow2(a) * Pow2(b)
  {
    if a > 0 {
      Pow2Add(a - 1, b);
      assert Pow2(a + b) == 2 * Pow2(a - 1 + b);
    }
  }

  lemma {:induction false} Pow2Le(a: nat, b: nat)
    requires a <= b
    ensures Pow2(a) <= Pow2(b)
  {
    if a < b {
      Pow2Le(a, b - 1);
    }
  }

  /** The powers that occur in the kernel's shifts and masks. */
  lemma Pow2Values()
    ensures Pow2(2) == 4 && Pow2(4) == 16 && Pow2(9) == 512 && Pow2(10) == 1024
    ensures Pow2(12) == 4096 && Pow2(18) == 0x4_0000 && Pow2(64) == TWO64
  {
    assert Pow2(1) == 2 && Pow2(2) == 4 && Pow2(3) == 8 && Pow2(4) == 16;
    Pow2Add(4, 4);
    assert Pow2(8) == 256 && Pow2(9) == 512 && Pow2(10) == 1024;
    Pow2Add(8, 4);
    Pow2Add(9, 9);
    Pow2Add(8, 8);
    Pow2Add(16, 16);
    Pow2Add(32, 32);
  }

  // ------------------------------------------------------- division helpers

  lemma MulGe(d: nat, n: int)
    ensures n >= 1 ==> d * n >= d
    ensures n <= -1 ==> d * n + d <= 0
  {
  }

  lemma DivDouble(x: nat, p: nat)
    requires p > 0
    ensures x / (2 * p) == x / 2 / p
    ensures x % (2 * p) == 2 * (x / 2 % p) + x % 2
  {
    var q, r := x / 2 / p, x / 2 % p;
    assert x / 2 == p * q + r;
    assert x == (2 * p) * q + (2 * r + x % 2);
    ModUnique(x, 2 * p, q, 2 * r + x % 2);
  }

  lemma ModUnique(x: nat, d: nat, q: nat, r: nat)
    requires x == d * q + r && r < d
    ensures x / d == q && x % d == r
  {
    MulGe(d, q - x / d);
    assert d * q - d * (x / d) == d * (q - x / d);
  }

  /** Shifting right by k is dividing by 2 to the k. */
  lemma {:induction false} ShrDiv(x: Word, k: nat)
    ensures Shr(x, k) == x / Pow2(k)
  {
    if k > 0 {
      ShrDiv(x / 2, k - 1);
      DivDouble(x, Pow2(k - 1));
    }
  }

  // ------------------------------------------------------------------ masks

  lemma AndEven(x: nat, m: nat)
    ensures And(x, 2 * m) == 2 * And(x / 2, m)
  {
  }

  /** The number that the low n bits of x spell. */
  function Low(x: nat, n: nat): nat {
    if n == 0 then 0 else 2 * Low(x / 2, n - 1) + x % 2
  }

  lemma {:induction false} LowIsMod(x: nat, n: nat)
    ensures Low(x, n) == x % Pow2(n)
  {
    if n > 0 {
      LowIsMod(x / 2, n - 1);
      DivDouble(x, Pow2(n - 1));
    }
  }

  lemma {:induction false} AndKeepsLow(x: nat, n: nat)
    ensures And(x, Pow2(n) - 1) == Low(x, n)
  {
    if n > 0 {
      AndKeepsLow(x / 2, n - 1);
      AndOdd(x, Pow2(n - 1) - 1);
    }
  }

  lemma {:induction false} AndKeepsRun(x: nat, n: nat, k: nat)
    requires k <= n
    ensures Pow2(k) <= Pow2(n) && And(x, Pow2(n) - Pow2(k)) == Low(x, n) - Low(x, k)
  {
    Pow2Le(k, n);
    if k == 0 {
      AndKeepsLow(x, n);
    } else {
      AndKeepsRun(x / 2, n - 1, k - 1);
      AndEven(x, Pow2(n - 1) - Pow2(k - 1));
    }
  }

  /** A mask of ones from bit k up to bit n-1 keeps exactly those bits. */
  lemma AndRun(x: nat, n: nat, k: nat)
    requires k <= n
    ensures Pow2(k) <= Pow2(n)
    ensures And(x, Pow2(n) - Pow2(k)) == x % Pow2(n) - x % Pow2(k)
  {
    AndKeepsRun(x, n, k);
    LowIsMod(x, n);
    LowIsMod(x, k);
  }

  lemma {:induction false} Pow2Lt(a: nat, b: nat)
    requires a < b
    ensures Pow2(a) < Pow2(b)
  {
    Pow2Le(a, b - 1);
  }

  /** Or-ing values whose bits do not meet is adding them. */
  lemma {:induction false} OrDisjoint(x: nat, y: nat, k: nat)
    requires x % Pow2(k) == 0 && y < Pow2(k)
    ensures Or(x, y) == x + y
  {
    if k > 0 && x != 0 && y != 0 {
      DivDouble(x, Pow2(k - 1));
      OrDisjoint(x / 2, y / 2, k - 1);
    }
  }

  /** Bit k of x, as a truth value. */
  predicate Bit(x: nat, k: nat) {
    if k == 0 then x % 2 == 1 else Bit(x / 2, k - 1)
  }

  lemma {:induction false} OrBit(x: nat, k: nat)
    ensures Or(x, Pow2(k)) == if Bit(x, k) then x else x + Pow2(k)
  {
    if k == 0 {
    } else {
      OrBit(x / 2, k - 1);
    }
  }

  /** One step of `And` against an odd mask. */
  lemma AndOdd(x: nat, m: nat)
    ensures And(x, 2 * m + 1) == 2 * And(x / 2, m) + x % 2
  {
  }

  lemma AndNotBit0(x: nat, n: nat)
    requires 0 < n && x < Pow2(n)
    ensures Pow2(n) >= 2
    ensures And(x, Pow2(n) - 2) == x - x % 2
  {
    AndRun(x, n, 1);
    ModUnique(x, Pow2(n), 0, x);
    assert Pow2(1) == 2;
  }

  /** Clearing bit k of an n-bit value. */
  lemma {:induction false} AndNotBit(x: nat, n: nat, k: nat)
    requires k < n && x < Pow2(n)
    ensures Pow2(k) < Pow2(n)
    ensures And(x, Pow2(n) - 1 - Pow2(k)) == if Bit(x, k) then x - Pow2(k) else x
  {
    Pow2Lt(k, n);
    if k == 0 {
      AndNotBit0(x, n);
    } else {
      AndNotBit(x / 2, n - 1, k - 1);
      AndOdd(x, Pow2(n - 1) - 1 - Pow2(k - 1));
    }
  }

  // ------------------------------------------- the masks and shifts of the kernel

  lemma LowNine(x: nat)
    ensures And(x, 511) == x % 512
  {
    Pow2Values();
    AndRun(x, 9, 0);
  }

  lemma LowTen(x: nat)
    ensures And(x, 1023) == x % 1024
  {
    Pow2Values();
    AndRun(x, 10, 0);
  }

  lemma LowTwelve(x: nat)
    ensures And(x, 4095) == x % 4096
  {
    Pow2Values();
    AndRun(x, 12, 0);
  }

  lemma BitsTwoAndThree(x: nat)
    ensures And(x, 12) == x % 16 - x % 4
  {
    Pow2Values();
    AndRun(x, 4, 2);
  }

  lemma AboveTwelve(x: Word)
    ensures And(x, TWO64 - 4096) == x - x % 4096
  {
    Pow2Values();
    AndRun(x, 64, 12);
  }

  lemma OrBelowTen(x: nat, y: nat)
    requires x % 1024 == 0 && y < 1024
    ensures Or(x, y) == x + y
  {
    Pow2Values();
    OrDisjoint(x, y, 10);
  }

  lemma OrBelowTwelve(x: nat, y: nat)
    requires x % 4096 == 0 && y < 4096
    ensures Or(x, y) == x + y
  {
    Pow2Values();
    OrDisjoint(x, y, 12);
  }

  lemma Shifts(x: Word)
    ensures Shl(1, 9) == 512 && Shl(1, 10) == 1024 && Shl(1, 12) == 4096
    ensures Shl(x, 10) == x * 1024 % TWO64 && Shl(x, 12) == x * 4096 % TWO64
  {
  }

  lemma RightShifts(x: Word)
    ensures Shr(x, 0) == x && Shr(x, 9) == x / 512 && Shr(x, 10) == x / 1024
    ensures Shr(x, 12) == x / 4096 && Shr(x, 18) == x / 0x4_0000
  {
    Pow2Values();
    ShrDiv(x, 9);
    ShrDiv(x, 10);
    ShrDiv(x, 12);
    ShrDiv(x, 18);
  }
}
