/** commonlib/common/base/bits.h: logarithms of 32-bit numbers by halving the number of bits. */
module Bits {

  type Word = x: int | 0 <= x < 0x1_0000_0000

  function Pow2(n: nat): (p: nat)
    ensures p > 0
  {
    if n == 0 then 1 else 2 * Pow2(n - 1)
  }

  lemma {:induction false} Pow2Sum(a: nat, b: nat)
    ensures Pow2(a + b) == Pow2(a) * Pow2(b)
  {
    if a > 0 {
      Pow2Sum(a - 1, b);
    }
  }

  lemma {:induction false} Pow2Grows(a: nat, b: nat)
    requires a <= b
    ensures Pow2(a) <= Pow2(b)
    ensures a < b ==> 2 * Pow2(a) <= Pow2(b)
  {
    if a < b {
      Pow2Grows(a, b - 1);
    }
  }

  /** value >> shift */
  function ShiftRight(value: Word, shift: nat): Word {
    Quotient(value, Pow2(shift));
    value / Pow2(shift)
  }

  lemma ShiftRightIs(value: Word, shift: nat)
    ensures ShiftRight(value, shift) * Pow2(shift) <= value < (ShiftRight(value, shift) + 1) * Pow2(shift)
  {
    Quotient(value, Pow2(shift));
  }

  lemma Quotient(n: nat, d: nat)
    requires d > 0
    ensures 0 <= n / d <= n && (n / d) * d <= n < (n / d + 1) * d
  {
    assert n == (n / d) * d + n % d;
    AtLeast(n / d, d);
  }

  lemma AtLeast(x: nat, d: nat)
    requires d > 0
    ensures x <= x * d
  {
  }

  lemma BySquare(x: nat, q: nat)
    requires x * q < q * q
    ensures x < q
  {
  }

  /** The position of the highest bit. */
  predicate IsFloor(n: Word, i: int) {
    0 <= i < 32 && Pow2(i) <= n < Pow2(i + 1)
  }

  predicate IsCeiling(n: Word, i: int) {
    0 <= i <= 32 && n <= Pow2(i) && (i > 0 ==> Pow2(i - 1) < n)
  }

  /** In `n`, shifted down by `log`, the highest bit is below bit `width`. */
  ghost predicate Halving(n: Word, log: nat, value: Word, width: nat) {
    value * Pow2(log) <= n < (value + 1) * Pow2(log) && 1 <= value < Pow2(width)
  }

  lemma ShiftedFurther(n: Word, log: nat, value: Word, shift: nat)
    requires Halving(n, log, value, 2 * shift) && ShiftRight(value, shift) != 0
    ensures Halving(n, log + shift, ShiftRight(value, shift), shift)
  {
    hide Pow2, ShiftRight;
    var x := ShiftRight(value, shift);
    ShiftRightIs(value, shift);
    var p, q := Pow2(log), Pow2(shift);
    Pow2Sum(log, shift);
    Pow2Sum(shift, shift);
    assert shift + shift == 2 * shift;
    Bracket(x, value, q, p, n);
    BySquare(x, q);
  }

  lemma Scaled(a: nat, b: nat, p: nat)
    requires a <= b
    ensures a * p <= b * p
  {
  }

  lemma Bracket(x: nat, value: nat, q: nat, p: nat, n: nat)
    requires x * q <= value < (x + 1) * q && value * p <= n < (value + 1) * p
    ensures x * (p * q) <= n < (x + 1) * (p * q)
  {
    Scaled(x * q, value, p);
    Scaled(value + 1, (x + 1) * q, p);
  }

  /** -1 for zero, and otherwise the position of the highest bit. */
  method Log2Floor(n: Word) returns (log: int)
    ensures n == 0 ==> log == -1
    ensures n > 0 ==> IsFloor(n, log)
  {
    hide Pow2, Halving, ShiftRight, IsFloor;
    if n == 0 {
      return -1;
    }
    log := 0;
    var value: Word := n;
    FullWidth(n);
    var i := 4;
    while i >= 0
      invariant -1 <= i <= 4 && 0 <= log
      invariant Halving(n, log, value, Pow2(i + 1))
      invariant log + Pow2(i + 1) <= 32
    {
      var shift := Pow2(i);
      var x := ShiftRight(value, shift);
      HalvingStep(n, log, value, i);
      if x != 0 {
        value := x;
        log := log + shift;
      }
      i := i - 1;
    }
    Narrowed(n, log, value);
    assert value == 1;
  }

  lemma FullWidth(n: Word)
    requires n > 0
    ensures Pow2(5) == 32 && Halving(n, 0, n, Pow2(5))
  {
    Pow2Of32();
    assert Pow2(0) == 1;
  }

  lemma HalvingStep(n: Word, log: nat, value: Word, i: nat)
    requires Halving(n, log, value, Pow2(i + 1))
    ensures Pow2(i + 1) == 2 * Pow2(i)
    ensures var x := ShiftRight(value, Pow2(i));
            if x != 0 then Halving(n, log + Pow2(i), x, Pow2(i)) else Halving(n, log, value, Pow2(i))
  {
    hide ShiftRight;
    var shift := Pow2(i);
    if ShiftRight(value, shift) != 0 {
      ShiftedFurther(n, log, value, shift);
    } else {
      ShiftRightIs(value, shift);
    }
  }

  lemma Narrowed(n: Word, log: nat, value: Word)
    requires Halving(n, log, value, Pow2(0)) && log + Pow2(0) <= 32
    ensures value == 1 && IsFloor(n, log)
  {
    assert Pow2(0) == 1 && Pow2(1) == 2;
    assert Pow2(log + 1) == 2 * Pow2(log);
  }

  lemma Pow2Of32()
    ensures Pow2(32) == 0x1_0000_0000 && Pow2(5) == 32 && Pow2(4) == 16 && Pow2(3) == 8 && Pow2(2) == 4 && Pow2(1) == 2
  {
    assert Pow2(8) == 256;
    Pow2Sum(8, 8);
    Pow2Sum(16, 16);
  }

  method Log2Ceiling(n: Word) returns (log: int)
    ensures n == 0 ==> log == -1
    ensures n > 0 ==> IsCeiling(n, log)
  {
    if n == 0 {
      return -1;
    }
    var below := Log2Floor(n - 1);
    return 1 + below;
  }

  /** The bounds leave one answer each, and the two agree up to one, exactly for powers of two. */
  lemma BoundsDetermine(n: Word, i: int, j: int)
    requires IsFloor(n, i)
    ensures IsFloor(n, j) ==> j == i
    ensures IsCeiling(n, j) <==> j == (if n == Pow2(i) then i else i + 1)
  {
    if IsFloor(n, j) {
      if i < j {
        Pow2Grows(i + 1, j);
      } else if j < i {
        Pow2Grows(j + 1, i);
      }
    }
    var c := if n == Pow2(i) then i else i + 1;
    if c > 0 {
      Pow2Grows(c - 1, i);
      assert c == i ==> Pow2(i) == 2 * Pow2(i - 1);
    }
    if IsCeiling(n, j) {
      if j < c {
        Pow2Grows(j, c - 1);
      } else if c < j {
        Pow2Grows(c, j - 1);
      }
    }
  }
}
