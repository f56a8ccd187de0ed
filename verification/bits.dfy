/**
  The shifts, masks and bit-wise operators that the ID generators apply to Go's int64.

  A value of type int64 is a mathematical integer here. `Or`, `And` and `Not` read an integer
  as an infinite two's-complement bit string, `ToInt64` is the wrap-around of a 64-bit
  register, and Dafny's `/` and `%` by a positive number are Go's arithmetic right shift
  and its remainder bits.
 */
module Bits {

  function Pow2(k: nat): (r: nat)
    ensures r > 0
  {
    if k == 0 then 1 else 2 * Pow2(k - 1)
  }

  const TWO_TO_THE_63: int := 0x8000_0000_0000_0000
  const TWO_TO_THE_64: int := 0x1_0000_0000_0000_0000

  predicate IsInt64(x: int) {
    -TWO_TO_THE_63 <= x < TWO_TO_THE_63
  }

  /** The 64-bit register that is left of x when the higher bits are dropped. */
  function ToInt64(x: int): (r: int)
    ensures IsInt64(r)
    ensures IsInt64(x) ==> r == x
    ensures (r - x) % TWO_TO_THE_64 == 0
  {
    (x + TWO_TO_THE_63) % TWO_TO_THE_64 - TWO_TO_THE_63
  }

  function Abs(x: int): nat {
    if x < 0 then -x else x
  }

  function Or(a: int, b: int): int
    decreases Abs(a) + Abs(b)
  {
    if a == 0 || b == -1 then b
    else if b == 0 || a == -1 then a
    else 2 * Or(a / 2, b / 2) + (if a % 2 == 1 || b % 2 == 1 then 1 else 0)
  }

  function And(a: int, b: int): int
    decreases Abs(a) + Abs(b)
  {
    if a == 0 || b == -1 then a
    else if b == 0 || a == -1 then b
    else 2 * And(a / 2, b / 2) + (if a % 2 == 1 && b % 2 == 1 then 1 else 0)
  }

  function Not(x: int): int {
    -1 - x
  }

  function ShiftLeft(x: int, k: nat): int {
    ToInt64(x * Pow2(k))
  }

  function ShiftRight(x: int, k: nat): int {
    x / Pow2(k)
  }

  /** Go's `int64(-1 ^ (-1 << k))`. */
  function Mask(k: nat): int {
    Not(ShiftLeft(-1, k))
  }

  lemma {:induction false} Pow2Add(j: nat, k: nat)
    ensures Pow2(j + k) == Pow2(j) * Pow2(k)
  {
    if j == 0 {
    } else {
      Pow2Add(j - 1, k);
    }
  }

  lemma Pow2Values()
    ensures Pow2(7) == 0x80 && Pow2(2) == 4 && Pow2(13) == 0x2000
    ensures Pow2(15) == 0x8000 && Pow2(22) == 0x40_0000 && Pow2(41) == 0x200_0000_0000
    ensures Pow2(63) == TWO_TO_THE_63 && Pow2(64) == TWO_TO_THE_64
  {
    assert Pow2(2) == 4;
    assert Pow2(4) == 16 by { Pow2Add(2, 2); }
    assert Pow2(7) == 0x80;
    assert Pow2(11) == 0x800 by { Pow2Add(7, 4); }
    assert Pow2(13) == 0x2000;
    assert Pow2(15) == 0x8000;
    assert Pow2(22) == 0x40_0000 by { Pow2Add(15, 7); }
    assert Pow2(26) == 0x400_0000 by { Pow2Add(22, 4); }
    assert Pow2(41) == 0x200_0000_0000 by { Pow2Add(26, 15); }
    assert Pow2(63) == TWO_TO_THE_63 by { Pow2Add(41, 22); }
  }

  lemma {:induction false} Pow2Monotone(j: nat, k: nat)
    requires j <= k
    ensures Pow2(j) <= Pow2(k)
  {
    if j < k {
      Pow2Monotone(j, k - 1);
    }
  }

  lemma ModFromQuotient(x: int, m: nat, q: int, r: int)
    requires 0 <= r < m
    requires x == q * m + r
    ensures x / m == q && x % m == r
  {
    var q', r' := x / m, x % m;
    assert x == q' * m + r';
    assert (q - q') * m == r' - r;
    if q != q' {
      if q > q' {
        assert (q - q') * m >= m by { MulAtLeast(q - q', m); }
      } else {
        assert (q' - q) * m >= m by { MulAtLeast(q' - q, m); }
      }
    }
  }

  lemma MulAtLeast(a: int, m: nat)
    requires a >= 1
    ensures a * m >= m
  {
  }

  /** Halving both sides of a field boundary at bit k moves it to bit k - 1. */
  lemma HalveMod(a: int, k: nat)
    requires k > 0
    ensures a % Pow2(k) == 2 * ((a / 2) % Pow2(k - 1)) + a % 2
  {
    var m := Pow2(k - 1);
    var h := a / 2;
    var q, r := h / m, h % m;
    assert a == 2 * (q * m + r) + a % 2;
    assert 2 * (q * m) == q * (2 * m);
    ModFromQuotient(a, Pow2(k), q, 2 * r + a % 2);
  }

  /** Bit fields that do not overlap are joined by addition. */
  lemma {:induction false} OrDisjoint(a: int, b: int, k: nat)
    requires a % Pow2(k) == 0
    requires 0 <= b < Pow2(k)
    ensures Or(a, b) == a + b
    decreases k
  {
    if k > 0 && a != 0 && b != 0 {
      HalveMod(a, k);
      OrDisjoint(a / 2, b / 2, k - 1);
    }
  }

  /** Putting a field of k bits below a number. */
  lemma OrBelow(high: int, m: nat, low: int, k: nat)
    requires m == Pow2(k) && 0 <= low < m
    ensures Or(high * m, low) == high * m + low
  {
    ModFromQuotient(high * m, m, high, 0);
    OrDisjoint(high * m, low, k);
  }

  lemma AddMultiple(x: int, m: nat, e: int)
    requires m > 0
    ensures (x + e * m) / m == x / m + e && (x + e * m) % m == x % m
  {
    var q, r := x / m, x % m;
    assert x + e * m == (q + e) * m + r;
    ModFromQuotient(x + e * m, m, q + e, r);
  }

  /** A mask of k low bits keeps the remainder modulo 2^k, for negative numbers as well. */
  lemma {:induction false} AndLowBits(a: int, k: nat)
    ensures And(a, Pow2(k) - 1) == a % Pow2(k)
    decreases k
  {
    if a == 0 || k == 0 {
    } else if a == -1 {
      ModFromQuotient(-1, Pow2(k), -1, Pow2(k) - 1);
    } else {
      AndLowBits(a / 2, k - 1);
      HalveMod(a, k);
      var m := Pow2(k) - 1;
      assert m / 2 == Pow2(k - 1) - 1 && m % 2 == 1;
    }
  }

  lemma MaskIsLowBits(k: nat)
    requires k <= 63
    ensures Mask(k) == Pow2(k) - 1
  {
    PowerFits(k);
    assert -1 * Pow2(k) == 0 - Pow2(k);
  }

  lemma PowerFits(k: nat)
    requires k <= 63
    ensures Pow2(k) <= TWO_TO_THE_63
  {
    Pow2Values();
    Pow2Monotone(k, 63);
  }

  lemma WrapIsMultiple(x: int, k: nat) returns (e: int)
    requires k <= 63
    ensures ToInt64(x) == x + e * Pow2(64 - k) * Pow2(k)
  {
    Pow2Values();
    Pow2Add(64 - k, k);
    e := (ToInt64(x) - x) / TWO_TO_THE_64;
    assert ToInt64(x) == x + e * TWO_TO_THE_64;
    MulAssociates(e, Pow2(64 - k), Pow2(k));
  }

  lemma MulAssociates(a: int, b: int, c: int)
    ensures a * (b * c) == a * b * c
  {
  }

  /** Shifting left by k and back keeps the low 64 - k bits of x, and leaves k zero bits. */
  lemma ShiftLeftThenRight(x: int, k: nat)
    requires k <= 63
    ensures ShiftLeft(x, k) % Pow2(k) == 0
    ensures ShiftLeft(x, k) / Pow2(k) % Pow2(64 - k) == x % Pow2(64 - k)
  {
    var m := Pow2(k);
    var e := WrapIsMultiple(x * m, k);
    AddMultiple(x * m, m, e * Pow2(64 - k));
    AddMultiple(0, m, x);
    AddMultiple(x, Pow2(64 - k), e);
  }
}
