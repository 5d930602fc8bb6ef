/** Unsigned machine words as natural numbers: the shifts and bitwise operators of the source,
    defined bit by bit, and what they come to in arithmetic. */
module Bits {

  function Pow(b: nat, n: nat): (r: nat)
    ensures b >= 1 ==> r >= 1
  {
    if n == 0 then 1 else
      var p := Pow(b, n - 1);
      assert b >= 1 ==> b * p >= p;
      b * p
  }

  /** `v >> k` */
  function Shr(v: nat, k: nat): nat {
    if k == 0 then v else Shr(v / 2, k - 1)
  }

  /** `v << k`, before any truncation to a width */
  function Shl(v: nat, k: nat): (r: nat)
    ensures v > 0 ==> r > 0
  {
    if k == 0 then v else 2 * Shl(v, k - 1)
  }

  /** `a & b` */
  function BitAnd(a: nat, b: nat): nat {
    if a == 0 || b == 0 then 0
    else 2 * BitAnd(a / 2, b / 2) + (if a % 2 == 1 && b % 2 == 1 then 1 else 0)
  }

  /** `a | b` */
  function BitOr(a: nat, b: nat): nat
    decreases a + b
  {
    if a == 0 then b else if b == 0 then a
    else 2 * BitOr(a / 2, b / 2) + (if a % 2 == 1 || b % 2 == 1 then 1 else 0)
  }

  /** `std::popcount` */
  function PopCount(v: nat): nat {
    if v == 0 then 0 else v % 2 + PopCount(v / 2)
  }

  /** `std::countr_zero` of a non-zero word */
  function CountrZero(v: nat): nat
    requires v > 0
  {
    if v % 2 == 1 then 0 else 1 + CountrZero(v / 2)
  }

  lemma DivModUnique(v: nat, m: nat, q: nat, r: nat)
    requires m > 0 && v == q * m + r && r < m
    ensures v / m == q && v % m == r
  {
    var d := v / m - q;
    assert v == (v / m) * m + v % m;
    assert d * m == r - v % m by { assert (v / m) * m - q * m == d * m; }
    assert d >= 1 ==> d * m >= m;
    assert d <= -1 ==> d * m <= 0 - m;
  }

  /** `v / b` by repeated subtraction. Specifications use `Quot` and `Rem` where the divisor is a
      variable, so that the solver meets division only in `QuotRem`. */
  function Quot(v: nat, b: nat): (q: nat)
    requires b > 0
    ensures q <= v && (b > 1 ==> 2 * q <= v)
  {
    if v < b then 0 else 1 + Quot(v - b, b)
  }

  /** `v % b` */
  function Rem(v: nat, b: nat): (r: nat)
    requires b > 0
    ensures r < b
  {
    if v < b then v else Rem(v - b, b)
  }

  /** The residue of an integer that a word of `m` values keeps. */
  function Wrap(v: int, m: nat): (r: nat)
    requires m > 0
    ensures r < m
    decreases if v >= 0 then v else m - v
  {
    if v < 0 then Wrap(v + m, m) else if v >= m then Wrap(v - m, m) else v
  }

  lemma {:induction false} QuotRem(v: nat, b: nat)
    requires b > 0
    ensures v == Quot(v, b) * b + Rem(v, b)
    ensures Quot(v, b) == v / b && Rem(v, b) == v % b
  {
    if v >= b {
      QuotRem(v - b, b);
      assert (1 + Quot(v - b, b)) * b == b + Quot(v - b, b) * b;
    }
    DivModUnique(v, b, Quot(v, b), Rem(v, b));
  }

  lemma QuotUnique(v: nat, b: nat, q: nat, r: nat)
    requires b > 0 && v == q * b + r && r < b
    ensures Quot(v, b) == q && Rem(v, b) == r
  {
    QuotRem(v, b);
    DivModUnique(v, b, q, r);
  }

  lemma {:induction false} QuotMonotone(v: nat, u: nat, b: nat)
    requires b > 0 && v <= u
    ensures Quot(v, b) <= Quot(u, b)
  {
    if v >= b { QuotMonotone(v - b, u - b, b); }
  }

  lemma TimesSum(x: nat, y: nat, a: nat)
    ensures (x + y) * a == x * a + y * a
  {
  }

  lemma TimesNat(x: nat, y: nat)
    ensures x * y >= 0
  {
  }

  lemma TimesAtLeast(x: nat, b: nat)
    requires b >= 1
    ensures x * b >= x
  {
    TimesSum(b - 1, 1, x);
    TimesNat(b - 1, x);
  }

  lemma TimesAssociates(x: nat, y: nat, z: nat)
    ensures (x * y) * z == x * (z * y)
  {
  }

  lemma TimesGrows(x: nat, y: nat, a: nat)
    requires x < y
    ensures x * a + a <= y * a
  {
    var d := y - x - 1;
    assert d * a >= 0;
    TimesSum(d, x + 1, a);
    TimesSum(x, 1, a);
  }

  /** Dividing twice divides by the product. */
  lemma QuotQuot(v: nat, a: nat, b: nat)
    requires a > 0 && b > 0
    ensures a * b > 0
    ensures Quot(Quot(v, a), b) == Quot(v, a * b)
  {
    var p, s := Quot(v, a), Rem(v, a);
    var q, r := Quot(p, b), Rem(p, b);
    QuotRem(v, a);
    QuotRem(p, b);
    TimesGrows(r, b, a);
    TimesNat(r, a);
    var ab: nat, t: nat := a * b, r * a + s;
    assert v == q * ab + t by {
      TimesSum(q * b, r, a);
      TimesAssociates(q, b, a);
    }
    assert t < ab by { assert b * a == ab; }
    QuotUnique(v, ab, q, t);
  }

  lemma {:induction false} ShlIsTimes(v: nat, k: nat)
    ensures Shl(v, k) == v * Shl(1, k)
  {
    if k > 0 {
      ShlIsTimes(v, k - 1);
      assert v * (2 * Shl(1, k - 1)) == 2 * (v * Shl(1, k - 1));
    }
  }

  lemma DoubleDivMod(v: nat, m: nat)
    requires m > 0
    ensures v / (2 * m) == v / 2 / m && v % (2 * m) == 2 * (v / 2 % m) + v % 2
  {
    var q, r := v / 2 / m, v / 2 % m;
    assert v / 2 == q * m + r;
    assert q * (2 * m) == 2 * (q * m);
    DivModUnique(v, 2 * m, q, 2 * r + v % 2);
  }

  /** Shifting right divides, and masking with `(1 << k) - 1` takes the remainder. */
  lemma {:induction false} ShrAndMask(v: nat, k: nat)
    ensures var m := Shl(1, k); Shr(v, k) == v / m && BitAnd(v, m - 1) == v % m
  {
    if k > 0 {
      var m := Shl(1, k - 1);
      ShrAndMask(v / 2, k - 1);
      DoubleDivMod(v, m);
      assert (2 * m - 1) / 2 == m - 1 && (2 * m - 1) % 2 == 1;
    }
  }

  /** Or-ing a value into the bits a left shift has cleared adds it. */
  lemma {:induction false} OrIntoShifted(a: nat, k: nat, v: nat)
    requires v < Shl(1, k)
    ensures BitOr(Shl(a, k), v) == Shl(a, k) + v
    decreases k
  {
    if k > 0 {
      OrIntoShifted(a, k - 1, v / 2);
      assert Shl(a, k) / 2 == Shl(a, k - 1);
    }
  }

  lemma {:induction false} PopCountZero(v: nat)
    ensures PopCount(v) == 0 <==> v == 0
  {
    if v > 0 { PopCountZero(v / 2); }
  }

  /** A word with one bit set is 1 shifted by its trailing zeros. */
  lemma {:induction false} OneBit(v: nat)
    requires PopCount(v) == 1
    ensures v > 0 && Shl(1, CountrZero(v)) == v
  {
    PopCountZero(v / 2);
    if v % 2 == 0 { OneBit(v / 2); }
  }

  /** Masking with ones above bit `k` clears the `k` low bits. */
  lemma {:induction false} AndHigh(x: nat, n: nat, k: nat)
    requires k <= n && x < Shl(1, n)
    ensures Shl(1, k) <= Shl(1, n)
    ensures BitAnd(x, Shl(1, n) - Shl(1, k)) == x - x % Shl(1, k)
  {
    if k == 0 {
      ShrAndMask(x, n);
      DivModUnique(x, Shl(1, n), 0, x);
    } else {
      AndHigh(x / 2, n - 1, k - 1);
      DoubleDivMod(x, Shl(1, k - 1));
      var m := Shl(1, n) - Shl(1, k);
      assert m / 2 == Shl(1, n - 1) - Shl(1, k - 1) && m % 2 == 0;
    }
  }

  lemma {:induction false} ShlAdd(v: nat, j: nat, k: nat)
    ensures Shl(v, j + k) == Shl(Shl(v, j), k)
  {
    if k > 0 {
      ShlAdd(v, j, k - 1);
      assert j + k - 1 == j + (k - 1);
    } else {
      assert j + 0 == j;
    }
  }
}
