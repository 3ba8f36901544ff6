/** Activity scores: 32-bit floats with 24 bits of mantissa and a biased exponent of 8 bits. */
module SoftFloats {
  import opened NumberTheory

  const MSB: nat := 0x100_0000
  const CARRY: nat := 0x200_0000
  const ZERO: nat := 0
  const INF: nat := 0xffff_ffff

  type Flt = f: nat | f < 0x1_0000_0000

  /** The mantissa with its leading bit. */
  function Mantissa(f: Flt): (m: nat)
    ensures MSB <= m < CARRY
  {
    f % MSB + MSB
  }

  /** The exponent, biased by 128. */
  function Exponent(f: Flt): (e: nat)
    ensures e < 256
  {
    f / MSB
  }

  function Pack(m: nat, e: nat): (f: Flt)
    requires MSB <= m < CARRY && e < 256
    ensures Mantissa(f) == m && Exponent(f) == e
  {
    Unpacks(m - MSB, e);
    m - MSB + e * MSB
  }

  lemma Unpacks(m: nat, e: nat)
    requires m < MSB && e < 256
    ensures m + e * MSB < 0x1_0000_0000 && (m + e * MSB) % MSB == m && (m + e * MSB) / MSB == e
  {
    Remainder(MSB, e, m, m + e * MSB);
  }

  /** What a code stands for, in units of the smallest exponent. */
  function Val(f: Flt): nat {
    if f == ZERO then 0 else ShiftedUp(Mantissa(f), Exponent(f))
  }

  /** One unit in the last place. */
  function Ulp(f: Flt): nat {
    Pow2(Exponent(f))
  }

  lemma PowGrows(j: nat, k: nat)
    requires j < k
    ensures 2 * Pow2(j) <= Pow2(k)
  {
    PowSum(j + 1, k - j - 1);
    Monotone(Pow2(j + 1), 1, Pow2(k - j - 1));
  }

  // ----- order -----

  lemma ExponentGrows(f: Flt, g: Flt)
    requires f <= g
    ensures Exponent(f) <= Exponent(g)
    ensures Exponent(f) == Exponent(g) ==> Mantissa(f) <= Mantissa(g) && (f < g ==> Mantissa(f) < Mantissa(g))
  {
  }

  /** Unsigned order of codes is the order of what they stand for. */
  lemma OrderAgrees(f: Flt, g: Flt)
    ensures f < g <==> Val(f) < Val(g)
  {
    if f < g {
      SmallerCode(f, g);
    } else if g < f {
      SmallerCode(g, f);
    }
  }

  lemma SmallerCode(f: Flt, g: Flt)
    requires f < g
    ensures Val(f) < Val(g)
  {
    hide Mantissa, Exponent, Pow2;
    ExponentGrows(f, g);
    var p, q := Pow2(Exponent(f)), Pow2(Exponent(g));
    if f == ZERO {
      Monotone(Mantissa(g), 1, q);
    } else if Exponent(f) == Exponent(g) {
      Monotone(p, Mantissa(f) + 1, Mantissa(g));
      assert p * (Mantissa(f) + 1) == p * Mantissa(f) + p;
    } else {
      PowGrows(Exponent(f), Exponent(g));
      Monotone(p, Mantissa(f) + 1, 2 * MSB);
      Monotone(MSB, 2 * p, q);
      Monotone(q, MSB, Mantissa(g));
      assert p * (Mantissa(f) + 1) == p * Mantissa(f) + p;
      assert p * (2 * MSB) == MSB * (2 * p);
    }
  }

  // ----- addition -----

  function Greater(a: Flt, b: Flt): Flt { if a < b then b else a }

  function Lesser(a: Flt, b: Flt): Flt { if a < b then a else b }

  /** The shift is defined for less than the width of a word. */
  predicate GapOk(a: Flt, b: Flt) {
    Lesser(a, b) == ZERO || Exponent(Greater(a, b)) < Exponent(Lesser(a, b)) + 32
  }

  /** The sum of the mantissas, the lesser one shifted to the exponent of the greater one. */
  function MantissaSum(a: Flt, b: Flt): nat
    requires Lesser(a, b) != ZERO
  {
    ExponentGrows(Lesser(a, b), Greater(a, b));
    Mantissa(Greater(a, b)) + Quotient(Mantissa(Lesser(a, b)), Pow2(Exponent(Greater(a, b)) - Exponent(Lesser(a, b))))
  }

  predicate AddSaturates(a: Flt, b: Flt) {
    Lesser(a, b) != ZERO && MantissaSum(a, b) >= CARRY && Exponent(Greater(a, b)) == 255
  }

  function AddFlt(a: Flt, b: Flt): Flt
    requires GapOk(a, b)
  {
    var hi, lo := Greater(a, b), Lesser(a, b);
    if lo == ZERO then hi
    else
      var sum := MantissaSum(a, b);
      SumBelow(a, b);
      if sum == Mantissa(hi) then hi
      else if sum < CARRY then Pack(sum, Exponent(hi))
      else if Exponent(hi) == 255 then INF
      else Pack(sum / 2, Exponent(hi) + 1)
  }

  lemma SumBelow(a: Flt, b: Flt)
    requires Lesser(a, b) != ZERO
    ensures Mantissa(Greater(a, b)) <= MantissaSum(a, b) < 2 * CARRY
  {
    var hi, lo := Greater(a, b), Lesser(a, b);
    ExponentGrows(lo, hi);
    QuotientBelow(Mantissa(lo), Pow2(Exponent(hi) - Exponent(lo)));
  }

  lemma QuotientBelow(n: nat, p: nat)
    requires p > 0
    ensures Quotient(n, p) <= n && Times(Quotient(n, p), p) <= n < Times(Quotient(n, p), p) + p
  {
    assert n == p * (n / p) + n % p;
    Monotone(n / p, 1, p);
  }

  lemma AddCommutes(a: Flt, b: Flt)
    requires GapOk(a, b)
    ensures GapOk(b, a) && AddFlt(a, b) == AddFlt(b, a)
  {
  }

  /** The scaled sum of the mantissas is short of the exact sum by less than one unit of its exponent. */
  lemma SumBounds(a: Flt, b: Flt)
    requires Lesser(a, b) != ZERO
    ensures var p := Pow2(Exponent(Greater(a, b))); var s := Times(MantissaSum(a, b), p);
      s <= Val(a) + Val(b) < s + p
  {
    hide Mantissa, Exponent, Pow2;
    var hi, lo := Greater(a, b), Lesser(a, b);
    ExponentGrows(lo, hi);
    var d := Exponent(hi) - Exponent(lo);
    var m, n, q := Mantissa(hi), Mantissa(lo), Quotient(Mantissa(lo), Pow2(d));
    QuotientBelow(n, Pow2(d));
    PowSum(d, Exponent(lo));
    ShiftScales(n, q, Pow2(d), Pow2(Exponent(lo)));
    assert (m + q) * Pow2(Exponent(hi)) == m * Pow2(Exponent(hi)) + q * Pow2(Exponent(hi));
  }

  lemma ShiftScales(n: nat, q: nat, d: nat, p: nat)
    requires Times(q, d) <= n < Times(q, d) + d && p > 0
    ensures q * (d * p) <= n * p < q * (d * p) + d * p
  {
    Monotone(p, q * d, n);
    Monotone(p, n + 1, q * d + d);
    assert p * (n + 1) == n * p + p;
    assert p * (q * d) == q * (d * p);
    assert p * (q * d + d) == p * (q * d) + p * d;
  }

  /** Addition never exceeds the exact sum and is short of it by less than one unit in the last place. */
  lemma AddBounds(a: Flt, b: Flt)
    requires GapOk(a, b) && !AddSaturates(a, b)
    ensures var r := AddFlt(a, b); Val(r) <= Val(a) + Val(b) < Val(r) + Ulp(r)
  {
    hide Mantissa, Exponent, Pow2, MantissaSum;
    var hi := Greater(a, b);
    if Lesser(a, b) != ZERO {
      var sum, e := MantissaSum(a, b), Exponent(hi);
      SumBelow(a, b);
      SumBounds(a, b);
      if sum != Mantissa(hi) {
        NotZero(a, b);
        if sum >= CARRY {
          HalveSum(sum, e);
        }
      }
    }
  }

  lemma HalveSum(sum: nat, e: nat)
    ensures var s, h := Times(sum, Pow2(e)), Times(sum / 2, Pow2(e + 1));
      h <= s && s + Pow2(e) <= h + Pow2(e + 1)
  {
    assert Pow2(e + 1) == 2 * Pow2(e);
    var h, r := sum / 2, sum % 2;
    assert sum * Pow2(e) == (2 * h + r) * Pow2(e) == h * (2 * Pow2(e)) + r * Pow2(e);
  }

  /** A sum in range does not collide with the code for zero. */
  lemma NotZero(a: Flt, b: Flt)
    requires Lesser(a, b) != ZERO && MantissaSum(a, b) != Mantissa(Greater(a, b))
    ensures MantissaSum(a, b) < CARRY ==> Pack(MantissaSum(a, b), Exponent(Greater(a, b))) != ZERO
    ensures MantissaSum(a, b) >= CARRY && Exponent(Greater(a, b)) < 255 ==> Exponent(Greater(a, b)) + 1 > 0
  {
    SumBelow(a, b);
    assert Mantissa(ZERO) == MSB;
  }

  /** Addition saturates exactly when the exact sum is beyond the largest exponent. */
  lemma AddSaturatesIff(a: Flt, b: Flt)
    ensures AddSaturates(a, b) <==> Val(a) + Val(b) >= ShiftedUp(CARRY, 255)
  {
    hide Mantissa, Exponent, Pow2, MantissaSum;
    var hi, lo := Greater(a, b), Lesser(a, b);
    ExponentGrows(lo, hi);
    if lo != ZERO && Exponent(hi) == 255 {
      SumBounds(a, b);
      TopSum(MantissaSum(a, b), Pow2(255));
    } else {
      BelowTop(hi);
      OrderAgrees(lo, hi);
      if lo != ZERO {
        HalfTop(hi);
      }
    }
  }

  lemma TopSum(sum: nat, p: nat)
    requires p > 0
    ensures sum >= CARRY ==> Times(sum, p) >= Times(CARRY, p)
    ensures sum < CARRY ==> Times(sum, p) + p <= Times(CARRY, p)
  {
    if sum >= CARRY {
      Monotone(p, CARRY, sum);
    } else {
      Monotone(p, sum + 1, CARRY);
      assert p * (sum + 1) == p * sum + p;
    }
  }

  lemma BelowTop(f: Flt)
    ensures Val(f) < ShiftedUp(CARRY, 255)
  {
    hide Pow2, Mantissa, Exponent;
    Monotone(Pow2(Exponent(f)), Mantissa(f) + 1, CARRY);
    assert Pow2(Exponent(f)) * (Mantissa(f) + 1) == Mantissa(f) * Pow2(Exponent(f)) + Pow2(Exponent(f));
    if Exponent(f) < 255 {
      PowGrows(Exponent(f), 255);
    }
    Monotone(CARRY, Pow2(Exponent(f)), Pow2(255));
  }

  lemma HalfTop(f: Flt)
    requires Exponent(f) < 255
    ensures 2 * Val(f) < ShiftedUp(CARRY, 255)
  {
    hide Pow2, Mantissa, Exponent;
    Monotone(Pow2(Exponent(f)), Mantissa(f) + 1, CARRY);
    assert Pow2(Exponent(f)) * (Mantissa(f) + 1) == Mantissa(f) * Pow2(Exponent(f)) + Pow2(Exponent(f));
    PowGrows(Exponent(f), 255);
    Monotone(CARRY, 2 * Pow2(Exponent(f)), Pow2(255));
    assert CARRY * (2 * Pow2(Exponent(f))) == 2 * (CARRY * Pow2(Exponent(f)));
  }

  // ----- multiplication -----

  /** The upper half of the product of the mantissas. */
  function Product(a: Flt, b: Flt): (p: nat)
    ensures MSB <= p < 2 * CARRY
  {
    ProductRange(Mantissa(a), Mantissa(b));
    Quotient(Times(Mantissa(a), Mantissa(b)), MSB)
  }

  lemma ProductRange(m: nat, n: nat)
    requires MSB <= m < CARRY && MSB <= n < CARRY
    ensures MSB <= Quotient(Times(m, n), MSB) < 2 * CARRY
  {
    Monotone(m, MSB, n);
    Monotone(m, n + 1, CARRY);
    Monotone(CARRY, m + 1, CARRY);
    assert m * (n + 1) == m * n + m;
    assert m * MSB >= MSB * MSB by { Monotone(MSB, MSB, m); }
    QuotientBelow(m * n, MSB);
  }

  /** The exponent of the product before normalisation, with the bias of one of them still to be taken off. */
  function ExponentSum(a: Flt, b: Flt): nat {
    Exponent(a) + Exponent(b) + 24
  }

  predicate MulOverflows(a: Flt, b: Flt) {
    ExponentSum(a, b) > 383 || (ExponentSum(a, b) == 383 && Product(a, b) >= CARRY)
  }

  predicate MulUnderflows(a: Flt, b: Flt) {
    ExponentSum(a, b) < 128
  }

  /** The product is the smallest normal number, whose code is that of zero. */
  predicate MulCollides(a: Flt, b: Flt) {
    ExponentSum(a, b) == 128 && Product(a, b) == MSB
  }

  function MulFlt(a: Flt, b: Flt): Flt {
    if Lesser(a, b) == ZERO then ZERO
    else
      var e, p := ExponentSum(a, b), Product(a, b);
      if e > 383 then INF
      else if e < 128 then ZERO
      else if p < CARRY then Pack(p, e - 128)
      else if e == 383 then INF
      else Pack(p / 2, e - 127)
  }

  lemma MulCommutes(a: Flt, b: Flt)
    ensures MulFlt(a, b) == MulFlt(b, a)
  {
    assert Times(Mantissa(a), Mantissa(b)) == Times(Mantissa(b), Mantissa(a));
  }

  /** Operands that are not zero give the code of zero exactly on underflow and on the collision. */
  lemma MulZeroIff(a: Flt, b: Flt)
    requires Lesser(a, b) != ZERO
    ensures MulFlt(a, b) == ZERO <==> MulUnderflows(a, b) || MulCollides(a, b)
  {
    hide Mantissa, Exponent, Product;
    var e, p := ExponentSum(a, b), Product(a, b);
    if 128 <= e <= 383 {
      if p < CARRY {
        CodeZero(p, e - 128);
      } else if e < 383 {
        CodeZero(p / 2, e - 127);
      }
    }
  }

  /** The result is not above the exact product, and short of it by less than one unit in the last place;
      the units of a product are those of both factors multiplied. */
  ghost predicate MulAccurate(a: Flt, b: Flt) {
    var r, unit := MulFlt(a, b), Pow2(128);
    Times(Val(r), unit) <= Times(Val(a), Val(b)) < Times(Val(r), unit) + Times(Ulp(r), unit)
  }

  /** Multiplication is accurate unless it overflows, underflows, or takes the code of zero. */
  lemma MulBounds(a: Flt, b: Flt)
    requires Lesser(a, b) != ZERO && !MulOverflows(a, b) && !MulUnderflows(a, b) && !MulCollides(a, b)
    ensures MulAccurate(a, b)
  {
    hide Mantissa, Exponent, Pow2, Product, Quotient;
    var x, y := Exponent(a), Exponent(b);
    var mn, p, r := Times(Mantissa(a), Mantissa(b)), Product(a, b), MulFlt(a, b);
    MulZeroIff(a, b);
    ProductShort(a, b);
    Powers();
    PowSum(x, y);
    Rearrange(Mantissa(a), Pow2(x), Mantissa(b), Pow2(y));
    if p < CARRY {
      Scaled(p, x + y + 24 - 128, x + y, MSB, 24);
      ScaleBounds(mn, p, MSB, Pow2(x + y));
    } else {
      Scaled(p / 2, x + y + 24 - 127, x + y, CARRY, 25);
      ScaleBounds(mn, p / 2, CARRY, Pow2(x + y));
    }
  }

  /** The exact product, in units of both factors, lies between the truncated one and the next. */
  lemma MulRange(a: Flt, b: Flt)
    requires Lesser(a, b) != ZERO
    ensures var p, e := Product(a, b), ExponentSum(a, b);
      ShiftedUp(p, e) <= Times(Val(a), Val(b)) < ShiftedUp(p + 1, e)
  {
    hide Mantissa, Exponent, Pow2, Product, Quotient;
    var x, y := Exponent(a), Exponent(b);
    ProductShort(a, b);
    Powers();
    PowSum(x, y);
    PowSum(24, x + y);
    Rearrange(Mantissa(a), Pow2(x), Mantissa(b), Pow2(y));
    ShiftScales(Times(Mantissa(a), Mantissa(b)), Product(a, b), MSB, Pow2(x + y));
    OneMore(Product(a, b), ExponentSum(a, b));
  }

  /** Multiplication saturates exactly when the exact product is beyond the largest exponent. */
  lemma MulSaturatesIff(a: Flt, b: Flt)
    requires Lesser(a, b) != ZERO
    ensures MulOverflows(a, b) <==> Times(Val(a), Val(b)) >= ShiftedUp(CARRY, 383)
  {
    hide Mantissa, Exponent, Pow2, Product;
    MulRange(a, b);
    Normalised(Product(a, b), ExponentSum(a, b), 383);
  }

  /** It underflows exactly when the exact product is below the smallest mantissa at the smallest exponent,
      or not below but with an exponent that only normalisation would bring into range. */
  lemma MulUnderflowsIff(a: Flt, b: Flt)
    requires Lesser(a, b) != ZERO
    ensures MulUnderflows(a, b) <==>
      Times(Val(a), Val(b)) < ShiftedUp(MSB, 128) || (ExponentSum(a, b) == 127 && Product(a, b) >= CARRY)
  {
    hide Mantissa, Exponent, Pow2, Product;
    MulRange(a, b);
    Normalised(Product(a, b), ExponentSum(a, b), 127);
    DoubleUnit(127);
  }

  lemma DoubleUnit(e: nat)
    ensures ShiftedUp(CARRY, e) == ShiftedUp(MSB, e + 1)
  {
    assert Pow2(e + 1) == 2 * Pow2(e);
  }

  /** A product that may have one bit too many, against the bound of the exponent `top`. */
  lemma Normalised(p: nat, e: nat, top: nat)
    requires MSB <= p < 2 * CARRY
    ensures e > top || (e == top && p >= CARRY) ==> ShiftedUp(p, e) >= ShiftedUp(CARRY, top)
    ensures e < top || (e == top && p < CARRY) ==> ShiftedUp(p + 1, e) <= ShiftedUp(CARRY, top)
  {
    hide Pow2;
    if e > top {
      PowGrows(top, e);
      DoubledBelow(MSB, Pow2(top), p, Pow2(e));
    } else if e < top {
      PowGrows(e, top);
      DoubledBelow(CARRY, Pow2(e), CARRY, Pow2(top));
      Monotone(Pow2(e), p + 1, 2 * CARRY);
    } else if p >= CARRY {
      Monotone(Pow2(e), CARRY, p);
    } else {
      Monotone(Pow2(e), p + 1, CARRY);
    }
  }

  lemma DoubledBelow(m: nat, p: nat, n: nat, q: nat)
    requires m <= n && 2 * p <= q
    ensures Times(2 * m, p) <= Times(n, q)
  {
    Monotone(m, 2 * p, q);
    Monotone(q, m, n);
    assert 2 * m * p == m * (2 * p);
  }

  /** Without underflow, multiplication is accurate exactly when it neither saturates nor takes the code
      of zero. */
  lemma MulBoundsIff(a: Flt, b: Flt)
    requires Lesser(a, b) != ZERO && !MulUnderflows(a, b)
    ensures MulAccurate(a, b) <==> !MulOverflows(a, b) && !MulCollides(a, b)
  {
    hide Mantissa, Exponent, Pow2, Product;
    if MulOverflows(a, b) {
      MulSaturatesIff(a, b);
      InfinityShort(a, b);
    } else if MulCollides(a, b) {
      MulZeroIff(a, b);
      MulRange(a, b);
      Smallest();
      Monotone(Pow2(128), 1, MSB);
      CodeZero(MSB, 0);
    } else {
      MulBounds(a, b);
    }
  }

  lemma InfinityShort(a: Flt, b: Flt)
    requires MulFlt(a, b) == INF && Times(Val(a), Val(b)) >= ShiftedUp(CARRY, 383)
    ensures !MulAccurate(a, b)
  {
    hide Pow2, MulFlt;
    assert Mantissa(INF) == CARRY - 1 && Exponent(INF) == 255;
    OneMore(CARRY - 1, 255);
    PowSum(255, 128);
    Distribute(ShiftedUp(CARRY - 1, 255), Pow2(255), Pow2(128));
    Regroup(CARRY, Pow2(255), Pow2(128), Pow2(383), 1);
  }

  lemma Distribute(m: nat, n: nat, p: nat)
    ensures Times(m, p) + Times(n, p) == Times(m + n, p)
  {
    assert m * p + n * p == (m + n) * p;
  }

  /** The square of the root of the smallest normal number is neither out of range nor accurate. */
  lemma SquareCollides()
    ensures var a := 0x3400_0000;
      !MulOverflows(a, a) && !MulUnderflows(a, a) && MulFlt(a, a) == ZERO && !MulAccurate(a, a)
  {
    var a := 0x3400_0000;
    assert Mantissa(a) == MSB && Exponent(a) == 52;
    assert Product(a, a) == MSB;
    MulZeroIff(a, a);
    MulBoundsIff(a, a);
  }

  /** Two factors whose product only normalisation would bring into range: it is flushed to zero. */
  lemma FlushedEarly()
    ensures var a, b := 0x34ff_ffff, 0x33ff_ffff;
      MulFlt(a, b) == ZERO && Times(Val(a), Val(b)) >= ShiftedUp(MSB, 128)
  {
    var a, b := 0x34ff_ffff, 0x33ff_ffff;
    assert Mantissa(a) == CARRY - 1 && Mantissa(b) == CARRY - 1 && Exponent(a) == 52 && Exponent(b) == 51;
    assert Product(a, b) >= CARRY;
    MulRange(a, b);
    Normalised(Product(a, b), 127, 127);
    DoubleUnit(127);
  }

  lemma Rearrange(m: nat, p: nat, n: nat, q: nat)
    ensures Times(Times(m, p), Times(n, q)) == Times(Times(m, n), p * q)
  {
    assert m * p * (n * q) == m * n * (p * q);
  }

  lemma ScaleBounds(m: nat, p: nat, c: nat, scale: nat)
    requires p * c <= m < p * c + c && scale > 0
    ensures Times(Times(p, c), scale) <= Times(m, scale) < Times(Times(p, c), scale) + Times(c, scale)
  {
    Monotone(scale, p * c, m);
    Monotone(scale, m + 1, p * c + c);
    assert scale * (m + 1) == m * scale + scale;
    assert scale * (p * c + c) == p * c * scale + c * scale;
  }

  lemma ProductShort(a: Flt, b: Flt)
    ensures var m, p := Times(Mantissa(a), Mantissa(b)), Product(a, b);
      p * MSB <= m < p * MSB + MSB && p / 2 * CARRY <= m < p / 2 * CARRY + CARRY
  {
    QuotientBelow(Times(Mantissa(a), Mantissa(b)), MSB);
  }

  /** A mantissa at exponent `e`, once more at the scale of both factors. */
  lemma Scaled(p: nat, e: nat, xy: nat, c: nat, k: nat)
    requires e + 128 == xy + k && c == Pow2(k)
    ensures Times(ShiftedUp(p, e), Pow2(128)) == Times(Times(p, c), Pow2(xy))
    ensures Times(Pow2(e), Pow2(128)) == Times(c, Pow2(xy))
  {
    hide Pow2;
    PowSum(e, 128);
    PowSum(xy, k);
    Regroup(p, Pow2(e), Pow2(128), Pow2(xy), c);
  }

  lemma Regroup(p: nat, a: nat, b: nat, x: nat, c: nat)
    requires a * b == x * c
    ensures Times(Times(p, a), b) == Times(Times(p, c), x) && Times(a, b) == Times(c, x)
  {
    assert p * a * b == p * (a * b);
    assert p * (x * c) == p * c * x;
  }

  lemma Powers()
    ensures Pow2(24) == MSB && Pow2(25) == CARRY
  {
    assert Pow2(8) == 256;
    PowSum(8, 8);
    PowSum(16, 8);
  }

  // ----- conversion -----

  /** Between a mantissa and the next one at this exponent. */
  ghost predicate Within(x: nat, m: nat, e: nat) {
    ShiftedUp(m, e) <= x < ShiftedUp(m + 1, e)
  }

  /** A biased exponent as far as it is above the smallest one, and as far as it is below. */
  function Above(e: int): nat { if e > 0 then e else 0 }

  function Below(e: int): nat { if e < 0 then -e else 0 }

  /** The mantissa is shifted only where it has to be, so an exponent that is out of range at once is never
      brought back, and packing it asserts. */
  ghost predicate Unpackable(m: nat, e: int) {
    var x, unit := ShiftedUp(m, Above(e)), Pow2(Below(e));
    (m < CARRY && x >= Times(ShiftedUp(CARRY, 255), unit)) || (m >= MSB && x < Times(MSB, unit))
  }

  /** Normalise `m0` at the biased exponent `e0`, in units that make the smallest exponent whole: exact where
      zeros are shifted in, cut off where bits are shifted out; zero up to the smallest mantissa of the
      smallest exponent, saturated beyond the largest. */
  method Base2Flt(m0: nat, e0: int) returns (ok: bool, r: Flt)
    requires m0 < 0x1_0000_0000
    ensures ok <==> !Unpackable(m0, e0)
    ensures var x, unit := ShiftedUp(m0, Above(e0)), Pow2(Below(e0));
      ok ==>
        && (r == ZERO <==> x < Times(MSB + 1, unit))
        && (x >= Times(ShiftedUp(CARRY, 255), unit) ==> r == INF)
        && (Times(MSB + 1, unit) <= x < Times(ShiftedUp(CARRY, 255), unit) ==>
              Times(Val(r), unit) <= x < Times(Val(r) + Ulp(r), unit))
  {
    hide Pow2, Mantissa, Exponent, Unpackable;
    ghost var x, d := ShiftedUp(m0, Above(e0)), Below(e0);
    if m0 == 0 {
      FarBelow(m0, e0);
      return true, ZERO;
    }
    var m, e := m0, e0;
    Smallest();
    ExactlyWithin(m0, Above(e0));
    if m < MSB {
      while m < MSB
        invariant 0 < m < CARRY
        invariant if e0 <= 0 then m == m0 && e == e0 else 0 <= e <= e0 && ShiftedUp(m, e) == x
        decreases e
      {
        if e <= 0 {
          FarBelow(m0, e0);
          return true, ZERO;
        }
        ShiftLeft(m, e);
        m, e := 2 * m, e - 1;
      }
      ExactlyWithin(m, e);
    } else {
      while m >= CARRY
        invariant m >= MSB && e + d >= 0 && Within(x, m, e + d)
        invariant (m == m0 && e == e0) || (m0 >= CARRY && e <= 255)
        decreases m
      {
        if e >= 255 {
          FarAbove(m0, e0, m, e);
          return true, INF;
        }
        ShiftRight(x, m, e + d);
        m, e := m / 2, e + 1;
      }
    }
    InRangeIff(m0, e0, m, e);
    if e < 0 || e > 255 {
      return false, ZERO;
    }
    NormalBounds(x, d, m, e);
    ok, r := true, Pack(m, e);
  }

  /** The exponents of a shifted mantissa and of the unit add up. */
  lemma Rescaled(m: nat, e: nat, d: nat)
    ensures Times(ShiftedUp(m, e), Pow2(d)) == ShiftedUp(m, e + d)
  {
    hide Pow2;
    PowSum(e, d);
    assert m * Pow2(e) * Pow2(d) == m * (Pow2(e) * Pow2(d));
  }

  lemma FarBelow(m0: nat, e0: int)
    requires m0 < MSB && ShiftedUp(m0, Above(e0)) < MSB
    ensures !Unpackable(m0, e0)
    ensures var x, unit := ShiftedUp(m0, Above(e0)), Pow2(Below(e0));
      x < Times(MSB + 1, unit) && x < Times(ShiftedUp(CARRY, 255), unit)
  {
    hide Pow2;
    var unit := Pow2(Below(e0));
    Monotone(MSB, 1, unit);
    Monotone(CARRY, 1, Pow2(255));
    Monotone(ShiftedUp(CARRY, 255), 1, unit);
    assert unit * (MSB + 1) == MSB * unit + unit;
  }

  lemma FarAbove(m0: nat, e0: int, m: nat, e: int)
    requires m0 >= CARRY && m >= CARRY && e >= 255 && Within(ShiftedUp(m0, Above(e0)), m, e + Below(e0))
    ensures !Unpackable(m0, e0)
    ensures var x, unit := ShiftedUp(m0, Above(e0)), Pow2(Below(e0));
      x >= Times(MSB + 1, unit) && x >= Times(ShiftedUp(CARRY, 255), unit)
  {
    hide Pow2;
    var d := Below(e0);
    Rescaled(CARRY, 255, d);
    AtLeast(CARRY, 255 + d, m, e + d);
    AtLeast(MSB, d, CARRY, 255 + d);
    AtLeast(MSB + 1, d, CARRY, 255 + d);
  }

  lemma AtLeast(m: nat, e: nat, n: nat, f: nat)
    requires m <= n && e <= f
    ensures ShiftedUp(m, e) <= ShiftedUp(n, f)
  {
    hide Pow2;
    if e < f {
      PowGrows(e, f);
    }
    Monotone(m, Pow2(e), Pow2(f));
    Monotone(Pow2(f), m, n);
  }

  /** Packing a normalised mantissa works exactly when the exponent is in range. */
  lemma InRangeIff(m0: nat, e0: int, m: nat, e: int)
    requires MSB <= m < CARRY && e + Below(e0) >= 0 && Within(ShiftedUp(m0, Above(e0)), m, e + Below(e0))
    requires (m == m0 && e == e0) || (m0 < MSB && e >= 0) || (m0 >= CARRY && e <= 255)
    ensures Unpackable(m0, e0) <==> e < 0 || e > 255
  {
    hide Pow2;
    var d := Below(e0);
    Rescaled(CARRY, 255, d);
    Normalised(m, e + d, 255 + d);
    if e < 0 {
      Normalised(m, e + d, d - 1);
      DoubleUnit(d - 1);
    } else {
      AtLeast(MSB, d, m, e + d);
    }
  }

  lemma NormalBounds(x: nat, d: nat, m: nat, e: nat)
    requires MSB <= m < CARRY && e < 256 && Within(x, m, e + d)
    ensures var r, unit := Pack(m, e), Pow2(d);
      && (r == ZERO <==> x < Times(MSB + 1, unit))
      && x < Times(ShiftedUp(CARRY, 255), unit)
      && (r != ZERO ==> Times(Val(r), unit) <= x < Times(Val(r) + Ulp(r), unit))
  {
    hide Mantissa, Exponent, Pow2;
    CodeZero(m, e);
    if e > 0 {
      DoubleUnit(d);
      AtLeast(MSB, d + 1, m, e + d);
      Monotone(Pow2(d), MSB + 1, CARRY);
    } else if m > MSB {
      AtLeast(MSB + 1, d, m, e + d);
    }
    Rescaled(CARRY, 255, d);
    Normalised(m, e + d, 255 + d);
    OneMore(m, e);
    Rescaled(m, e, d);
    Rescaled(m + 1, e, d);
  }

  lemma ShiftLeft(m: nat, e: nat)
    requires e > 0
    ensures ShiftedUp(2 * m, e - 1) == ShiftedUp(m, e)
  {
    assert Pow2(e) == 2 * Pow2(e - 1);
    assert 2 * m * Pow2(e - 1) == m * (2 * Pow2(e - 1));
  }

  lemma ExactlyWithin(m: nat, e: nat)
    ensures Within(ShiftedUp(m, e), m, e)
  {
    hide Pow2;
    assert (m + 1) * Pow2(e) == m * Pow2(e) + Pow2(e);
  }

  lemma ShiftRight(x: nat, m: nat, e: nat)
    requires Within(x, m, e)
    ensures Within(x, m / 2, e + 1)
  {
    var p := Pow2(e);
    assert Pow2(e + 1) == 2 * p;
    hide Pow2;
    Monotone(p, 2 * (m / 2), m);
    Monotone(p, m + 1, 2 * (m / 2 + 1));
    assert m / 2 * (2 * p) == p * (2 * (m / 2));
    assert (m / 2 + 1) * (2 * p) == p * (2 * (m / 2 + 1));
  }

  lemma CodeZero(m: nat, e: nat)
    requires MSB <= m < CARRY && e < 256
    ensures Pack(m, e) == ZERO <==> m == MSB && e == 0
  {
    assert Mantissa(ZERO) == MSB && Exponent(ZERO) == 0;
  }

  lemma Smallest()
    ensures Pow2(0) == 1
  {
  }

  lemma OneMore(m: nat, e: nat)
    ensures ShiftedUp(m + 1, e) == ShiftedUp(m, e) + Pow2(e)
  {
    hide Pow2;
    assert (m + 1) * Pow2(e) == m * Pow2(e) + Pow2(e);
  }

  /** An exponent that is still too large when the mantissa is full, and one that is too small for a full
      mantissa: packing asserts. */
  lemma CannotPack()
    ensures Unpackable(1, 280) && Unpackable(MSB, -1)
  {
    Powers();
    hide Pow2;
    Smallest();
    PowSum(25, 255);
    DoubledOne();
  }

  lemma DoubledOne()
    ensures Pow2(1) == 2
  {
  }
}
