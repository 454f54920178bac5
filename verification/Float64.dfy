/**
 * IEEE 754 binary64 as the source's `f64` sees it: a sign, a 53-bit mantissa and an exponent, plus the two
 * non-finite forms. Every finite value has one representation here (two for zero, by sign).
 */
module Float64 {
  import opened Prelude

  const TWO_52: nat := 0x10_0000_0000_0000
  const TWO_53: nat := 0x20_0000_0000_0000

  // ------------------------------------------------------------------------------------------------------------
  // Shifts: multiplication and division by a power of two
  // ------------------------------------------------------------------------------------------------------------

  /** `m` times two to the `k`. */
  function Shl(m: nat, k: nat): nat {
    if k == 0 then m else 2 * Shl(m, k - 1)
  }

  /** `m` divided by two to the `k`, the fraction dropped. */
  function Shr(m: nat, k: nat): nat {
    if k == 0 then m else Shr(m, k - 1) / 2
  }

  lemma {:induction false} ShlSum(a: nat, b: nat, k: nat)
    ensures Shl(a + b, k) == Shl(a, k) + Shl(b, k)
  {
    if k == 0 {
    } else {
      ShlSum(a, b, k - 1);
    }
  }

  lemma {:induction false} ShlAdd(m: nat, j: nat, k: nat)
    ensures Shl(m, j + k) == Shl(Shl(m, j), k)
  {
    if k == 0 {
    } else {
      ShlAdd(m, j, k - 1);
    }
  }

  lemma {:induction false} ShlOrder(a: nat, b: nat, k: nat)
    ensures a <= b <==> Shl(a, k) <= Shl(b, k)
    ensures a == b <==> Shl(a, k) == Shl(b, k)
  {
    if k == 0 {
    } else {
      ShlOrder(a, b, k - 1);
    }
  }

  lemma {:induction false} ShlGrows(m: nat, j: nat, k: nat)
    requires j <= k
    ensures Shl(m, j) <= Shl(m, k)
    decreases k
  {
    if j == k {
    } else {
      ShlGrows(m, j, k - 1);
    }
  }

  lemma ShlDoubles(m: nat, k: nat)
    requires k >= 1
    ensures Shl(m, k) >= 2 * m
  {
    ShlGrows(m, 1, k);
    assert Shl(m, 1) == 2 * m;
  }

  /** The quotient brackets the dividend. */
  lemma {:induction false} ShrBounds(m: nat, k: nat)
    ensures Shl(Shr(m, k), k) <= m < Shl(Shr(m, k), k) + Shl(1, k)
  {
    if k == 0 {
    } else {
      ShrBounds(m, k - 1);
      var a := Shr(m, k - 1);
      if a % 2 == 0 {
        ShlSum(a / 2, a / 2, k - 1);
      } else {
        ShlSum(a / 2, a / 2, k - 1);
        ShlSum(a - 1, 1, k - 1);
      }
    }
  }

  lemma ShrUnique(m: nat, k: nat, q: nat)
    requires Shl(q, k) <= m < Shl(q, k) + Shl(1, k)
    ensures Shr(m, k) == q
  {
    ShrBounds(m, k);
    ShlSum(q, 1, k);
    ShlSum(Shr(m, k), 1, k);
    ShlOrder(q, Shr(m, k), k);
    ShlOrder(Shr(m, k) + 1, q, k);
    ShlOrder(q + 1, Shr(m, k), k);
  }

  lemma {:induction false} UnitPositive(k: nat)
    ensures Shl(1, k) >= 1
  {
    ShlGrows(1, 0, k);
  }

  lemma Constants()
    ensures Shl(1, 52) == TWO_52 && Shl(1, 53) == TWO_53
    ensures Shl(1, 63) == I64_MAX + 1 && Shl(1, 64) == U64_MAX + 1
  {
    assert Shl(1, 8) == 0x100;
    ShlAdd(1, 8, 8);
    assert Shl(1, 16) == Shl(0x100, 8) == 0x1_0000;
    ShlAdd(1, 16, 8);
    assert Shl(1, 24) == Shl(0x1_0000, 8) == 0x100_0000;
    ShlAdd(1, 24, 8);
    assert Shl(1, 32) == Shl(0x100_0000, 8) == 0x1_0000_0000;
    ShlAdd(1, 32, 8);
    assert Shl(1, 40) == Shl(0x1_0000_0000, 8) == 0x100_0000_0000;
    ShlAdd(1, 40, 8);
    assert Shl(1, 48) == Shl(0x100_0000_0000, 8) == 0x1_0000_0000_0000;
    ShlAdd(1, 48, 4);
    ShlAdd(1, 48, 5);
    ShlAdd(1, 53, 10);
  }

  // ------------------------------------------------------------------------------------------------------------
  // Values
  // ------------------------------------------------------------------------------------------------------------

  datatype F64 = Finite(neg: bool, m: nat, e: int) | Infinite(neg: bool) | NaN {
    /** Mantissa and exponent in range, and the mantissa normalised unless the number is subnormal or zero. */
    predicate Canonical() {
      Finite? ==> m < TWO_53 && -1074 <= e <= 971 && (m >= TWO_52 || e == -1074)
    }

    /** Rust's `f.fract() == 0.0` on a finite value. */
    predicate Integral()
      requires Finite?
    {
      e >= 0 || Shl(Shr(m, -e), -e) == m
    }

    /** Rust's `f.abs() <= 2^53`. */
    predicate AbsAtMostTwo53()
      requires Finite?
    {
      if e >= 0 then Shl(m, e) <= TWO_53 else m <= Shl(TWO_53, -e)
    }

    /** The magnitude with its fraction dropped. */
    function Magnitude(): nat
      requires Finite?
    {
      if e >= 0 then Shl(m, e) else Shr(m, -e)
    }

    /** Rust's `f as i64`: truncate toward zero, saturate at the ends. */
    function AsI64(): i64
      requires Finite?
    {
      var t: int := if neg then 0 - Magnitude() else Magnitude();
      if t > I64_MAX then I64_MAX else if t < I64_MIN then I64_MIN else t
    }

    /** The float is exactly the integer `n`. */
    predicate Denotes(n: int) {
      && Finite?
      && (if neg then n <= 0 else n >= 0)
      && var a: nat := if n < 0 then 0 - n else n;
         if e >= 0 then a == Shl(m, e) else Shl(a, -e) == m
    }
  }

  type f64 = f: F64 | f.Canonical() witness NaN
  type finite64 = f: F64 | f.Canonical() && f.Finite? witness Finite(false, 0, -1074)

  // ------------------------------------------------------------------------------------------------------------
  // Integer to float: roundTiesToEven
  // ------------------------------------------------------------------------------------------------------------

  /** The number of significant bits of `u`. */
  function BitLength(u: nat): (n: nat)
    ensures u < Shl(1, n)
    ensures u > 0 ==> n > 0 && Shl(1, n - 1) <= u
  {
    if u == 0 then 0 else 1 + BitLength(u / 2)
  }

  lemma UnitLess(j: nat, k: nat)
    requires Shl(1, j) < Shl(1, k)
    ensures j < k
  {
    if k <= j {
      ShlGrows(1, k, j);
    }
  }

  lemma BitLengthUnique(u: nat, n: nat)
    requires n > 0 && Shl(1, n - 1) <= u < Shl(1, n)
    ensures BitLength(u) == n
  {
    UnitPositive(n - 1);
    UnitLess(n - 1, BitLength(u));
    UnitLess(BitLength(u) - 1, n);
  }

  lemma BitLengthBound(u: nat, n: nat)
    requires u < Shl(1, n)
    ensures BitLength(u) <= n
  {
    if u > 0 {
      UnitLess(BitLength(u) - 1, n);
    }
  }

  lemma LargeBitLength(u: nat)
    requires u >= TWO_53
    ensures BitLength(u) > 53
  {
    Constants();
    UnitLess(53, BitLength(u));
  }

  /** `u / 2^k` rounded to the nearest integer, a tie going to the even neighbour. */
  function DivideTiesToEven(u: nat, k: nat): nat {
    ShrBounds(u, k);
    var q := Shr(u, k);
    var r := u - Shl(q, k);
    if 2 * r > Shl(1, k) || (2 * r == Shl(1, k) && q % 2 == 1) then q + 1 else q
  }

  /** Off by at most half a step, and at exactly half a step the result is even. */
  lemma DivideIsNearest(u: nat, k: nat)
    ensures var d := DivideTiesToEven(u, k); var error := 2 * (u - Shl(d, k));
            && 0 - Shl(1, k) <= error <= Shl(1, k)
            && (error == Shl(1, k) || error == 0 - Shl(1, k) ==> d % 2 == 0)
  {
    ShrBounds(u, k);
    ShlSum(Shr(u, k), 1, k);
  }

  lemma DivideMonotone(u: nat, w: nat, k: nat)
    requires u <= w
    ensures DivideTiesToEven(u, k) <= DivideTiesToEven(w, k)
  {
    ShrBounds(u, k);
    ShrBounds(w, k);
    ShlSum(Shr(w, k), 1, k);
    ShlOrder(Shr(w, k) + 1, Shr(u, k), k);
  }

  /** A dividend of `53 + k` bits has a quotient of 53 bits, rounding up to 2^53 at most. */
  lemma DivideRange(u: nat, k: nat)
    requires u > 0 && BitLength(u) == 53 + k
    ensures TWO_52 <= DivideTiesToEven(u, k) <= TWO_53
  {
    Constants();
    ShlAdd(1, 52, k);
    ShlAdd(1, 53, k);
    ShrBounds(u, k);
    var q := Shr(u, k);
    ShlOrder(TWO_53, q, k);
    ShlSum(q, 1, k);
    ShlOrder(q + 1, TWO_52, k);
  }

  /** Rust's `u as f64` for an unsigned integer. */
  function FromNat(u: nat): (f: F64)
    ensures f.Finite?
  {
    var k: int := BitLength(u) - 53;
    if u == 0 then Finite(false, 0, -1074)
    else if k <= 0 then Finite(false, Shl(u, -k), k)
    else
      var q := DivideTiesToEven(u, k);
      if q == TWO_53 then Finite(false, TWO_52, k + 1) else Finite(false, q, k)
  }

  /** Rust's `n as f64` for a signed integer. */
  function FromInt(n: int): F64 {
    if n >= 0 then FromNat(n) else var f := FromNat(-n); Finite(true, f.m, f.e)
  }

  /** The conversion yields a canonical float. */
  lemma FromNatCanonical(u: nat)
    requires u <= U64_MAX
    ensures FromNat(u).Canonical()
  {
    if u > 0 {
      Constants();
      BitLengthBound(u, 64);
      var n := BitLength(u);
      if n <= 53 {
        ShlAdd(1, n - 1, 53 - n);
        ShlAdd(1, n, 53 - n);
        ShlOrder(Shl(1, n - 1), u, 53 - n);
        ShlOrder(Shl(1, n), u, 53 - n);
      } else {
        DivideRange(u, n - 53);
      }
    }
  }

  lemma FromIntCanonical(n: i64)
    ensures FromInt(n).Canonical() && FromInt(n).Finite?
  {
    FromNatCanonical(if n < 0 then 0 - n else n);
  }

  lemma FromTwo53()
    ensures FromNat(TWO_53) == Finite(false, TWO_52, 1)
  {
    Constants();
    BitLengthUnique(TWO_53, 54);
  }

  /** Up to 2^53 the conversion is exact. */
  lemma FromNatExact(u: nat)
    requires u <= TWO_53
    ensures FromNat(u).Denotes(u)
  {
    if u == 0 {
      assert Shl(0, 1074) == 0 by { ZeroShl(1074); }
    } else if u == TWO_53 {
      FromTwo53();
    } else {
      Constants();
      BitLengthBound(u, 53);
    }
  }

  lemma {:induction false} ZeroShl(k: nat)
    ensures Shl(0, k) == 0
  {
    if k == 0 {
    } else {
      ZeroShl(k - 1);
    }
  }

  /** The magnitude of a converted integer, in terms of the rounded quotient. */
  lemma FromNatMagnitude(u: nat)
    requires BitLength(u) > 53
    ensures var k := BitLength(u) - 53; FromNat(u).Magnitude() == Shl(DivideTiesToEven(u, k), k)
  {
    var k := BitLength(u) - 53;
    ShlAdd(TWO_52, 1, k);
    assert Shl(TWO_52, 1) == TWO_53;
  }

  /**
   * roundTiesToEven: `m` is off `u` by at most half a unit in the last place (`2^(bits - 53)`), and at exactly half the
   * multiple of the unit is even.
   */
  ghost predicate NearestEven(u: nat, m: nat)
    requires BitLength(u) > 53
  {
    var k, error := BitLength(u) - 53, 2 * (u - m);
    && 0 - Shl(1, k) <= error <= Shl(1, k)
    && exists q: nat :: m == Shl(q, k) && (error == Shl(1, k) || error == 0 - Shl(1, k) ==> q % 2 == 0)
  }

  lemma FromNatIsNearestEven(u: nat)
    requires BitLength(u) > 53
    ensures NearestEven(u, FromNat(u).Magnitude())
  {
    var k := BitLength(u) - 53;
    FromNatMagnitude(u);
    DivideIsNearest(u, k);
    var q := DivideTiesToEven(u, k);
    assert FromNat(u).Magnitude() == Shl(q, k);
  }

  /** Up to 2^53 the conversion has the integer itself as its magnitude. */
  lemma ExactMagnitude(u: nat)
    requires u <= TWO_53
    ensures FromNat(u).Magnitude() == u
  {
    FromNatExact(u);
    var f := FromNat(u);
    if f.e < 0 {
      UnitPositive(-f.e);
      ShrUnique(f.m, -f.e, u);
    }
  }

  /** Rounding never reverses an order. */
  lemma FromNatMonotone(u: nat, w: nat)
    requires u <= w
    ensures FromNat(u).Magnitude() <= FromNat(w).Magnitude()
  {
    if w <= TWO_53 {
      ExactMagnitude(u);
      ExactMagnitude(w);
    } else if u <= TWO_53 {
      ExactMagnitude(u);
      ExactMagnitude(TWO_53);
      LargeMonotone(TWO_53, w);
    } else {
      LargeMonotone(u, w);
    }
  }

  lemma LargeMonotone(u: nat, w: nat)
    requires TWO_53 <= u <= w
    ensures FromNat(u).Magnitude() <= FromNat(w).Magnitude()
  {
    LargeBitLength(u);
    LargeBitLength(w);
    var k, l := BitLength(u) - 53, BitLength(w) - 53;
    assert k <= l by { UnitLess(BitLength(u) - 1, BitLength(w)); }
    FromNatMagnitude(u);
    FromNatMagnitude(w);
    if k < l {
      MonotoneAcross(u, w, k, l);
    } else {
      DivideMonotone(u, w, k);
      ShlOrder(DivideTiesToEven(u, k), DivideTiesToEven(w, k), k);
    }
  }

  lemma MonotoneAcross(u: nat, w: nat, k: nat, l: nat)
    requires 0 < k < l && u > 0 && w > 0 && BitLength(u) == 53 + k && BitLength(w) == 53 + l
    ensures Shl(DivideTiesToEven(u, k), k) <= Shl(DivideTiesToEven(w, l), l)
  {
    DivideRange(u, k);
    DivideRange(w, l);
    ShlOrder(DivideTiesToEven(u, k), TWO_53, k);
    ShlAdd(TWO_52, 1, k);
    assert Shl(TWO_52, 1) == TWO_53;
    ShlGrows(TWO_52, k + 1, l);
    ShlOrder(TWO_52, DivideTiesToEven(w, l), l);
  }

  /** Beyond the signed range a converted integer is far above 2^53: by monotonicity from 2^63. */
  lemma FromNatLarge(u: nat)
    requires I64_MAX < u
    ensures FromNat(u).Magnitude() >= I64_MAX + 1
  {
    var t := I64_MAX + 1;
    Constants();
    BitLengthUnique(t, 64);
    assert Shl(TWO_52, 11) == t by { ShlAdd(1, 52, 11); }
    ShrUnique(t, 11, TWO_52);
    FromNatMagnitude(t);
    FromNatMonotone(t, u);
  }

  // ------------------------------------------------------------------------------------------------------------
  // Exactness
  // ------------------------------------------------------------------------------------------------------------

  /** A canonical float is determined by the non-zero integer it denotes. */
  lemma DenotesInjective(f: F64, g: F64, n: int)
    requires f.Canonical() && g.Canonical() && n != 0
    requires f.Denotes(n) && g.Denotes(n)
    ensures f == g
  {
    ExponentAtLeast(f, g, n);
    ExponentAtLeast(g, f, n);
    if f.e >= 0 {
      ShlOrder(f.m, g.m, f.e);
    }
  }

  lemma ExponentAtLeast(f: F64, g: F64, n: int)
    requires f.Canonical() && g.Canonical() && n != 0
    requires f.Denotes(n) && g.Denotes(n)
    ensures f.e >= g.e
  {
    if f.e < g.e {
      // Both mantissas stand for the same number, so the one at the smaller exponent is at least doubled.
      Rescale(f, g, n);
      ShlDoubles(g.m, g.e - f.e);
    }
  }

  lemma Rescale(f: F64, g: F64, n: int)
    requires f.Denotes(n) && g.Denotes(n) && f.e < g.e
    ensures f.m == Shl(g.m, g.e - f.e)
  {
    var d := g.e - f.e;
    var a: nat := if n < 0 then 0 - n else n;
    if f.e >= 0 {
      ShlAdd(g.m, d, f.e);
      ShlOrder(f.m, Shl(g.m, d), f.e);
    } else if g.e >= 0 {
      ShlAdd(g.m, g.e, -f.e);
    } else {
      ShlAdd(a, -g.e, d);
    }
  }

  /** `f` is the float that stands for the integer `n`: exactly up to 2^53, and beyond it rounded, with the sign of `n`. */
  ghost predicate StandsFor(f: F64, n: int) {
    var a: nat := if n < 0 then 0 - n else n;
    && f.Finite?
    && (a <= TWO_53 ==> f.Denotes(n) && (n == 0 ==> !f.neg))
    && (a > TWO_53 ==> (f.neg <==> n < 0) && BitLength(a) > 53 && NearestEven(a, f.Magnitude()))
  }

  /** Converting an integer of either sign gives the float that stands for it. */
  lemma FromIntStandsFor(n: int)
    ensures StandsFor(FromInt(n), n)
  {
    var a: nat := if n < 0 then 0 - n else n;
    var f, g := FromInt(n), FromNat(a);
    assert f.Magnitude() == g.Magnitude() && !g.neg;
    if a <= TWO_53 {
      FromNatExact(a);
    } else {
      LargeBitLength(a);
      FromNatIsNearestEven(a);
    }
  }
}
