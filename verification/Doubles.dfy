/** Double-precision numbers in their binary form, and rounding to the nearest of them. */
module Doubles {
  import opened Bytes
  import opened Decimal

  /** Powers of two and of ten with any exponent. */
  function Two(e: int): (r: real)
    ensures r > 0.0
    decreases if e < 0 then -e else e
  {
    if e == 0 then 1.0 else if e > 0 then 2.0 * Two(e - 1) else Two(e + 1) / 2.0
  }

  function Ten(e: int): (r: real)
    ensures r > 0.0
    decreases if e < 0 then -e else e
  {
    if e == 0 then 1.0 else if e > 0 then 10.0 * Ten(e - 1) else Ten(e + 1) / 10.0
  }

  lemma TwoStep(e: int)
    ensures Two(e + 1) == 2.0 * Two(e)
  {
  }

  lemma TenStep(e: int)
    ensures Ten(e + 1) == 10.0 * Ten(e)
  {
  }

  lemma {:induction false} TwoAdd(a: int, b: nat)
    ensures Two(a + b) == Two(a) * Two(b)
  {
    hide Two;
    TwoZero();
    if b > 0 {
      TwoAdd(a, b - 1);
      TwoStep(a + b - 1);
      TwoStep(b - 1);
      assert 2.0 * (Two(a) * Two(b - 1)) == Two(a) * (2.0 * Two(b - 1));
    }
  }

  lemma TwoZero()
    ensures Two(0) == 1.0
  {
  }

  lemma {:induction false} TenAdd(a: int, b: nat)
    ensures Ten(a + b) == Ten(a) * Ten(b)
  {
    hide Ten;
    TenZero();
    if b > 0 {
      TenAdd(a, b - 1);
      TenStep(a + b - 1);
      TenStep(b - 1);
      assert 10.0 * (Ten(a) * Ten(b - 1)) == Ten(a) * (10.0 * Ten(b - 1));
    }
  }

  lemma TenZero()
    ensures Ten(0) == 1.0
  {
  }

  lemma {:induction false} TwoGrows(a: int, b: int)
    requires a <= b
    ensures Two(a) <= Two(b)
    decreases b - a
  {
    if a < b {
      TwoGrows(a, b - 1);
      TwoStep(b - 1);
    }
  }

  lemma {:induction false} TenGrows(a: int, b: int)
    requires a <= b
    ensures Ten(a) <= Ten(b)
    decreases b - a
  {
    if a < b {
      TenGrows(a, b - 1);
      TenStep(b - 1);
    }
  }

  /** 2^52, the weight of the leading bit. */
  const HIDDEN: nat := 0x10_0000_0000_0000

  lemma SmallPowers()
    ensures Two(13) == 8192.0 && Ten(4) == 10000.0
  {
  }

  lemma FiftyTwo()
    ensures Two(52) == HIDDEN as real
  {
    hide Two;
    SmallPowers();
    TwoAdd(13, 13);
    TwoAdd(26, 26);
  }

  lemma Fifty2(e: int)
    ensures Two(e + 52) == HIDDEN as real * Two(e) && Two(e + 53) == 2.0 * HIDDEN as real * Two(e)
  {
    FiftyTwo();
    hide Two;
    TwoAdd(e, 52);
    TwoStep(e + 52);
  }

  /** The binary format: a significand of 53 bits, fewer only at the smallest exponent. */
  datatype Double =
    | Finite(negative: bool, significand: nat, exponent: int)
    | Infinite(negative: bool)
    | NotANumber

  predicate IsDouble(x: Double) {
    x.Finite? ==>
      && -1074 <= x.exponent <= 971 && x.significand < 2 * HIDDEN
      && (x.exponent > -1074 ==> x.significand >= HIDDEN)
  }

  type double = x: Double | IsDouble(x) witness Finite(false, 0, -1074)

  /** Zero has two signs, which compare equal. */
  function Unsigned(x: double): double {
    if x.Finite? && x.significand == 0 then Finite(false, 0, -1074) else x
  }

  /** The C operator `==`: what is not a number differs even from itself. */
  predicate Equal(x: double, y: double) {
    x != NotANumber && y != NotANumber && Unsigned(x) == Unsigned(y)
  }

  function Magnitude(x: double): (r: real)
    requires x.Finite?
    ensures r >= 0.0 && (r == 0.0 <==> x.significand == 0)
  {
    x.significand as real * Two(x.exponent)
  }

  function Ratio(x: real, u: real): (y: real)
    requires x >= 0.0 && u > 0.0
    ensures y >= 0.0 && y * u == x
  {
    x / u
  }

  const INT_MIN: int := -0x8000_0000

  function Signed(x: double): real
    requires x.Finite?
  {
    if x.negative then -Magnitude(x) else Magnitude(x)
  }

  /** The conversion to `int` in `parse_number`: saturating, otherwise towards zero. */
  function Saturated(x: double): int
    requires x != NotANumber
  {
    if x.Infinite? then if x.negative then INT_MIN else INT_MAX
    else if Signed(x) >= INT_MAX as real then INT_MAX
    else if Signed(x) <= INT_MIN as real then INT_MIN
    else if x.negative then -Magnitude(x).Floor
    else Magnitude(x).Floor
  }

  /** The result is an `int`: the number without its fraction inside the range, and the nearest end of it outside. */
  lemma SaturatedFits(x: double)
    requires x != NotANumber
    ensures INT_MIN <= Saturated(x) <= INT_MAX
    ensures x.Finite? && -2147483648.0 <= Signed(x) <= 2147483647.0 ==>
      if Signed(x) < 0.0 then Signed(x) <= Saturated(x) as real < Signed(x) + 1.0 && Saturated(x) <= 0
      else Signed(x) - 1.0 < Saturated(x) as real <= Signed(x)
    ensures x.Finite? && Signed(x) > 2147483647.0 ==> Saturated(x) == 2147483647
    ensures x.Finite? && Signed(x) < -2147483648.0 ==> Saturated(x) == -2147483648
    ensures x.Infinite? ==> Saturated(x) == if x.negative then -2147483648 else 2147483647
  {
  }

  /** The nearest integer, of two equally near ones the even one. */
  function HalfEven(y: real): nat
    requires y >= 0.0
  {
    var f := y.Floor;
    var r := y - f as real;
    if r < 0.5 || (r == 0.5 && f % 2 == 0) then f else f + 1
  }

  lemma HalfEvenAtLeast(y: real, n: nat)
    requires y >= n as real
    ensures HalfEven(y) >= n
  {
  }

  lemma HalfEvenNear(y: real, n: nat)
    requires y >= 0.0 && n as real - 0.5 < y < n as real + 0.5
    ensures HalfEven(y) == n
  {
  }

  lemma HalfEvenError(y: real)
    requires y >= 0.0
    ensures y - 0.5 <= HalfEven(y) as real <= y + 0.5
  {
  }

  /** The exponent at which `x` has 53 bits, or the nearest one there is. */
  function BinaryExponent(x: real, e: int): (r: int)
    requires -1074 <= e <= 971
    ensures e <= r <= 971
    ensures r < 971 ==> x < Two(r + 53)
    ensures r > e ==> x >= Two(r + 52)
    decreases 971 - e
  {
    if e == 971 || x < Two(e + 53) then e else BinaryExponent(x, e + 1)
  }

  lemma BinaryExponentIs(x: real, e: int)
    requires -1074 <= e <= 971 && (e < 971 ==> x < Two(e + 53)) && (e > -1074 ==> x >= Two(e + 52))
    ensures BinaryExponent(x, -1074) == e
  {
    hide Two;
    var r := BinaryExponent(x, -1074);
    if r < e {
      TwoGrows(r + 53, e + 52);
    } else if r > e {
      TwoGrows(e + 53, r + 52);
    }
  }

  /** Rounding to nearest, ties to even; beyond the largest double lies infinity. */
  function Round(negative: bool, x: real): (r: double)
    requires x >= 0.0
    ensures r != NotANumber
  {
    var e := BinaryExponent(x, -1074);
    var q := HalfEven(Ratio(x, Two(e)));
    Fifty2(e);
    QuotientBounds(x, e);
    if q < 2 * HIDDEN then Finite(negative, q, e)
    else if q == 2 * HIDDEN && e < 971 then Finite(negative, HIDDEN, e + 1)
    else Infinite(negative)
  }

  lemma QuotientBounds(x: real, e: int)
    requires x >= 0.0
    ensures x >= HIDDEN as real * Two(e) ==> HalfEven(Ratio(x, Two(e))) >= HIDDEN
  {
    hide Two, Ratio, HalfEven;
    if x >= HIDDEN as real * Two(e) {
      AtLeast(x, Ratio(x, Two(e)), Two(e), HIDDEN as real);
      HalfEvenAtLeast(Ratio(x, Two(e)), HIDDEN);
    }
  }

  lemma AtLeast(x: real, y: real, u: real, c: real)
    requires u > 0.0 && y * u == x && x >= c * u
    ensures y >= c
  {
    if y < c {
      Strictly(y, c, u);
    }
  }

  lemma LessThan(x: real, y: real, u: real, c: real)
    requires u > 0.0 && y * u == x && x < c * u
    ensures y < c
  {
    if y >= c {
      Product(y, c, u);
    }
  }

  lemma Strictly(a: real, b: real, w: real)
    requires w > 0.0 && a < b
    ensures a * w < b * w
  {
  }

  lemma Product(a: real, b: real, w: real)
    requires w > 0.0 && a >= b
    ensures a * w >= b * w
  {
  }

  /** How near a number must be to a double to be rounded to it. */
  ghost predicate Near(d: double, x: real)
    requires d.Finite?
  {
    var w := Two(d.exponent);
    && x >= 0.0 && x < Magnitude(d) + w / 2.0
    && x > Magnitude(d) - (if d.significand == HIDDEN then w / 4.0 else w / 2.0)
  }

  lemma RoundsBack(d: double, x: real)
    requires d.Finite? && Near(d, x)
    ensures Round(d.negative, x) == d
  {
    hide Two;
    if d.exponent == -1074 || x >= HIDDEN as real * Two(d.exponent) {
      RoundsInside(d, x);
    } else {
      RoundsUp(d, x);
    }
  }

  lemma RoundsInside(d: double, x: real)
    requires d.Finite? && Near(d, x) && (d.exponent == -1074 || x >= HIDDEN as real * Two(d.exponent))
    ensures Round(d.negative, x) == d
  {
    hide Two, Ratio, HalfEven, BinaryExponent;
    var e, w, m := d.exponent, Two(d.exponent), d.significand;
    Fifty2(e);
    BelowTop(x, w, m as real, HIDDEN as real);
    BinaryExponentIs(x, e);
    Between(x, w, m);
  }

  /** Just below a power of two, where doubles lie twice as close. */
  lemma RoundsUp(d: double, x: real)
    requires d.Finite? && Near(d, x) && d.exponent > -1074 && x < HIDDEN as real * Two(d.exponent)
    ensures Round(d.negative, x) == d
  {
    hide Two, Ratio, HalfEven, BinaryExponent;
    var e, w := d.exponent, Two(d.exponent);
    AtHidden(x, w, d.significand as real, HIDDEN as real);
    assert d.significand == HIDDEN;
    TwoStep(e - 1);
    Fifty2(e - 1);
    BinaryExponentIs(x, e - 1);
    Between(x, w / 2.0, 2 * HIDDEN);
  }

  lemma BelowTop(x: real, w: real, m: real, h: real)
    requires w > 0.0 && m <= 2.0 * h - 1.0 && x < m * w + w / 2.0
    ensures x < 2.0 * h * w
  {
    Product(2.0 * h - 1.0, m, w);
  }

  /** Below the leading bit and yet near a significand that has it: the significand is the leading bit. */
  lemma AtHidden(x: real, w: real, m: real, h: real)
    requires w > 0.0 && m >= h && x < h * w && x > m * w - w / 2.0
    ensures m < h + 1.0
  {
    if m >= h + 1.0 {
      Product(m, h + 1.0, w);
    }
  }

  lemma Between(x: real, w: real, n: nat)
    requires x >= 0.0 && w > 0.0 && n as real * w - w / 2.0 < x < n as real * w + w / 2.0
    ensures HalfEven(Ratio(x, w)) == n
  {
    hide Ratio, HalfEven;
    var y := Ratio(x, w);
    if y >= n as real + 0.5 { Product(y, n as real + 0.5, w); }
    if y <= n as real - 0.5 { Product(n as real - 0.5, y, w); }
    HalfEvenNear(y, n);
  }

  // ---------- decimal exponents ----------

  lemma TwoTen()
    ensures Two(93) <= Ten(28) && Two(51) <= Ten(16)
  {
    hide Two, Ten;
    SmallPowers();
    TwoAdd(13, 13);
    TwoAdd(26, 13);
    TwoStep(39);
    TwoStep(40);
    TwoStep(41);
    TwoStep(42);
    TwoStep(43);
    TwoStep(44);
    TwoStep(45);
    TwoStep(46);
    TwoAdd(47, 46);
    TwoStep(47);
    TwoStep(48);
    TwoStep(49);
    TwoStep(50);
    TenAdd(4, 4);
    TenAdd(8, 8);
    TenAdd(8, 4);
    TenAdd(16, 12);
  }

  lemma Products(a: real, b: real, c: real, d: real)
    requires 0.0 < a <= c && 0.0 < b <= d
    ensures a * b <= c * d
  {
    Product(c, a, b);
    Product(d, b, c);
    assert a * b <= c * b <= c * d;
  }

  lemma {:induction false} TwoBelowTen(k: nat)
    ensures Two(93 * k) <= Ten(28 * k)
  {
    hide Two, Ten;
    if k == 0 {
      TwoZero();
      TenZero();
    } else {
      TwoBelowTen(k - 1);
      TwoTen();
      TwoAdd(93 * (k - 1), 93);
      TenAdd(28 * (k - 1), 28);
      Products(Two(93 * (k - 1)), Two(93), Ten(28 * (k - 1)), Ten(28));
      assert 93 * (k - 1) + 93 == 93 * k && 28 * (k - 1) + 28 == 28 * k;
    }
  }

  lemma Extremes()
    ensures Ten(-324) <= Two(-1074) && Two(1024) <= Ten(309)
  {
    hide Two, Ten;
    TwoBelowTen(11);
    TwoTen();
    TwoStep(1023);
    TenStep(308);
    TwoAdd(1023, 51);
    TenAdd(308, 16);
    Products(Two(1023), Two(51), Ten(308), Ten(16));
    TwoAdd(-1074, 1074);
    TenAdd(-324, 324);
    TwoZero();
    TenZero();
    Inverse(Ten(-324), Ten(324), Two(-1074), Two(1074));
  }

  lemma Inverse(a: real, c: real, b: real, d: real)
    requires a > 0.0 && b > 0.0 && 0.0 < d <= c && a * c == 1.0 && b * d == 1.0
    ensures a <= b
  {
    Product(c, d, a);
    assert (a - b) * d <= 0.0;
  }

  /** The exponent of the leading decimal digit. */
  function DecimalExponent(x: real, k: int): (r: int)
    requires -324 <= k <= 308
    ensures k <= r <= 308
    ensures r < 308 ==> x < Ten(r + 1)
    ensures r > k ==> x >= Ten(r)
    decreases 308 - k
  {
    if k == 308 || x < Ten(k + 1) then k else DecimalExponent(x, k + 1)
  }

  lemma MagnitudeBounds(d: double, lo: int, hi: int)
    requires d.Finite? && d.significand > 0 && lo <= d.exponent && d.exponent + 53 <= hi
    ensures Two(lo) <= Magnitude(d) < Two(hi)
  {
    hide Two;
    TwoGrows(lo, d.exponent);
    TwoGrows(d.exponent + 53, hi);
    var w, m := Two(d.exponent), d.significand as real;
    Fifty2(d.exponent);
    Product(m, 1.0, w);
    BelowTop(m * w, w, m, HIDDEN as real);
    assert Magnitude(d) == m * w >= w >= Two(lo);
    assert Magnitude(d) < Two(d.exponent + 53) <= Two(hi);
  }

  lemma DecimalExponentBounds(d: double)
    requires d.Finite? && d.significand > 0
    ensures var k := DecimalExponent(Magnitude(d), -324); Ten(k) <= Magnitude(d) < Ten(k + 1)
  {
    hide Two, Ten;
    MagnitudeBounds(d, -1074, 1024);
    Extremes();
  }

  // ---------- significant digits ----------

  /** A number by its significant digits, the first of which has the exponent. */
  datatype Scientific = Scientific(digits: nat, exponent: int)

  function ValueOf(s: Scientific, p: nat): (r: real)
    ensures r >= 0.0
  {
    s.digits as real * Ten(s.exponent - p + 1)
  }

  /** The unit of the last of `p` digits. */
  function Unit(x: real, p: nat): (u: real)
    ensures u > 0.0
  {
    Ten(DecimalExponent(x, -324) - p + 1)
  }

  /** `x` rounded to `p` significant digits, as `printf` does. */
  function Significant(x: real, p: nat): Scientific
    requires x > 0.0 && p > 0
  {
    var k := DecimalExponent(x, -324);
    var n := HalfEven(Ratio(x, Unit(x, p)));
    if n == Pow10(p) then Scientific(Pow10(p - 1), k + 1) else Scientific(n, k)
  }

  lemma {:induction false} TenOfNat(p: nat)
    ensures Ten(p) == Pow10(p) as real
  {
    if p > 0 {
      TenOfNat(p - 1);
    }
  }

  lemma UnitBounds(d: double, p: nat)
    requires d.Finite? && d.significand > 0 && p > 0
    ensures var x := Magnitude(d);
      Pow10(p - 1) as real * Unit(x, p) <= x < Pow10(p) as real * Unit(x, p)
  {
    hide Ten, Pow10, DecimalExponent, Magnitude;
    var k := DecimalExponent(Magnitude(d), -324);
    DecimalExponentBounds(d);
    TenAdd(k - p + 1, p - 1);
    TenAdd(k - p + 1, p);
    TenOfNat(p - 1);
    TenOfNat(p);
  }

  /** The digits are as many as asked for, and off by at most half a unit of the last one. */
  lemma SignificantOf(d: double, p: nat)
    requires d.Finite? && d.significand > 0 && p > 0
    ensures var x, s := Magnitude(d), Significant(Magnitude(d), p);
      Pow10(p - 1) <= s.digits < Pow10(p) && HalfUnit(x, ValueOf(s, p), Unit(x, p))
  {
    hide Unit, Ratio, Ten, Pow10, HalfEven, DecimalExponent, Magnitude, HalfUnit, UnitsOff, ValueOf;
    var x := Magnitude(d);
    UnitBounds(d, p);
    DigitsOf(x, Ratio(x, Unit(x, p)), Unit(x, p), Pow10(p - 1), Pow10(p));
    Units(x, p);
    PowerStep(p - 1);
    InUnits(x, HalfEven(Ratio(x, Unit(x, p))) as real, Unit(x, p), ValueOf(Significant(x, p), p));
  }

  lemma InUnits(x: real, n: real, u: real, v: real)
    requires UnitsOff(x, n, u) && v == n * u
    ensures HalfUnit(x, v, u)
  {
  }

  /** Carrying into a new leading digit keeps the value. */
  lemma Units(x: real, p: nat)
    requires x > 0.0 && p > 0
    ensures ValueOf(Significant(x, p), p) == HalfEven(Ratio(x, Unit(x, p))) as real * Unit(x, p)
  {
    hide Ratio, Ten, Pow10, HalfEven, DecimalExponent;
    var k := DecimalExponent(x, -324);
    TenStep(k - p + 1);
    PowerStep(p - 1);
    assert Pow10(p) as real == 10.0 * Pow10(p - 1) as real;
  }

  lemma DigitsOf(x: real, y: real, u: real, lo: nat, hi: nat)
    requires u > 0.0 && y * u == x && lo as real * u <= x < hi as real * u
    ensures y >= 0.0
    ensures var n := HalfEven(y);
      lo <= n <= hi && UnitsOff(x, n as real, u)
  {
    AtLeast(x, y, u, lo as real);
    LessThan(x, y, u, hi as real);
    HalfEvenAtLeast(y, lo);
    HalfEvenAtMost(y, hi);
    hide HalfEven, UnitsOff;
    HalfEvenError(y);
    WithinHalf(x, y, HalfEven(y) as real, u);
  }

  lemma HalfEvenAtMost(y: real, hi: nat)
    requires 0.0 <= y < hi as real
    ensures HalfEven(y) <= hi
  {
  }

  /** `v` is off by at most half a unit. */
  ghost predicate HalfUnit(x: real, v: real, u: real) {
    v - u / 2.0 <= x <= v + u / 2.0
  }

  ghost predicate UnitsOff(x: real, n: real, u: real) {
    HalfUnit(x, n * u, u)
  }

  lemma WithinHalf(x: real, y: real, n: real, u: real)
    requires u > 0.0 && y - 0.5 <= n <= y + 0.5 && y * u == x
    ensures UnitsOff(x, n, u)
  {
    Product(y + 0.5, n, u);
    Product(n, y - 0.5, u);
  }

  /** Seventeen significant digits lie so near that they are rounded back. */
  lemma SeventeenNear(d: double)
    requires d.Finite? && d.significand > 0
    ensures Near(d, ValueOf(Significant(Magnitude(d), 17), 17))
  {
    hide Two, Ten, Significant, DecimalExponent, ValueOf;
    hide Unit, Pow10;
    SignificantOf(d, 17);
    UnitBounds(d, 17);
    TenSixteen();
    Closer(Unit(Magnitude(d), 17), Two(d.exponent), d.significand as real, HIDDEN as real, Pow10(16) as real);
  }

  lemma TenSixteen()
    ensures Pow10(16) == 10_000_000_000_000_000
  {
    hide Ten;
    SmallPowers();
    TenAdd(4, 4);
    TenAdd(8, 8);
    TenOfNat(16);
  }

  lemma Closer(u: real, w: real, m: real, h: real, c: real)
    requires w > 0.0 && u > 0.0 && h > 0.0 && c * u <= m * w && m <= 2.0 * h < c
    ensures u < w && (m == h ==> u < w / 2.0)
  {
    Smaller(u, w, m, c);
    if m == h {
      Smaller(2.0 * u, w, 2.0 * h, c);
    }
  }

  lemma Smaller(u: real, w: real, m: real, c: real)
    requires w > 0.0 && c > 0.0 && m < c && c * u <= m * w
    ensures u < w
  {
    Strictly(m, c, w);
    if u >= w {
      Product(u, w, c);
    }
  }

  // ---------- rounding is to the nearest ----------

  function Distance(a: real, b: real): real { if a < b then b - a else a - b }

  lemma NearestInteger(y: real, n: int)
    requires y >= 0.0
    ensures Distance(y, HalfEven(y) as real) <= Distance(y, n as real)
  {
    var f := y.Floor;
    assert n <= f || n >= f + 1;
  }

  lemma Scaled(x: real, y: real, w: real, a: real, b: real, aw: real, bw: real)
    requires w > 0.0 && y * w == x && a * w == aw && b * w == bw && Distance(y, a) <= Distance(y, b)
    ensures Distance(x, aw) <= Distance(x, bw)
  {
    DistanceTimes(y, a, w, x, aw);
    DistanceTimes(y, b, w, x, bw);
    Product(Distance(y, b), Distance(y, a), w);
  }

  lemma DistanceTimes(y: real, a: real, w: real, x: real, aw: real)
    requires w > 0.0 && y * w == x && a * w == aw
    ensures Distance(x, aw) == Distance(y, a) * w
  {
    if y < a { Strictly(y, a, w); } else { Product(y, a, w); }
  }

  lemma {:induction false} TwoWhole(k: nat) returns (n: nat)
    ensures n as real == Two(k)
  {
    if k == 0 {
      n := 1;
    } else {
      n := TwoWhole(k - 1);
      n := 2 * n;
    }
  }

  lemma RoundedTo(negative: bool, x: real)
    requires x >= 0.0 && Round(negative, x).Finite?
    ensures var e := BinaryExponent(x, -1074);
      Magnitude(Round(negative, x)) == HalfEven(Ratio(x, Two(e))) as real * Two(e)
  {
    hide Two, Ratio, HalfEven, BinaryExponent;
    var e := BinaryExponent(x, -1074);
    TwoStep(e);
  }

  /** With its unit no larger than that of `d`, `d` is a multiple of it. */
  lemma Multiple(d: double, e: int) returns (n: nat)
    requires d.Finite? && d.exponent >= e
    ensures Magnitude(d) == n as real * Two(e)
  {
    hide Two;
    var k := TwoWhole(d.exponent - e);
    TwoAdd(e, d.exponent - e);
    n := d.significand * k;
    assert n as real == d.significand as real * k as real;
  }

  lemma MagnitudeTop(d: double, hi: int)
    requires d.Finite? && d.exponent + 53 <= hi
    ensures Magnitude(d) < Two(hi)
  {
    hide Two;
    var w, m := Two(d.exponent), d.significand as real;
    TwoGrows(d.exponent + 53, hi);
    Fifty2(d.exponent);
    BelowTop(m * w, w, m, HIDDEN as real);
  }

  /** No double is nearer to a number than the one it is rounded to. */
  lemma RoundNearest(negative: bool, x: real, d: double)
    requires x >= 0.0 && d.Finite? && Round(negative, x).Finite?
    ensures Distance(x, Magnitude(Round(negative, x))) <= Distance(x, Magnitude(d))
  {
    hide Two, Ratio, HalfEven, BinaryExponent, Distance, Round, Magnitude;
    var e := BinaryExponent(x, -1074);
    var w, y := Two(e), Ratio(x, Two(e));
    RoundedTo(negative, x);
    var n: nat := HIDDEN;
    if d.exponent >= e {
      n := Multiple(d, e);
    }
    NearestInteger(y, n);
    Fifty2(e);
    var target := if d.exponent >= e then Magnitude(d) else Two(e + 52);
    Scaled(x, y, w, HalfEven(y) as real, n as real, Magnitude(Round(negative, x)), target);
    if d.exponent < e {
      MagnitudeTop(d, e + 52);
      Farther(x, target, Magnitude(d));
    }
  }

  lemma Farther(x: real, a: real, b: real)
    requires b <= a <= x
    ensures Distance(x, a) <= Distance(x, b)
  {
  }
}
