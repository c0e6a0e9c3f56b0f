/** Numbers are printed with fifteen significant digits wherever fifteen are enough to read them back. */
module ShortDigits {
  import opened Bytes
  import opened Decimal
  import opened Doubles
  import opened Numbers

  // ---------- distances ----------

  lemma Triangle(a: real, b: real, c: real)
    ensures Distance(a, c) <= Distance(a, b) + Distance(b, c) && Distance(a, b) == Distance(b, a)
  {
  }

  /** What is rounded to a double lies at most half a unit of its last bit away. */
  lemma RoundOff(d: double, y: real)
    requires d.Finite? && y >= 0.0 && Round(d.negative, y) == d
    ensures Distance(y, Magnitude(d)) <= Two(d.exponent) / 2.0
  {
    hide Two, Ratio, HalfEven, BinaryExponent, UnitsOff, Magnitude;
    var e := BinaryExponent(y, -1074);
    var r, w := Ratio(y, Two(e)), Two(e);
    RoundedTo(d.negative, y);
    HalfEvenError(r);
    WithinHalf(y, r, HalfEven(r) as real, w);
    OffBy(y, HalfEven(r) as real, w, Magnitude(d));
    TwoStep(e);
  }

  lemma OffBy(x: real, n: real, u: real, v: real)
    requires UnitsOff(x, n, u) && v == n * u
    ensures Distance(x, v) <= u / 2.0
  {
  }

  /** The multiple of a unit that is printed is as near as any. */
  lemma NearestMultiple(x: real, u: real, n: nat, s: real, m: real)
    requires x >= 0.0 && u > 0.0 && s == HalfEven(Ratio(x, u)) as real * u && m == n as real * u
    ensures Distance(x, s) <= Distance(x, m) && Distance(x, s) <= u / 2.0
  {
    hide Ratio, HalfEven, Distance, UnitsOff;
    NearestInteger(Ratio(x, u), n);
    Scaled(x, Ratio(x, u), u, HalfEven(Ratio(x, u)) as real, n as real, s, m);
    HalfEvenError(Ratio(x, u));
    WithinHalf(x, Ratio(x, u), HalfEven(Ratio(x, u)) as real, u);
    OffBy(x, HalfEven(Ratio(x, u)) as real, u, s);
  }

  /** Two different multiples of a unit are at least the unit apart. */
  lemma MultiplesApart(a: nat, b: nat, u: real, x: real, y: real)
    requires u > 0.0 && x == a as real * u && y == b as real * u && x != y
    ensures Distance(x, y) >= u
  {
    if a < b {
      Product(b as real, a as real + 1.0, u);
    } else {
      assert a != b;
      Product(a as real, b as real + 1.0, u);
    }
  }

  // ---------- decimals with few digits ----------

  function DecimalOf(n: nat, e: int): (x: real)
    ensures x >= 0.0
  {
    n as real * Ten(e)
  }

  /** A decimal of at most `p` digits that is at least 10^k is a multiple of 10^(k - p + 1). */
  lemma DecimalMultiple(n: nat, e: int, k: int, p: nat) returns (m: nat)
    requires p > 0 && n < Pow10(p) && DecimalOf(n, e) >= Ten(k)
    ensures DecimalOf(n, e) == m as real * Ten(k - p + 1)
  {
    hide Ten, Pow10;
    if e >= k - p + 1 {
      var j := e - (k - p + 1);
      TenAdd(k - p + 1, j);
      TenOfNat(j);
      m := n * Pow10(j);
      assert m as real == n as real * Pow10(j) as real;
      Reorder(n as real, Pow10(j) as real, Ten(k - p + 1));
    } else {
      TenGrows(e, k - p);
      TenAdd(k - p, p);
      TenOfNat(p);
      assert k - p + p == k;
      TooSmall(n as real, Pow10(p) as real, Ten(e), Ten(k - p), Ten(k));
      assert false;
    }
  }

  lemma TooSmall(n: real, p: real, a: real, b: real, c: real)
    requires n < p && 0.0 < a <= b && b * p == c && p > 0.0
    ensures n * a < c
  {
    Strictly(n, p, a);
    Product(b, a, p);
  }

  lemma Reorder(a: real, b: real, c: real)
    ensures a * (c * b) == (a * b) * c
  {
  }

  /** No decimal of at most `p` digits is nearer to a number than the one printed for it. */
  lemma FormatIsNearest(d: double, p: nat, n: nat, e: int)
    requires d.Finite? && d.significand > 0 && p > 0 && n < Pow10(p)
    ensures Distance(Magnitude(d), Denoted(Format(d, p))) <= Distance(Magnitude(d), DecimalOf(n, e))
  {
    hide Ten, DecimalOf, Pow10, Unit, Ratio, HalfEven, Distance, Magnitude, DecimalExponent, Denoted, GText;
    hide Significant, ValueOf, Round, Strtod;
    var x, k := Magnitude(d), DecimalExponent(Magnitude(d), -324);
    var u, y := Unit(x, p), DecimalOf(n, e);
    GTextReads(d, p);
    Units(x, p);
    var v := Denoted(Format(d, p));
    UnitOf(x, k, p);
    if y >= Ten(k) {
      var m := DecimalMultiple(n, e, k, p);
      NearestMultiple(x, u, m, v, y);
    } else {
      DecimalExponentBounds(d);
      TenAdd(k - p + 1, p - 1);
      TenOfNat(p - 1);
      NearestMultiple(x, u, Pow10(p - 1), v, Ten(k));
      Farther(x, Ten(k), y);
    }
  }

  lemma UnitOf(x: real, k: int, p: nat)
    requires k == DecimalExponent(x, -324)
    ensures Unit(x, p) == Ten(k - p + 1)
  {
  }

  lemma Farther(x: real, t: real, y: real)
    requires y <= t <= x
    ensures Distance(x, t) <= Distance(x, y)
  {
  }

  // ---------- fifteen digits ----------

  /** What the fifteen digits come to. */
  function Fifteen(d: double): (v: real)
    requires d.Finite? && d.significand > 0
    ensures v >= 0.0
  {
    ValueOf(Significant(Magnitude(d), 15), 15)
  }

  lemma FifteenIs(d: double)
    requires d.Finite? && d.significand > 0
    ensures var x := Magnitude(d);
      Fifteen(d) == HalfEven(Ratio(x, Unit(x, 15))) as real * Unit(x, 15)
    ensures Significant(Magnitude(d), 15).digits < Pow10(15)
  {
    hide Unit, Ratio, HalfEven, Significant, ValueOf, Pow10, HalfUnit;
    Units(Magnitude(d), 15);
    SignificantOf(d, 15);
  }

  /** A double with all its bits has its last bit below the fifteenth digit. */
  lemma BitBelowDigit(d: double)
    requires d.Finite? && d.significand >= HIDDEN
    ensures Two(d.exponent) < Unit(Magnitude(d), 15)
  {
    hide Two, Unit, Pow10, Magnitude;
    var x, w, u := Magnitude(d), Two(d.exponent), Unit(Magnitude(d), 15);
    UnitBounds(d, 15);
    PowFifteen();
    AtLeastHidden(d);
    assert HIDDEN as real * w <= 1_000_000_000_000_000.0 * u;
    Lesser(w, u, HIDDEN as real, 1_000_000_000_000_000.0);
  }

  lemma AtLeastHidden(d: double)
    requires d.Finite? && d.significand >= HIDDEN
    ensures HIDDEN as real * Two(d.exponent) <= Magnitude(d)
  {
    hide Two;
    Product(d.significand as real, HIDDEN as real, Two(d.exponent));
  }

  lemma PowFifteen()
    ensures Pow10(15) == 1_000_000_000_000_000 && Pow10(14) == 100_000_000_000_000
  {
    TenSixteen();
    hide Pow10;
    PowerStep(15);
    PowerStep(14);
  }

  lemma Lesser(w: real, u: real, a: real, b: real)
    requires w > 0.0 && u > 0.0 && a * w <= b * u && 0.0 < b < a
    ensures w < u
  {
    if w >= u {
      Product(w, u, b);
      Strictly(b, a, w);
    }
  }

  // ---------- the fifteen digits of a number that some such decimal is rounded to ----------

  /** With all bits: they denote that very decimal. */
  lemma NormalExact(d: double, n: nat, e: int)
    requires d.Finite? && d.significand >= HIDDEN && n < Pow10(15) && Round(d.negative, DecimalOf(n, e)) == d
    ensures Fifteen(d) == DecimalOf(n, e)
  {
    hide Two, Ten, DecimalOf, Pow10, Unit, Ratio, HalfEven, Fifteen, Distance, Round, Magnitude, DecimalExponent;
    var x, w, y, k := Magnitude(d), Two(d.exponent), DecimalOf(n, e), DecimalExponent(Magnitude(d), -324);
    RoundOff(d, y);
    BitBelowDigit(d);
    FifteenIs(d);
    UnitIs(x, k);
    if y >= Ten(k) {
      var m := DecimalMultiple(n, e, k, 15);
      NearestMultiple(x, Unit(x, 15), m, Fifteen(d), y);
      if Fifteen(d) != y {
        MultiplesApart(HalfEven(Ratio(x, Unit(x, 15))), m, Unit(x, 15), Fifteen(d), y);
        Triangle(Fifteen(d), x, y);
        Triangle(x, Fifteen(d), y);
        Triangle(y, x, y);
        assert false;
      }
    } else {
      NotBelow(d, n, e, k);
    }
  }

  lemma UnitIs(x: real, k: int)
    requires k == DecimalExponent(x, -324)
    ensures Unit(x, 15) == Ten(k - 14)
  {
  }

  /** A decimal below 10^k is not rounded to such a double above it: its own digits are too far apart. */
  lemma NotBelow(d: double, n: nat, e: int, k: int)
    requires d.Finite? && d.significand >= HIDDEN && n < Pow10(15) && Round(d.negative, DecimalOf(n, e)) == d
    requires k == DecimalExponent(Magnitude(d), -324)
    ensures DecimalOf(n, e) >= Ten(k)
  {
    hide Two, Ten, DecimalOf, Pow10, Distance, Round, Magnitude, DecimalExponent;
    var x, w, y := Magnitude(d), Two(d.exponent), DecimalOf(n, e);
    RoundOff(d, y);
    DecimalExponentBounds(d);
    AtLeastHidden(d);
    assert y < Ten(k) ==> y >= x - w / 2.0 by { Below(y, x, w); }
    TenStep(k - 1);
    HalfLeft(x, w);
    if y < Ten(k) {
      var m := DecimalMultiple(n, e, k - 1, 15);
      assert k - 1 - 14 == k - 15 && k - 15 + 15 == k;
      TenAdd(k - 15, 15);
      TenOfNat(15);
      PowFifteen();
      LastMultiple(m, Pow10(15), Ten(k - 15), y, Ten(k));
      TooFar(x, w, y, Ten(k), Ten(k - 15));
    }
  }

  lemma Below(y: real, x: real, w: real)
    requires Distance(y, x) <= w / 2.0
    ensures y >= x - w / 2.0
  {
  }

  lemma HalfLeft(x: real, w: real)
    requires w > 0.0 && HIDDEN as real * w <= x
    ensures x - w / 2.0 >= x / 2.0
  {
    Product(HIDDEN as real, 1.0, w);
  }

  lemma LastMultiple(m: nat, p: nat, v: real, y: real, t: real)
    requires v > 0.0 && y == m as real * v && t == v * p as real && y < t
    ensures y <= t - v
  {
    if m >= p {
      Product(m as real, p as real, v);
    } else {
      Product(p as real - 1.0, m as real, v);
    }
  }

  lemma TooFar(x: real, w: real, y: real, t: real, v: real)
    requires w > 0.0 && v > 0.0 && HIDDEN as real * w <= x && t <= x && y >= x - w / 2.0
    requires t == v * 1_000_000_000_000_000.0
    ensures y > t - v
  {
    assert HIDDEN as real == 4503599627370496.0;
  }

  /** With fewer bits the last of them may lie above the fifteenth digit; then fifteen digits are near enough. */
  lemma SubnormalRounds(d: double, n: nat, e: int)
    requires d.Finite? && 0 < d.significand < HIDDEN && n < Pow10(15) && Round(d.negative, DecimalOf(n, e)) == d
    ensures Round(d.negative, Fifteen(d)) == d
  {
    hide Two, Ten, DecimalOf, Pow10, Unit, Ratio, HalfEven, Fifteen, Distance, Round, Magnitude, DecimalExponent;
    var x, w, y, k := Magnitude(d), Two(d.exponent), DecimalOf(n, e), DecimalExponent(Magnitude(d), -324);
    var u, v := Unit(x, 15), Fifteen(d);
    RoundOff(d, y);
    FifteenIs(d);
    UnitIs(x, k);
    if y >= Ten(k) {
      var m := DecimalMultiple(n, e, k, 15);
      NearestMultiple(x, u, m, v, y);
      if v != y {
        MultiplesApart(HalfEven(Ratio(x, u)), m, u, v, y);
        Triangle(v, x, y);
        Triangle(x, v, y);
        Triangle(y, x, y);
        assert u <= w;
        if u == w {
          UnitMultiple(d);
          NearestMultiple(x, u, d.significand, v, x);
          NoDistance(x);
        }
        CloseRounds(d, v);
      }
    } else {
      DecimalExponentBounds(d);
      TenAdd(k - 14, 14);
      TenOfNat(14);
      NearestMultiple(x, u, Pow10(14), v, Ten(k));
      Between3(y, Ten(k), x, w);
      CloseRounds(d, v);
    }
  }

  lemma NoDistance(x: real)
    ensures Distance(x, x) == 0.0
  {
  }

  lemma UnitMultiple(d: double)
    requires d.Finite?
    ensures Magnitude(d) == d.significand as real * Two(d.exponent)
  {
  }

  lemma Between3(y: real, t: real, x: real, w: real)
    requires y < t <= x && Distance(y, x) <= w / 2.0
    ensures Distance(x, t) < w / 2.0
  {
  }

  lemma CloseRounds(d: double, z: real)
    requires d.Finite? && 0 < d.significand < HIDDEN && z >= 0.0 && Distance(Magnitude(d), z) < Two(d.exponent) / 2.0
    ensures Round(d.negative, z) == d
  {
    hide Two, Round;
    RoundsBack(d, z);
  }

  // ---------- the text ----------

  /** Zero and the sign of a number make no difference to its digits. */
  lemma NoZero(d: double, n: nat, e: int)
    requires d.Finite? && d.significand > 0 && Round(d.negative, DecimalOf(n, e)) == d
    ensures n > 0
  {
    hide Ten, Round;
    if n == 0 {
      var z := Finite(d.negative, 0, -1074);
      assert DecimalOf(n, e) == 0.0;
      assert Near(z, 0.0);
      RoundsBack(z, 0.0);
    }
  }

  /** Wherever some decimal of at most fifteen digits is rounded to a number, its fifteen digits are too. */
  lemma FifteenRounds(d: double, n: nat, e: int)
    requires d.Finite? && d.significand > 0 && n < Pow10(15) && Round(d.negative, DecimalOf(n, e)) == d
    ensures Round(d.negative, Fifteen(d)) == d
  {
    hide DecimalOf, Pow10, Round, Fifteen;
    if d.significand >= HIDDEN {
      NormalExact(d, n, e);
    } else {
      SubnormalRounds(d, n, e);
    }
  }

  /** A number that can be written with fifteen digits is. */
  lemma FifteenPrinted(d: double, n: nat, e: int)
    requires d.Finite? && d.significand > 0 && n < Pow10(15) && Round(d.negative, DecimalOf(n, e)) == d
    ensures Denoted(NumberText(d)) == Fifteen(d)
  {
    hide DecimalOf, Pow10, Round, GText, Strtod, Denoted, Magnitude;
    FifteenRounds(d, n, e);
    GTextReads(d, 15);
  }

  /**
   * The printed text of a finite number denotes a decimal of at most fifteen digits if and only if some such decimal
   * is rounded to the number.
   */
  lemma ShortExactly(d: double)
    requires d.Finite?
    ensures (exists n: nat, e: int :: n < Pow10(15) && Denoted(NumberText(d)) == DecimalOf(n, e)) <==>
            (exists n: nat, e: int :: n < Pow10(15) && Round(d.negative, DecimalOf(n, e)) == d)
  {
    hide DecimalOf, Pow10, Round, Denoted, NumberText, Fifteen;
    PrintedRounds(d);
    if n: nat, e: int :| n < Pow10(15) && Round(d.negative, DecimalOf(n, e)) == d {
      if d.significand == 0 {
        ZeroText(d);
      } else {
        FifteenPrinted(d, n, e);
        FifteenDecimal(d);
      }
    }
  }

  /** Rounding what the text denotes gives the number back. */
  lemma PrintedRounds(d: double)
    requires d.Finite?
    ensures Round(d.negative, Denoted(NumberText(d))) == d
  {
    hide Round, Denoted, NumberText, Strtod;
    PrintedReads(d);
    NumberTextBytes(d);
    StrtodRounds(NumberText(d));
  }

  lemma StrtodRounds(t: seq<byte>)
    ensures Strtod(t).val.Finite? && Strtod(t).next > 0 ==> Round(Strtod(t).val.negative, Denoted(t)) == Strtod(t).val
  {
    hide Denoted, Round, ReadExponent;
    var m := ReadMantissa(t, SignEnd(t, 0));
    if m.digits != [] {
      RoundSign(t[0] == MINUS, Denoted(t));
    }
  }

  lemma RoundSign(negative: bool, x: real)
    requires x >= 0.0
    ensures Round(negative, x).Finite? ==> Round(negative, x).negative == negative
  {
    hide Two, Ratio, HalfEven, BinaryExponent;
  }

  lemma ZeroText(d: double)
    requires d.Finite? && d.significand == 0
    ensures exists n: nat, e: int :: n < Pow10(15) && Denoted(NumberText(d)) == DecimalOf(n, e)
  {
    hide Round, Pow10, Ten;
    PowFifteen();
    ZeroDenoted(d);
    assert 0 < Pow10(15) && DecimalOf(0, 0) == 0.0;
  }

  lemma ZeroDenoted(d: double)
    requires d.Finite? && d.significand == 0
    ensures Denoted(NumberText(d)) == 0.0
  {
    hide Format, Denoted, Strtod;
    ZeroReads(d);
  }

  lemma FifteenDecimal(d: double)
    requires d.Finite? && d.significand > 0
    ensures exists n: nat, e: int :: n < Pow10(15) && Fifteen(d) == DecimalOf(n, e)
  {
    hide Ten, Pow10, Significant, Magnitude;
    FifteenIs(d);
    var s := Significant(Magnitude(d), 15);
    assert Fifteen(d) == DecimalOf(s.digits, s.exponent - 15 + 1);
  }

  /**
   * Where the number has all its bits, the text denotes that very decimal: what is read from at most fifteen digits
   * is printed with the same digits.
   */
  lemma ShortExact(d: double, n: nat, e: int)
    requires d.Finite? && d.significand >= HIDDEN && n < Pow10(15) && Round(d.negative, DecimalOf(n, e)) == d
    ensures Denoted(NumberText(d)) == DecimalOf(n, e)
  {
    hide DecimalOf, Pow10, Round, Denoted, NumberText, Fifteen;
    FifteenPrinted(d, n, e);
    NormalExact(d, n, e);
  }
}
