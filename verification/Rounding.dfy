/** Rounding where two numbers are equally near, and beyond the largest double. */
module Rounding {
  import opened Decimal
  import opened Doubles
  import opened Numbers
  import opened ShortDigits

  lemma EqualMeans(y: real, n: int)
    requires y >= 0.0 && n != HalfEven(y) && Distance(y, HalfEven(y) as real) == Distance(y, n as real)
    ensures HalfEven(y) % 2 == 0
  {
    var f := y.Floor;
    assert n <= f || n >= f + 1;
  }

  /** Equal distances are equal in any unit. */
  lemma Unscaled(x: real, y: real, w: real, a: real, b: real, aw: real, bw: real)
    requires w > 0.0 && y * w == x && a * w == aw && b * w == bw && Distance(x, aw) == Distance(x, bw)
    ensures Distance(y, a) == Distance(y, b)
  {
    DistanceTimes(y, a, w, x, aw);
    DistanceTimes(y, b, w, x, bw);
    if Distance(y, a) < Distance(y, b) {
      Strictly(Distance(y, a), Distance(y, b), w);
    } else if Distance(y, b) < Distance(y, a) {
      Strictly(Distance(y, b), Distance(y, a), w);
    }
  }

  /** Of two multiples of a unit that are equally near the even one is taken. */
  lemma EvenMultiple(x: real, u: real, n: nat, s: real, m: real)
    requires x >= 0.0 && u > 0.0 && s == HalfEven(Ratio(x, u)) as real * u && m == n as real * u
    requires s != m && Distance(x, s) == Distance(x, m)
    ensures HalfEven(Ratio(x, u)) % 2 == 0
  {
    hide Ratio, HalfEven, Distance;
    Unscaled(x, Ratio(x, u), u, HalfEven(Ratio(x, u)) as real, n as real, s, m);
    EqualMeans(Ratio(x, u), n);
  }

  lemma StrictlyFarther(x: real, a: real, b: real, c: real)
    requires b < a <= x && Distance(x, c) <= Distance(x, a)
    ensures Distance(x, c) < Distance(x, b)
  {
  }

  /** Of two doubles that are equally near the one with the even significand is taken. */
  lemma TiesToEven(negative: bool, x: real, d: double)
    requires x >= 0.0 && d.Finite? && Round(negative, x).Finite? && Magnitude(d) != Magnitude(Round(negative, x))
    requires Distance(x, Magnitude(Round(negative, x))) == Distance(x, Magnitude(d))
    ensures Round(negative, x).significand % 2 == 0
  {
    hide Two, Ratio, HalfEven, BinaryExponent, Distance, Round, Magnitude;
    var e, r := BinaryExponent(x, -1074), Magnitude(Round(negative, x));
    RoundedTo(negative, x);
    SignificandOf(negative, x);
    if d.exponent >= e {
      var n := Multiple(d, e);
      EvenMultiple(x, Two(e), n, r, Magnitude(d));
    } else {
      Fifty2(e);
      NearestMultiple(x, Two(e), HIDDEN, r, Two(e + 52));
      MagnitudeTop(d, e + 52);
      StrictlyFarther(x, Two(e + 52), Magnitude(d), r);
      assert false;
    }
  }

  lemma SignificandOf(negative: bool, x: real)
    requires x >= 0.0 && Round(negative, x).Finite?
    ensures var q := HalfEven(Ratio(x, Two(BinaryExponent(x, -1074))));
      q % 2 == 0 ==> Round(negative, x).significand % 2 == 0
  {
    hide Two, Ratio, HalfEven, BinaryExponent;
  }

  /** Infinity is what numbers are rounded to from half a unit above the largest double on. */
  lemma RoundsToInfinity(negative: bool, x: real)
    requires x >= 0.0
    ensures Round(negative, x).Infinite? <==> x >= (2.0 * HIDDEN as real - 0.5) * Two(971)
    ensures Round(negative, x).negative == negative
  {
    hide Two, Ratio, HalfEven, BinaryExponent;
    var e := BinaryExponent(x, -1074);
    var y := Ratio(x, Two(e));
    if e < 971 {
      Fifty2(e);
      LessThan(x, y, Two(e), 2.0 * HIDDEN as real);
      HalfEvenAtMost(y, 2 * HIDDEN);
      TwoGrows(e + 53, 1023);
      Fifty2(970);
      TwoStep(970);
      Doubled(Two(971), Two(970));
    } else {
      if y >= 2.0 * HIDDEN as real - 0.5 {
        Product(y, 2.0 * HIDDEN as real - 0.5, Two(971));
      } else {
        Strictly(y, 2.0 * HIDDEN as real - 0.5, Two(971));
      }
      HalfEvenTop(y);
    }
  }

  lemma Doubled(a: real, b: real)
    requires b > 0.0 && a == 2.0 * b
    ensures 2.0 * HIDDEN as real * b < (2.0 * HIDDEN as real - 0.5) * a
  {
  }

  lemma HalfEvenTop(y: real)
    requires y >= 0.0
    ensures HalfEven(y) >= 2 * HIDDEN <==> y >= 2.0 * HIDDEN as real - 0.5
  {
  }

  /** A decimal that is as near as the printed one, with as many digits, leaves the printed one an even last digit. */
  lemma LastDigitEven(d: double, p: nat, n: nat, e: int) returns (k: int, m: nat)
    requires d.Finite? && d.significand > 0 && p > 0 && n < Pow10(p)
    requires DecimalOf(n, e) != Denoted(Format(d, p))
    requires Distance(Magnitude(d), DecimalOf(n, e)) == Distance(Magnitude(d), Denoted(Format(d, p)))
    ensures Ten(k) <= Magnitude(d) < Ten(k + 1) && Denoted(Format(d, p)) == DecimalOf(2 * m, k - p + 1)
  {
    hide Ten, Pow10, Doubles.Unit, Ratio, HalfEven, Distance, Magnitude, DecimalExponent, Denoted, GText;
    hide Significant, ValueOf, Round, Strtod;
    var x, y, v := Magnitude(d), DecimalOf(n, e), Denoted(Format(d, p));
    k := DecimalExponent(x, -324);
    GTextReads(d, p);
    Units(x, p);
    UnitOf(x, k, p);
    DecimalExponentBounds(d);
    var u := Unit(x, p);
    m := HalfEven(Ratio(x, u)) / 2;
    if y >= Ten(k) {
      hide DecimalOf;
      var j := DecimalMultiple(n, e, k, p);
      EvenMultiple(x, u, j, v, y);
      Half(HalfEven(Ratio(x, u)), k - p + 1);
    } else {
      hide DecimalOf;
      TenAdd(k - p + 1, p - 1);
      TenOfNat(p - 1);
      NearestMultiple(x, u, Pow10(p - 1), v, Ten(k));
      StrictlyFarther(x, Ten(k), y, v);
      assert false;
    }
  }

  lemma Half(q: nat, e: int)
    requires q % 2 == 0
    ensures DecimalOf(2 * (q / 2), e) == q as real * Ten(e)
  {
  }
}
