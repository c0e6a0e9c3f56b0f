/** How "%g" sets out a number: when with an exponent, and with no digit too many. */
module NumberLayout {
  import opened Bytes
  import opened Decimal
  import opened Doubles
  import opened Numbers
  import opened Grammar
  import opened ShortDigits

  // ---------- the layout ----------

  /** No zero leads digits but a single one. */
  predicate Led(ds: seq<byte>) {
    ds != [] && (ds[0] == '0' as int ==> |ds| == 1)
  }

  /** No zero ends digits. */
  predicate Trimmed(ds: seq<byte>) {
    ds == [] || ds[|ds| - 1] != '0' as int
  }

  /** Section 7.21.6.1 of ISO C: an exponent has a sign and two digits, more only where it needs them. */
  predicate PrintedPower(p: Power) {
    !p.upper && p.sign.Some? && |p.digits| >= 2 && (|p.digits| > 2 ==> p.digits[0] != '0' as int)
  }

  /** A point stands only in front of digits, and with an exponent one digit stands in front of it. */
  predicate PrintedNumeral(n: Numeral) {
    && ValidNumeral(n) && Led(n.whole) && Trimmed(n.places) && (n.point <==> n.places != [])
    && (n.power.Some? ==> |n.whole| == 1 && n.whole[0] != '0' as int && PrintedPower(n.power.value))
  }

  lemma {:induction false} StrippedEnds(ds: seq<byte>)
    requires ds != [] && ds[0] != '0' as int
    ensures var r := Stripped(ds); r != [] && r[0] == ds[0] && Trimmed(r)
  {
    if |ds| > 1 && ds[|ds| - 1] == ZERO {
      StrippedEnds(ds[..|ds| - 1]);
    }
  }

  /** The exponent as a part of a numeral. */
  lemma PowerOf(k: int) returns (p: Power)
    ensures AllDigits(p.digits) && p.digits != [] && PrintedPower(p) && PowerText(p) == ExponentText(k)
  {
    hide Digits;
    var n: nat := if k < 0 then -k else k;
    p := Power(false, Some(k < 0), (if n < 10 then [ZERO] else []) + Digits(n));
    if n >= 10 {
      DigitsLead(n);
      TwoDigits(n);
    } else {
      ThreeDigits(n);
    }
    var front := [LOWER_E] + [if k < 0 then MINUS else PLUS];
    assert PowerText(p) == front + p.digits;
    assert ExponentText(k) == front + (if n < 10 then [ZERO] else []) + Digits(n);
  }

  lemma TwoDigits(n: nat)
    requires n >= 10
    ensures |Digits(n)| >= 2
  {
  }

  lemma FormOf(negative: bool, f: Form) returns (n: Numeral)
    requires f.whole != [] && AllDigits(f.whole) && AllDigits(f.places)
    ensures ValidNumeral(n) && NumeralText(n) == Sign(negative) + FormText(f)
    ensures n.minus == negative && n.whole == f.whole && n.places == f.places && (n.point <==> n.places != [])
    ensures n.power.Some? <==> f.exponent.Some?
    ensures n.power.Some? ==> PrintedPower(n.power.value)
  {
    hide PowerText, ExponentText, AllDigits, PrintedPower;
    var power := None;
    if f.exponent.Some? {
      var p := PowerOf(f.exponent.value);
      power := Some(p);
    }
    n := Numeral(negative, f.whole, f.places != [], f.places, power);
  }

  lemma LayoutShape(ds: seq<byte>, k: int, p: nat)
    requires ds != [] && AllDigits(ds) && ds[0] != '0' as int && Trimmed(ds)
    ensures var f := Layout(ds, k, p);
      && f.whole != [] && AllDigits(f.whole) && AllDigits(f.places) && Led(f.whole) && Trimmed(f.places)
      && (f.exponent.Some? <==> k < -4 || k >= p)
      && (f.exponent.Some? ==> |f.whole| == 1 && f.whole[0] != '0' as int)
  {
  }

  /** The leading digit tells on which side of a power of ten a number lies. */
  lemma Leading(s: Scientific, p: nat)
    requires p > 0 && Pow10(p - 1) <= s.digits < Pow10(p)
    ensures Ten(s.exponent) <= ValueOf(s, p) < Ten(s.exponent + 1)
  {
    hide Ten, Pow10;
    var e := s.exponent - p + 1;
    assert ValueOf(s, p) == s.digits as real * Ten(e);
    hide ValueOf;
    TenTimes(e, p - 1, s.exponent);
    TenTimes(e, p, s.exponent + 1);
    Scale(s.digits as real, Pow10(p - 1) as real, Pow10(p) as real, Ten(e), ValueOf(s, p), Ten(s.exponent),
      Ten(s.exponent + 1));
  }

  lemma TenTimes(e: int, j: nat, k: int)
    requires k == e + j
    ensures Ten(k) == Ten(e) * (Pow10(j) as real)
  {
    hide Ten, Pow10;
    TenAdd(e, j);
    TenOfNat(j);
  }

  lemma Scale(n: real, a: real, b: real, u: real, v: real, lo: real, hi: real)
    requires a <= n < b && u > 0.0 && v == n * u && lo == u * a && hi == u * b
    ensures lo <= v < hi
  {
    Product(n, a, u);
    Strictly(n, b, u);
  }

  lemma Side(v: real, k: int, j: int)
    requires Ten(k) <= v < Ten(k + 1)
    ensures k >= j <==> v >= Ten(j)
  {
    hide Ten;
    if k >= j {
      TenGrows(j, k);
    } else {
      TenGrows(k + 1, j);
    }
  }

  /**
   * The text of a number other than zero with precision `p`: an exponent stands exactly where the printed number is
   * below a ten-thousandth, or has more than `p` digits in front of the point.
   */
  lemma FormatShape(d: double, p: nat) returns (n: Numeral)
    requires d.Finite? && d.significand > 0 && p > 0
    ensures PrintedNumeral(n) && n.minus == d.negative && NumeralText(n) == Format(d, p)
    ensures n.power.Some? <==> Denoted(Format(d, p)) < Ten(-4) || Denoted(Format(d, p)) >= Ten(p)
  {
    hide Ten, Pow10, Digits, Layout, Significant, Magnitude, Stripped, HalfUnit, Doubles.Unit, ValueOf, Denoted;
    hide FormText;
    hide NumeralText, ValidNumeral;
    var s := Significant(Magnitude(d), p);
    SignificantOf(d, p);
    PowerPositive(p - 1);
    DigitsLead(s.digits);
    StrippedFacts(Digits(s.digits));
    StrippedEnds(Digits(s.digits));
    var ds := Stripped(Digits(s.digits));
    LayoutShape(ds, s.exponent, p);
    n := FormOf(d.negative, Layout(ds, s.exponent, p));
    GTextReads(d, p);
    Leading(s, p);
    Side(ValueOf(s, p), s.exponent, -4);
    Side(ValueOf(s, p), s.exponent, p);
  }

  // ---------- the text ----------

  /** Some decimal of at most fifteen digits is rounded to the number. */
  ghost predicate IsShort(d: double)
    requires d.Finite?
  {
    exists n: nat, e: int :: n < Pow10(15) && Round(d.negative, DecimalOf(n, e)) == d
  }

  lemma FormatDecimal(d: double, p: nat)
    requires d.Finite? && d.significand > 0 && p > 0
    ensures var s := Significant(Magnitude(d), p);
      s.digits < Pow10(p) && Denoted(Format(d, p)) == DecimalOf(s.digits, s.exponent - p + 1)
  {
    hide Ten, Pow10, Significant, Magnitude, HalfUnit, Doubles.Unit, Denoted, GText, Strtod, Round;
    SignificantOf(d, p);
    GTextReads(d, p);
  }

  lemma ReadsBack(d: double)
    requires d.Finite? && d.significand > 0
    ensures Equal(Strtod(Format(d, 15)).val, d) <==> Round(d.negative, Denoted(Format(d, 15))) == d
  {
    hide Denoted, GText, Strtod, Round, Significant, ValueOf, Magnitude;
    GTextReads(d, 15);
  }

  lemma FifteenWhenShort(d: double)
    requires d.Finite? && d.significand > 0
    ensures NumberText(d) == Format(d, if IsShort(d) then 15 else 17)
  {
    hide Denoted, Strtod, Round, DecimalOf, Pow10, Format, Significant, Magnitude;
    ReadsBack(d);
    FormatDecimal(d, 15);
    if n: nat, e: int :| n < Pow10(15) && Round(d.negative, DecimalOf(n, e)) == d {
      FifteenRounds(d, n, e);
      FifteenDenoted(d);
    }
  }

  lemma FifteenDenoted(d: double)
    requires d.Finite? && d.significand > 0
    ensures Denoted(Format(d, 15)) == Fifteen(d)
  {
    hide Denoted, GText, Strtod, Round, Significant, Magnitude;
    GTextReads(d, 15);
  }

  /**
   * The text of a finite number other than zero: fifteen digits where some fifteen digits are rounded to the number,
   * otherwise seventeen; of all decimals with as many digits the nearest; and without a byte that could be left out.
   */
  lemma PrintedShape(d: double) returns (n: Numeral, p: nat)
    requires d.Finite? && d.significand > 0
    ensures p == if IsShort(d) then 15 else 17
    ensures PrintedNumeral(n) && n.minus == d.negative && NumeralText(n) == NumberText(d)
    ensures n.power.Some? <==> Denoted(NumberText(d)) < Ten(-4) || Denoted(NumberText(d)) >= Ten(p)
    ensures exists m: nat, e: int :: m < Pow10(p) && Denoted(NumberText(d)) == DecimalOf(m, e)
    ensures forall m: nat, e: int | m < Pow10(p) ::
      Distance(Magnitude(d), Denoted(NumberText(d))) <= Distance(Magnitude(d), DecimalOf(m, e))
  {
    hide Denoted, DecimalOf, Pow10, Format, NumberText, Ten, Magnitude, Distance, PrintedNumeral, NumeralText, IsShort;
    hide Significant;
    p := if IsShort(d) then 15 else 17;
    FifteenWhenShort(d);
    n := FormatShape(d, p);
    FormatDecimal(d, p);
    forall m: nat, e: int | m < Pow10(p)
      ensures Distance(Magnitude(d), Denoted(NumberText(d))) <= Distance(Magnitude(d), DecimalOf(m, e))
    {
      FormatIsNearest(d, p, m, e);
    }
  }

  /** Zero keeps its sign, and what is no number or infinite is null. */
  lemma OtherTexts(d: double)
    requires d.Finite? ==> d.significand == 0
    ensures NumberText(d)
         == if !d.Finite? then ['n' as int, 'u' as int, 'l' as int, 'l' as int]
            else if d.negative then ['-' as int, '0' as int] else ['0' as int]
  {
    hide Strtod;
  }
}
