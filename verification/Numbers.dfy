/** Numbers as text: what `strtod` reads, and what `print_number` writes with "%1.15g" or "%1.17g". */
module Numbers {
  import opened Bytes
  import opened Decimal
  import opened Doubles

  datatype Parsed<+T> = Parsed(val: T, next: nat)

  // ---------- reading ----------

  predicate NumberByte(c: byte) {
    IsDigit(c) || c == PLUS || c == MINUS || c == PERIOD || c == LOWER_E || c == UPPER_E
  }

  predicate AllDigits(t: seq<byte>) {
    forall k | 0 <= k < |t| :: IsDigit(t[k])
  }

  function DigitsEnd(t: seq<byte>, i: nat): (r: nat)
    requires i <= |t|
    ensures i <= r <= |t|
    ensures forall k | i <= k < r :: IsDigit(t[k])
    ensures r < |t| ==> !IsDigit(t[r])
    decreases |t| - i
  {
    if i < |t| && IsDigit(t[i]) then DigitsEnd(t, i + 1) else i
  }

  function SignEnd(t: seq<byte>, i: nat): (r: nat)
    requires i <= |t|
    ensures i <= r <= |t|
  {
    if i < |t| && (t[i] == PLUS || t[i] == MINUS) then i + 1 else i
  }

  function Negate(t: seq<byte>, i: nat, n: int): int {
    if i < |t| && t[i] == MINUS then -n else n
  }

  /** The number that a run of digits with an exponent denotes. */
  function Exact(digits: seq<byte>, exponent: int): (x: real)
    requires AllDigits(digits)
    ensures x >= 0.0
  {
    NumberNat(digits);
    Number(digits) as real * Ten(exponent)
  }

  lemma {:induction false} NumberNat(ds: seq<byte>)
    requires AllDigits(ds)
    ensures Number(ds) >= 0
  {
    if ds != [] {
      NumberNat(ds[..|ds| - 1]);
    }
  }

  /** The digits of a number without its point, how many of them stand behind it, and where they end. */
  datatype Mantissa = Mantissa(digits: seq<byte>, places: nat, next: nat)

  function ReadMantissa(t: seq<byte>, i: nat): (m: Mantissa)
    requires i <= |t|
    ensures i <= m.next <= |t| && AllDigits(m.digits)
    ensures m.digits != [] ==> i < m.next
  {
    var a := DigitsEnd(t, i);
    if a < |t| && t[a] == PERIOD then
      var b := DigitsEnd(t, a + 1);
      Mantissa(t[i..a] + t[a + 1..b], b - a - 1, b)
    else Mantissa(t[i..a], 0, a)
  }

  /** The exponent behind the digits; without a digit of its own it is not there. */
  function ReadExponent(t: seq<byte>, b: nat): (x: Parsed<int>)
    requires b <= |t|
    ensures b <= x.next <= |t|
  {
    if b == |t| || (t[b] != LOWER_E && t[b] != UPPER_E) then Parsed(0, b)
    else
      var j := SignEnd(t, b + 1);
      var k := DigitsEnd(t, j);
      if k == j then Parsed(0, b) else Parsed(Negate(t, b + 1, Number(t[j..k])), k)
  }

  /** The number a text denotes, without its sign and before it is rounded. */
  function Denoted(t: seq<byte>): (x: real)
    ensures x >= 0.0
  {
    var m := ReadMantissa(t, SignEnd(t, 0));
    Exact(m.digits, ReadExponent(t, m.next).val - m.places)
  }

  /** `strtod` on a text of number bytes: the value it reads, rounded to nearest, and the bytes it takes. */
  function Strtod(t: seq<byte>): (r: Parsed<double>)
    ensures r.next <= |t| && r.val != NotANumber
  {
    var m := ReadMantissa(t, SignEnd(t, 0));
    if m.digits == [] then Parsed(Finite(false, 0, -1074), 0)
    else
      Parsed(Round(t[0] == MINUS, Denoted(t)), ReadExponent(t, m.next).next)
  }

  // ---------- writing ----------

  function Sign(negative: bool): seq<byte> { if negative then [MINUS] else [] }

  function Fraction(b: seq<byte>): seq<byte> { if b == [] then [] else [PERIOD] + b }

  /** A sign and at least two digits. */
  function ExponentText(k: int): seq<byte> {
    var n: nat := if k < 0 then -k else k;
    [LOWER_E] + [if k < 0 then MINUS else PLUS] + (if n < 10 then [ZERO] else []) + Digits(n)
  }

  /** The digits in front of the point, those behind it, and the exponent if there is one. */
  datatype Form = Form(whole: seq<byte>, places: seq<byte>, exponent: Option<int>)

  function FormText(f: Form): seq<byte> {
    f.whole + Fraction(f.places) + (if f.exponent.Some? then ExponentText(f.exponent.value) else [])
  }

  function Zeros(n: nat): (r: seq<byte>)
    ensures |r| == n && forall i | 0 <= i < n :: r[i] == ZERO
  {
    seq(n, _ => ZERO)
  }

  /** "%g" drops the zeros at the end. */
  function Stripped(ds: seq<byte>): seq<byte> {
    if |ds| > 1 && ds[|ds| - 1] == ZERO then Stripped(ds[..|ds| - 1]) else ds
  }

  /** How "%g" with precision `p` sets out digits whose first one has the exponent `k`. */
  function Layout(ds: seq<byte>, k: int, p: nat): Form
    requires ds != []
  {
    if k < -4 || k >= p then Form(ds[..1], ds[1..], Some(k))
    else if k < 0 then Form([ZERO], Zeros(-k - 1) + ds, None)
    else if k + 1 >= |ds| then Form(ds + Zeros(k + 1 - |ds|), [], None)
    else Form(ds[..k + 1], ds[k + 1..], None)
  }

  lemma {:induction false} StrippedFacts(ds: seq<byte>)
    requires ds != [] && AllDigits(ds)
    ensures 1 <= |Stripped(ds)| <= |ds| && AllDigits(Stripped(ds))
    ensures Number(ds) == Number(Stripped(ds)) * Pow10(|ds| - |Stripped(ds)|)
  {
    hide Pow10, Number;
    if |ds| > 1 && ds[|ds| - 1] == ZERO {
      var rest := ds[..|ds| - 1];
      StrippedFacts(rest);
      NumberUnfold(ds);
      PowerStep(|rest| - |Stripped(rest)|);
    } else {
      NoPower();
    }
  }

  /** "%1.*g" with precision `p`. */
  function GText(negative: bool, x: real, p: nat): seq<byte>
    requires x > 0.0 && p > 0
  {
    var s := Significant(x, p);
    StrippedFacts(Digits(s.digits));
    Sign(negative) + FormText(Layout(Stripped(Digits(s.digits)), s.exponent, p))
  }

  const NULL_TEXT: seq<byte> := [LOWER_N, LOWER_U, 108, 108]

  /** "%1.*g" on a finite number. */
  function Format(d: double, p: nat): seq<byte>
    requires d.Finite? && p > 0
  {
    if d.significand == 0 then Sign(d.negative) + [ZERO] else GText(d.negative, Magnitude(d), p)
  }

  /** `print_number`: fifteen digits if they read back as the number, else seventeen. */
  function NumberText(d: double): seq<byte> {
    if !d.Finite? then NULL_TEXT
    else if Equal(Strtod(Format(d, 15)).val, d) then Format(d, 15)
    else Format(d, 17)
  }

  // ---------- reading what was written ----------

  lemma DigitsEndIs(t: seq<byte>, i: nat, e: nat)
    requires i <= e <= |t| && (forall k | i <= k < e :: IsDigit(t[k])) && (e < |t| ==> !IsDigit(t[e]))
    ensures DigitsEnd(t, i) == e
  {
    hide IsDigit;
  }

  lemma {:induction false} NumberOfZeros(z: nat, ds: seq<byte>)
    ensures Number(Zeros(z) + ds) == Number(ds)
    decreases |ds|, z
  {
    var t := Zeros(z) + ds;
    if ds != [] {
      NumberOfZeros(z, ds[..|ds| - 1]);
      assert t[..|t| - 1] == Zeros(z) + ds[..|ds| - 1];
    } else if z > 0 {
      NumberOfZeros(z - 1, []);
      assert t[..|t| - 1] == Zeros(z - 1) + [];
    }
  }

  lemma {:induction false} NumberAndZeros(ds: seq<byte>, z: nat)
    ensures Number(ds + Zeros(z)) == Number(ds) * Pow10(z)
  {
    hide Number, Pow10;
    if z == 0 {
      assert ds + Zeros(0) == ds;
      NoPower();
    } else {
      var t := ds + Zeros(z);
      NumberAndZeros(ds, z - 1);
      assert t[..|t| - 1] == ds + Zeros(z - 1);
      NumberUnfold(t);
      PowerStep(z - 1);
    }
  }

  /** A part of a text, by its place. */
  lemma Cut(u: seq<byte>, v: seq<byte>, w: seq<byte>)
    ensures (u + v + w)[|u|..|u| + |v|] == v
    ensures forall k | |u| <= k < |u| + |v| :: (u + v + w)[k] == v[k - |u|]
    ensures w != [] ==> (u + v + w)[|u| + |v|] == w[0]
  {
  }

  lemma ExponentReads(u: seq<byte>, k: int)
    ensures ReadExponent(u + ExponentText(k), |u|) == Parsed(k, |u + ExponentText(k)|)
  {
    hide Number, Digits, DigitsEnd;
    var n: nat := if k < 0 then -k else k;
    var pad := if n < 10 then [ZERO] else [];
    var t, b := u + ExponentText(k), |u|;
    assert ExponentText(k) == [LOWER_E] + [if k < 0 then MINUS else PLUS] + (pad + Digits(n));
    assert t[b + 2..] == pad + Digits(n);
    assert forall j | b + 2 <= j < |t| :: t[j] == (pad + Digits(n))[j - (b + 2)];
    DigitsEndIs(t, b + 2, |t|);
    assert pad == Zeros(|pad|);
    NumberOfZeros(|pad|, Digits(n));
    NumberOfDigits(n);
    assert t[b + 2..|t|] == pad + Digits(n) && Number(t[b + 2..|t|]) == n;
    assert t[b + 1] == (if k < 0 then MINUS else PLUS) && SignEnd(t, b + 1) == b + 2;
  }

  lemma DigitsRead(s: seq<byte>, w: seq<byte>, rest: seq<byte>)
    requires AllDigits(w) && (rest != [] ==> !IsDigit(rest[0]))
    ensures DigitsEnd(s + w + rest, |s|) == |s| + |w| && (s + w + rest)[|s|..|s| + |w|] == w
    ensures rest != [] ==> (s + w + rest)[|s| + |w|] == rest[0]
  {
    hide DigitsEnd;
    Cut(s, w, rest);
    DigitsEndIs(s + w + rest, |s|, |s| + |w|);
  }

  /** The part of a number in front of its exponent. */
  lemma MantissaReads(s: seq<byte>, w: seq<byte>, p: seq<byte>, rest: seq<byte>)
    requires AllDigits(w) && AllDigits(p) && (rest != [] ==> rest[0] == LOWER_E)
    ensures ReadMantissa(s + w + Fraction(p) + rest, |s|) == Mantissa(w + p, |p|, |s + w + Fraction(p)|)
  {
    hide ReadMantissa;
    if p == [] {
      WholeReads(s, w, rest);
      assert s + w + [] + rest == s + w + rest && w + p == w;
    } else {
      PlacesRead(s, w, p, rest);
    }
  }

  lemma WholeReads(s: seq<byte>, w: seq<byte>, rest: seq<byte>)
    requires AllDigits(w) && (rest != [] ==> rest[0] == LOWER_E)
    ensures ReadMantissa(s + w + rest, |s|) == Mantissa(w, 0, |s + w|)
  {
    hide DigitsEnd, AllDigits;
    DigitsRead(s, w, rest);
  }

  lemma PlacesRead(s: seq<byte>, w: seq<byte>, p: seq<byte>, rest: seq<byte>)
    requires AllDigits(w) && AllDigits(p) && (rest != [] ==> rest[0] == LOWER_E)
    ensures ReadMantissa(s + w + ([PERIOD] + p) + rest, |s|) == Mantissa(w + p, |p|, |s + w + ([PERIOD] + p)|)
  {
    hide DigitsEnd, AllDigits;
    var t, u := s + w + ([PERIOD] + p) + rest, s + w + [PERIOD];
    assert t == s + w + ([PERIOD] + p + rest);
    DigitsRead(s, w, [PERIOD] + p + rest);
    assert t == u + p + rest;
    DigitsRead(u, p, rest);
    assert |u| == |s| + |w| + 1;
  }

  /** The conversion reads all of a written number, and as the number its digits and exponent denote. */
  lemma StrtodOf(negative: bool, f: Form)
    requires f.whole != [] && AllDigits(f.whole) && AllDigits(f.places)
    ensures var t := Sign(negative) + FormText(f);
      var e := if f.exponent.Some? then f.exponent.value else 0;
      && AllDigits(f.whole + f.places) && Denoted(t) == Exact(f.whole + f.places, e - |f.places|)
      && Strtod(t) == Parsed(Round(negative, Denoted(t)), |t|)
  {
    hide ReadMantissa, ReadExponent, Exact, Round, ExponentText, Fraction;
    var s, rest := Sign(negative), if f.exponent.Some? then ExponentText(f.exponent.value) else [];
    var front := s + f.whole + Fraction(f.places);
    var t := front + rest;
    assert s + FormText(f) == t;
    SignReads(negative, f.whole, Fraction(f.places) + rest);
    assert s + f.whole + (Fraction(f.places) + rest) == t;
    RestStarts(f.exponent);
    MantissaReads(s, f.whole, f.places, rest);
    if f.exponent.Some? {
      ExponentReads(front, f.exponent.value);
    } else {
      NoExponent(t);
    }
  }

  lemma RestStarts(exponent: Option<int>)
    ensures exponent.Some? ==> ExponentText(exponent.value)[0] == LOWER_E
  {
  }

  lemma NoExponent(t: seq<byte>)
    ensures ReadExponent(t, |t|) == Parsed(0, |t|)
  {
  }

  lemma SignReads(negative: bool, w: seq<byte>, rest: seq<byte>)
    requires w != [] && AllDigits(w)
    ensures var t := Sign(negative) + w + rest;
      t != [] && SignEnd(t, 0) == |Sign(negative)| && (t[0] == MINUS <==> negative)
  {
    var t := Sign(negative) + w + rest;
    assert t[|Sign(negative)|] == w[0];
  }

  /** All three layouts denote the same number. */
  lemma LayoutValue(ds: seq<byte>, k: int, p: nat)
    requires ds != [] && AllDigits(ds)
    ensures var f := Layout(ds, k, p);
      var e := if f.exponent.Some? then f.exponent.value else 0;
      && f.whole != [] && AllDigits(f.whole) && AllDigits(f.places) && AllDigits(f.whole + f.places)
      && Exact(f.whole + f.places, e - |f.places|) == Exact(ds, k + 1 - |ds|)
  {
    hide Number, Ten, Pow10;
    var f := Layout(ds, k, p);
    if k < -4 || k >= p {
      assert ds[..1] + ds[1..] == ds;
    } else if k < 0 {
      assert [ZERO] + (Zeros(-k - 1) + ds) == Zeros(-k) + ds;
      NumberOfZeros(-k, ds);
    } else if k + 1 >= |ds| {
      assert ds + Zeros(k + 1 - |ds|) + [] == ds + Zeros(k + 1 - |ds|);
      NumberAndZeros(ds, k + 1 - |ds|);
      TenOfNat(k + 1 - |ds|);
      Ten0();
    } else {
      assert ds[..k + 1] + ds[k + 1..] == ds;
    }
  }

  lemma Ten0()
    ensures Ten(0) == 1.0
  {
  }

  lemma {:induction false} DigitsCount(n: nat, p: nat)
    requires p > 0 && Pow10(p - 1) <= n < Pow10(p)
    ensures |Digits(n)| == p
  {
    hide Pow10;
    PowerStep(p - 1);
    if p == 1 {
      NoPower();
    } else {
      PowerStep(p - 2);
      PowerPositive(p - 2);
      DigitsCount(n / 10, p - 1);
    }
  }

  /** Stripping zeros and moving the exponent keeps the value. */
  lemma StrippedValue(s: Scientific, p: nat)
    requires p > 0 && Pow10(p - 1) <= s.digits < Pow10(p)
    ensures var ds := Stripped(Digits(s.digits));
      ds != [] && |ds| <= p && AllDigits(ds) && Exact(ds, s.exponent + 1 - |ds|) == ValueOf(s, p)
  {
    hide Number, Ten, Pow10, Digits;
    var ds := Stripped(Digits(s.digits));
    DigitsCount(s.digits, p);
    NumberOfDigits(s.digits);
    StrippedFacts(Digits(s.digits));
    TenAdd(s.exponent - p + 1, p - |ds|);
    TenOfNat(p - |ds|);
  }

  /** A number written with `p` digits is read as the double nearest to those digits. */
  lemma GTextReads(d: double, p: nat)
    requires d.Finite? && d.significand > 0 && p > 0
    ensures var t := GText(d.negative, Magnitude(d), p);
      && Denoted(t) == ValueOf(Significant(Magnitude(d), p), p)
      && Strtod(t) == Parsed(Round(d.negative, Denoted(t)), |t|)
  {
    hide Number, Ten, Pow10, Digits, Layout, Exact, Significant, Magnitude, Round, Strtod, Stripped, HalfUnit, Unit;
    hide ValueOf, Denoted;
    var s := Significant(Magnitude(d), p);
    SignificantOf(d, p);
    StrippedValue(s, p);
    var ds := Stripped(Digits(s.digits));
    LayoutValue(ds, s.exponent, p);
    StrtodOf(d.negative, Layout(ds, s.exponent, p));
  }

  /** Every finite number is read back from its text exactly, the sign of zero included. */
  lemma PrintedReads(d: double)
    requires d.Finite?
    ensures Strtod(NumberText(d)) == Parsed(d, |NumberText(d)|)
  {
    hide GText, Strtod, Round, Significant, Magnitude, ValueOf, Near;
    if d.significand == 0 {
      ZeroReads(d);
    } else {
      GTextReads(d, 15);
      GTextReads(d, 17);
      SeventeenNear(d);
      RoundsBack(d, ValueOf(Significant(Magnitude(d), 17), 17));
    }
  }

  lemma ZeroReads(d: double)
    requires d.Finite? && d.significand == 0
    ensures forall p: nat | p > 0 :: Strtod(Format(d, p)) == Parsed(d, |Format(d, p)|) && Denoted(Format(d, p)) == 0.0
  {
    hide Strtod, Round;
    var f := Form([ZERO], [], None);
    assert Sign(d.negative) + FormText(f) == Sign(d.negative) + [ZERO];
    StrtodOf(d.negative, f);
    ZeroValue();
    RoundsBack(d, 0.0);
  }

  lemma ZeroValue()
    ensures AllDigits([ZERO] + []) && Exact([ZERO] + [], 0) == 0.0
  {
    var t := [ZERO] + [];
    assert t == [ZERO] && t[..0] == [];
    NumberUnfold(t);
  }

  // ---------- the text itself ----------

  ghost predicate NumberBytes(t: seq<byte>) {
    forall k | 0 <= k < |t| :: NumberByte(t[k])
  }

  lemma FormBytes(f: Form)
    requires AllDigits(f.whole) && AllDigits(f.places)
    ensures NumberBytes(FormText(f))
  {
    hide Digits;
    assert NumberBytes(Fraction(f.places));
    if f.exponent.Some? {
      ExponentBytes(f.exponent.value);
    }
  }

  lemma ExponentBytes(k: int)
    ensures NumberBytes(ExponentText(k))
    ensures -1000 < k < 1000 ==> |ExponentText(k)| <= 5
  {
    hide Digits;
    var n: nat := if k < 0 then -k else k;
    if n < 1000 {
      ThreeDigits(n);
    }
  }

  lemma ThreeDigits(n: nat)
    requires n < 1000
    ensures |Digits(n)| <= 3 && (n < 10 ==> |Digits(n)| == 1)
  {
    if n >= 10 {
      assert |Digits(n)| == |Digits(n / 10)| + 1;
      if n >= 100 { assert |Digits(n / 10)| == |Digits(n / 10 / 10)| + 1; }
    }
  }

  lemma ExponentRange(d: double, p: nat)
    requires d.Finite? && d.significand > 0 && p > 0
    ensures -324 <= Significant(Magnitude(d), p).exponent <= 309
  {
    hide DecimalExponent, Unit, Ratio, HalfEven, Pow10;
  }

  lemma LayoutSize(ds: seq<byte>, k: int, p: nat)
    requires 0 < |ds| <= p && AllDigits(ds) && p >= 4 && -1000 < k < 1000
    ensures var f := Layout(ds, k, p);
      && AllDigits(f.whole) && AllDigits(f.places) && f.whole != []
      && |FormText(f)| <= p + 6
  {
    hide Digits;
    ExponentBytes(k);
  }

  lemma GTextBytes(d: double, p: nat)
    requires d.Finite? && d.significand > 0 && p >= 4
    ensures var t := GText(d.negative, Magnitude(d), p);
      && 0 < |t| <= p + 7 && NumberBytes(t) && (t[0] == MINUS || IsDigit(t[0]))
  {
    hide Number, Ten, Pow10, Digits, Layout, Exact, Significant, Magnitude, Stripped, HalfUnit, Unit, ValueOf, FormText;
    var s := Significant(Magnitude(d), p);
    SignificantOf(d, p);
    StrippedValue(s, p);
    ExponentRange(d, p);
    var ds := Stripped(Digits(s.digits));
    LayoutSize(ds, s.exponent, p);
    FormBytes(Layout(ds, s.exponent, p));
    FormStart(Layout(ds, s.exponent, p));
  }

  lemma FormStart(f: Form)
    requires f.whole != []
    ensures FormText(f) != [] && FormText(f)[0] == f.whole[0]
  {
  }

  /** The text of a finite number fits the 26 bytes of `print_number` and consists of number bytes. */
  lemma NumberTextBytes(d: double)
    requires d.Finite?
    ensures var t := NumberText(d);
      && 0 < |t| <= 24 && NumberBytes(t) && (t[0] == MINUS || IsDigit(t[0]))
  {
    hide GText, Strtod, Magnitude;
    if d.significand > 0 {
      GTextBytes(d, 15);
      GTextBytes(d, 17);
    }
  }

  /** What is printed for any number, "null" where it is none or infinite, is short plain text. */
  lemma PrintedBytes(d: double)
    ensures var t := NumberText(d);
      0 < |t| <= 24 && forall k | 0 <= k < |t| :: NumberByte(t[k]) || t[k] == LOWER_N || t[k] == LOWER_U || t[k] == 108
  {
    if d.Finite? {
      NumberTextBytes(d);
      var t := NumberText(d);
      hide NumberText;
      assert forall k | 0 <= k < |t| :: NumberByte(t[k]);
    }
  }
}
