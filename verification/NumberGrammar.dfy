/** The number scanner reads exactly the numerals of the grammar. */
module NumberGrammar {
  import opened Bytes
  import opened Decimal
  import opened Doubles
  import opened Numbers
  import opened ParseSpec
  import opened RoundTrip
  import opened Grammar

  function PointText(point: bool, places: seq<byte>): seq<byte> {
    if point then ['.' as int] + places else []
  }

  function SignText(minus: bool): seq<byte> { if minus then ['-' as int] else [] }

  function TailText(power: Option<Power>): seq<byte> {
    if power.Some? then PowerText(power.value) else []
  }

  lemma MantissaRead(s: seq<byte>, w: seq<byte>, point: bool, p: seq<byte>, rest: seq<byte>)
    requires AllDigits(w) && AllDigits(p) && (!point ==> p == [])
    requires rest != [] ==> rest[0] == 'e' as int || rest[0] == 'E' as int
    ensures ReadMantissa(s + w + PointText(point, p) + rest, |s|) == Mantissa(w + p, |p|, |s + w + PointText(point, p)|)
  {
    hide ReadMantissa, AllDigits;
    if point {
      PlacesReadTo(s, w, p, rest);
    } else {
      assert s + w + [] + rest == s + w + rest && s + w + [] == s + w && w + p == w;
      WholeReadTo(s, w, rest);
    }
  }

  lemma WholeReadTo(s: seq<byte>, w: seq<byte>, rest: seq<byte>)
    requires AllDigits(w) && (rest != [] ==> rest[0] == 'e' as int || rest[0] == 'E' as int)
    ensures ReadMantissa(s + w + rest, |s|) == Mantissa(w, 0, |s + w|)
  {
    hide DigitsEnd, AllDigits;
    DigitsRead(s, w, rest);
  }

  lemma PlacesReadTo(s: seq<byte>, w: seq<byte>, p: seq<byte>, rest: seq<byte>)
    requires AllDigits(w) && AllDigits(p) && (rest != [] ==> rest[0] == 'e' as int || rest[0] == 'E' as int)
    ensures ReadMantissa(s + w + (['.' as int] + p) + rest, |s|) == Mantissa(w + p, |p|, |s + w + (['.' as int] + p)|)
  {
    hide ReadMantissa, AllDigits;
    var t := s + w + (['.' as int] + p) + rest;
    var a := |s| + |w|;
    assert t[|s|..a] == w;
    assert t[a] == '.' as int;
    assert t[a + 1..a + 1 + |p|] == p;
    assert rest != [] ==> t[a + 1 + |p|] == rest[0];
    MantissaAt(t, |s|, a, a + 1 + |p|);
  }

  lemma MantissaAt(t: seq<byte>, i: nat, a: nat, b: nat)
    requires i <= a < b <= |t| && t[a] == '.' as int && AllDigits(t[i..a]) && AllDigits(t[a + 1..b])
    requires b == |t| || t[b] == 'e' as int || t[b] == 'E' as int
    ensures ReadMantissa(t, i) == Mantissa(t[i..a] + t[a + 1..b], b - a - 1, b)
  {
    hide DigitsEnd;
    DigitsTo(t, i, a);
    DigitsTo(t, a + 1, b);
  }

  lemma DigitsTo(t: seq<byte>, i: nat, e: nat)
    requires i <= e <= |t| && AllDigits(t[i..e]) && (e == |t| || !IsDigit(t[e]))
    ensures DigitsEnd(t, i) == e
  {
    hide DigitsEnd;
    assert forall k | i <= k < e :: t[k] == t[i..e][k - i];
    DigitsEndIs(t, i, e);
  }

  lemma PowerRead(u: seq<byte>, p: Power)
    requires AllDigits(p.digits) && p.digits != []
    ensures ReadExponent(u + PowerText(p), |u|) == Parsed(PowerValue(Some(p)), |u + PowerText(p)|)
  {
    hide AllDigits, Number, PowerText, ReadExponent;
    var t, j := u + PowerText(p), |u| + (if p.sign == None then 1 else 2);
    PowerBytes(p);
    assert t[|u|] == PowerText(p)[0];
    assert p.sign.Some? ==> t[|u| + 1] == PowerText(p)[1];
    assert t[j..] == PowerText(p)[j - |u|..] == p.digits;
    assert t[j] == p.digits[0];
    ExponentAt(t, |u|, p);
  }

  lemma PowerBytes(p: Power)
    requires p.digits != []
    ensures var t, n := PowerText(p), if p.sign == None then 1 else 2;
      && |t| == n + |p.digits| && t[n..] == p.digits && t[0] == (if p.upper then 'E' as int else 'e' as int)
      && (p.sign.Some? ==> t[1] == if p.sign.value then '-' as int else '+' as int)
  {
  }

  lemma ExponentAt(t: seq<byte>, b: nat, p: Power)
    requires p.digits != [] && AllDigits(p.digits)
    requires var j := b + (if p.sign == None then 1 else 2);
      && j < |t| && t[j..] == p.digits && t[b] == (if p.upper then 'E' as int else 'e' as int)
      && (p.sign.Some? ==> t[b + 1] == if p.sign.value then '-' as int else '+' as int)
    ensures ReadExponent(t, b) == Parsed(PowerValue(Some(p)), |t|)
  {
    hide DigitsEnd, Number;
    var j := b + (if p.sign == None then 1 else 2);
    assert t[j..|t|] == t[j..];
    assert t[j] == p.digits[0];
    DigitsTo(t, j, |t|);
  }

  /** A numeral is read whole, as the double nearest to what it denotes. */
  lemma StrtodReads(n: Numeral)
    requires ValidNumeral(n) && (n.whole == [] ==> n.minus)
    ensures Strtod(NumeralText(n)) == Parsed(NumeralMeaning(n), |NumeralText(n)|)
  {
    hide ReadMantissa, ReadExponent, Exact, Round, PowerText, AllDigits;
    var s, rest := SignText(n.minus), TailText(n.power);
    var front := s + n.whole + PointText(n.point, n.places);
    assert NumeralText(n) == front + rest;
    SignRead(n);
    PowerStart(n.power);
    MantissaRead(s, n.whole, n.point, n.places, rest);
    if n.power.Some? {
      PowerRead(front, n.power.value);
    } else {
      assert front + rest == front;
      NoExponent(front);
    }
  }

  lemma PowerStart(p: Option<Power>)
    ensures p.Some? ==> TailText(p)[0] == 'e' as int || TailText(p)[0] == 'E' as int
  {
  }

  lemma SignRead(n: Numeral)
    requires ValidNumeral(n) && (n.whole == [] ==> n.minus)
    ensures NumeralText(n) != [] && SignEnd(NumeralText(n), 0) == |SignText(n.minus)|
    ensures NumeralText(n)[0] == MINUS <==> n.minus
    ensures NumeralText(n)[0] == MINUS || IsDigit(NumeralText(n)[0])
  {
    hide PowerText;
    if !n.minus {
      assert NumeralText(n)[0] == n.whole[0];
    }
  }

  /** Whatever is read whole is a numeral. */
  lemma NumeralOf(t: seq<byte>) returns (n: Numeral)
    requires t != [] && (t[0] == MINUS || IsDigit(t[0])) && Strtod(t).next == |t|
    ensures ValidNumeral(n) && (n.whole == [] ==> n.minus) && NumeralText(n) == t && NumeralMeaning(n) == Strtod(t).val
  {
    hide ReadMantissa, ReadExponent, Number, Round, Exact, AllDigits, PowerText, PowerValue, NumeralText, TailText;
    hide PointText;
    var minus := t[0] == MINUS;
    var i := if minus then 1 else 0;
    assert SignEnd(t, 0) == i;
    var b := ReadMantissa(t, i).next;
    var whole, point, places := MantissaFrom(t, i);
    var power := PowerFrom(t, b);
    n := Numeral(minus, whole, point, places, power);
    if !minus { DigitStarts(t, 0); }
    assert t[..i] == SignText(minus);
    Assembled(t, i, b, n);
  }

  lemma Assembled(t: seq<byte>, i: nat, b: nat, n: Numeral)
    requires i <= b <= |t| && t[..i] == SignText(n.minus) && t[b..] == TailText(n.power)
    requires t[i..b] == n.whole + PointText(n.point, n.places)
    ensures NumeralText(n) == t
  {
    hide PowerText, SignText, PointText, TailText;
    NumeralPieces(n);
    Pieces(t, i, b);
    Regroup(SignText(n.minus), n.whole, PointText(n.point, n.places), TailText(n.power));
  }

  lemma NumeralPieces(n: Numeral)
    ensures NumeralText(n) == SignText(n.minus) + n.whole + PointText(n.point, n.places) + TailText(n.power)
  {
    hide PowerText;
  }

  lemma Pieces(t: seq<byte>, i: nat, b: nat)
    requires i <= b <= |t|
    ensures t == t[..i] + t[i..b] + t[b..]
  {
  }

  lemma Regroup(a: seq<byte>, b: seq<byte>, c: seq<byte>, d: seq<byte>)
    ensures a + (b + c) + d == a + b + c + d
  {
  }

  lemma DigitStarts(t: seq<byte>, i: nat)
    requires i < |t| && IsDigit(t[i])
    ensures DigitsEnd(t, i) > i
  {
  }

  lemma MantissaFrom(t: seq<byte>, i: nat) returns (whole: seq<byte>, point: bool, places: seq<byte>)
    requires i <= |t|
    ensures AllDigits(whole) && AllDigits(places) && (!point ==> places == [])
    ensures var m := ReadMantissa(t, i);
      && t[i..m.next] == whole + PointText(point, places) && m.digits == whole + places && m.places == |places|
    ensures whole == t[i..DigitsEnd(t, i)]
  {
    hide DigitsEnd;
    var a := DigitsEnd(t, i);
    whole, point := t[i..a], a < |t| && t[a] == PERIOD;
    if point {
      var b := DigitsEnd(t, a + 1);
      places := t[a + 1..b];
      assert t[i..b] == t[i..a] + [t[a]] + t[a + 1..b];
    } else {
      places := [];
      assert whole + [] == whole;
    }
  }

  lemma PowerFrom(t: seq<byte>, b: nat) returns (p: Option<Power>)
    requires b <= |t| && ReadExponent(t, b).next == |t|
    ensures t[b..] == TailText(p) && PowerValue(p) == ReadExponent(t, b).val
    ensures p.Some? ==> AllDigits(p.value.digits) && p.value.digits != []
  {
    hide DigitsEnd, Number;
    if b == |t| || ReadExponent(t, b).next == b {
      p := None;
    } else {
      var j := SignEnd(t, b + 1);
      assert DigitsEnd(t, j) == |t| && t[j..|t|] == t[j..];
      p := Some(Power(t[b] == UPPER_E, if j == b + 1 then None else Some(t[b + 1] == MINUS), t[j..]));
      SignPieces(t, b);
    }
  }

  /** The letter and the sign in front of the digits. */
  lemma SignPieces(t: seq<byte>, b: nat)
    requires b + 1 <= |t|
    ensures var j := SignEnd(t, b + 1);
      && j <= |t|
      && t[b..]
         == [t[b]] + (if j == b + 1 then [] else if t[b + 1] == MINUS then ['-' as int] else ['+' as int]) + t[j..]
  {
    var j := SignEnd(t, b + 1);
    assert t[b..] == t[b..j] + t[j..];
    if j == b + 1 {
      assert t[b..j] == [t[b]] + [];
    } else {
      assert t[b..j] == [t[b], t[b + 1]];
    }
  }

  lemma NumeralBytes(n: Numeral)
    requires ValidNumeral(n)
    ensures forall k | 0 <= k < |NumeralText(n)| :: NumberByte(NumeralText(n)[k])
  {
    var front := SignText(n.minus) + n.whole + PointText(n.point, n.places);
    assert NumeralText(n) == front + TailText(n.power);
    assert forall k | 0 <= k < |front| :: NumberByte(front[k]);
    assert forall k | 0 <= k < |TailText(n.power)| :: NumberByte(TailText(n.power)[k]);
  }

  /** In any text, a numeral of at most 63 bytes that no number byte follows is read. */
  lemma NumberRead(s: seq<byte>, o: nat, n: Numeral)
    requires ValidNumeral(n) && (n.whole == [] ==> n.minus) && |NumeralText(n)| <= 63 && At(s, o, NumeralText(n))
    requires o + |NumeralText(n)| < |s| && !NumberByte(s[o + |NumeralText(n)|])
    ensures ParseNumber(s, o) == Some(Parsed(NumeralMeaning(n), o + |NumeralText(n)|))
    ensures s[o] == MINUS || IsDigit(s[o])
  {
    hide Strtod, NumeralMeaning, NumeralText, ValidNumeral;
    var t := NumeralText(n);
    SignRead(n);
    NumeralBytes(n);
    forall k | o <= k < o + |t| ensures s[k] == t[k - o] {
      AtIndex(s, o, t, k - o);
    }
    RunEnd(s, o, |t|);
    StrtodReads(n);
  }

  /** And what is read, where no number byte follows, is such a numeral. */
  lemma NumberOf(s: seq<byte>, o: nat) returns (n: Numeral)
    requires IsText(s) && o < |s| && (s[o] == MINUS || IsDigit(s[o])) && ParseNumber(s, o).Some?
    requires !NumberByte(s[ParseNumber(s, o).value.next])
    ensures ValidNumeral(n) && (n.whole == [] ==> n.minus) && |NumeralText(n)| <= 63 && At(s, o, NumeralText(n))
    ensures ParseNumber(s, o) == Some(Parsed(NumeralMeaning(n), o + |NumeralText(n)|))
  {
    hide Strtod, NumeralMeaning, NumeralText, ValidNumeral;
    var e := NumberEnd(s, o, 63);
    assert ParseNumber(s, o).value.next == e;
    n := NumeralOf(s[o..e]);
  }
}
