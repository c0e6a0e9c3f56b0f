/** `sdsll2str` and `sdsull2str`: decimal digits written backwards and turned round in place. */
module SdsNumber {
  import opened Bytes
  import opened Decimal
  import opened Allocation
  import opened SdsStrings

  const LLSTR_SIZE := 21
  const WORD := 0x1_0000_0000_0000_0000

  predicate IsLongLong(n: int) { -(WORD / 2) <= n < WORD / 2 }

  /** A number kept as `long long`, and read as `unsigned long long`. */
  function Signed(n: int): (r: int)
    ensures IsLongLong(r)
  {
    (n + WORD / 2) % WORD - WORD / 2
  }

  function Unsigned(n: int): (r: nat) { n % WORD }

  /** The negation overflows for the smallest number only, and even then the magnitude comes out right. */
  lemma Magnitude(value: int)
    requires IsLongLong(value)
    ensures Unsigned(if value < 0 then Signed(-value) else value) == if value < 0 then -value else value
    ensures Signed(-value) != -value <==> value == -(WORD / 2)
  {
  }

  function Reverse(s: seq<byte>): (r: seq<byte>)
    ensures |r| == |s| && forall i | 0 <= i < |s| :: r[i] == s[|s| - 1 - i]
  {
    if s == [] then [] else Reverse(s[1..]) + [s[0]]
  }

  lemma {:induction false} ReverseAppend(s: seq<byte>, c: byte)
    ensures Reverse(s + [c]) == [c] + Reverse(s)
  {
    if s != [] {
      ReverseAppend(s[1..], c);
      assert (s + [c])[1..] == s[1..] + [c];
    } else {
      assert [c][1..] == [];
    }
  }

  /** The bytes from `lo` to `hi` are still to be swapped with their mirror images. */
  ghost predicate HalfReversed(s: seq<byte>, was: seq<byte>, l: nat, lo: int, hi: int)
    requires |s| == |was| && l <= |s|
  {
    && (forall k | 0 <= k < lo && k < l :: s[k] == was[l - 1 - k])
    && (forall k | lo <= k <= hi && 0 <= k < |s| :: s[k] == was[k])
    && (forall k | hi < k < l && 0 <= k :: s[k] == was[l - 1 - k])
    && (forall k | l <= k < |s| :: s[k] == was[k])
  }

  lemma SwapStep(s: seq<byte>, was: seq<byte>, l: nat, lo: nat, hi: nat)
    requires |s| == |was| && l <= |s| && lo < hi && lo + hi == l - 1 && HalfReversed(s, was, l, lo, hi)
    ensures HalfReversed(s[lo := s[hi]][hi := s[lo]], was, l, lo + 1, hi - 1)
  {
  }

  lemma AllReversed(s: seq<byte>, was: seq<byte>, l: nat, lo: nat, hi: int)
    requires |s| == |was| && l <= |s| && hi <= lo && lo + hi == l - 1 && HalfReversed(s, was, l, lo, hi)
    ensures s == Reverse(was[..l]) + was[l..]
  {
    hide HalfReversed;
    assert forall k | 0 <= k < l :: s[k] == was[l - 1 - k] by { MirrorAll(s, was, l, lo, hi); }
    assert forall k | l <= k < |s| :: s[k] == was[k] by { MirrorAll(s, was, l, lo, hi); }
  }

  lemma MirrorAll(s: seq<byte>, was: seq<byte>, l: nat, lo: nat, hi: int)
    requires |s| == |was| && l <= |s| && hi <= lo && lo + hi == l - 1 && HalfReversed(s, was, l, lo, hi)
    ensures forall k | 0 <= k < l :: s[k] == was[l - 1 - k]
    ensures forall k | l <= k < |s| :: s[k] == was[k]
  {
  }

  /** The first `l` bytes turned round. */
  method ReverseInPlace(s: array<byte>, l: nat)
    requires l <= s.Length
    modifies s
    ensures s[..] == Reverse(old(s[..])[..l]) + old(s[..])[l..]
  {
    hide HalfReversed, Reverse;
    ghost var was := s[..];
    var lo: nat, hi: int := 0, l - 1;
    assert HalfReversed(was, was, l, 0, l - 1) by { NothingReversed(was, l); }
    while lo < hi
      invariant lo <= hi + 2 && lo + hi == l - 1
      invariant |s[..]| == |was| && HalfReversed(s[..], was, l, lo, hi)
    {
      SwapStep(s[..], was, l, lo, hi);
      var aux := s[lo];
      s[lo] := s[hi];
      s[hi] := aux;
      lo, hi := lo + 1, hi - 1;
    }
    AllReversed(s[..], was, l, lo, hi);
  }

  lemma NothingReversed(s: seq<byte>, l: nat)
    requires l <= |s|
    ensures HalfReversed(s, s, l, 0, l - 1)
  {
  }

  /** Digits from the last to the first: those of `v` are still to come. */
  ghost predicate Written(s: seq<byte>, p: nat, v: nat, of: nat, first: bool)
    requires p <= |s|
  {
    if first then p == 0 && v == of else Digits(of) == (if v == 0 then [] else Digits(v)) + Reverse(s[..p])
  }

  lemma OneDigit(s: seq<byte>, p: nat, v: nat, of: nat, first: bool)
    requires p < |s| && Written(s, p, v, of, first) && (first || v != 0)
    ensures Written(s[p := ZERO + v % 10], p + 1, v / 10, of, false)
  {
    var r := s[p := ZERO + v % 10];
    assert r[..p + 1] == s[..p] + [ZERO + v % 10];
    ReverseAppend(s[..p], ZERO + v % 10);
    var d: byte := ZERO + v % 10;
    assert Digits(v) == (if v / 10 == 0 then [] else Digits(v / 10)) + [d];
    if first {
      assert s[..p] == [];
    }
  }

  /** The digit loop that both functions begin with. */
  method WriteDigits(s: array<byte>, number: nat, ghost k: nat) returns (p: nat)
    requires 1 <= k < s.Length && number < Pow10(k)
    modifies s
    ensures 1 <= p <= k && Reverse(s[..p]) == Digits(number) && s[p..] == old(s[p..])
  {
    p := 0;
    var v := number;
    var more := true;
    DigitsLength(number, k);
    while more
      invariant p <= k && s[p..] == old(s[p..]) && Written(s[..], p, v, number, p == 0)
      invariant more <==> p == 0 || v != 0
      decreases if more then 1 else 0, v
    {
      OneDigit(s[..], p, v, number, p == 0);
      assert old(s[p..])[1..] == old(s[p + 1..]);
      ghost var tail := s[p..];
      s[p] := ZERO + v % 10;
      assert s[p + 1..] == tail[1..];
      p := p + 1;
      v := v / 10;
      more := v != 0;
    }
    assert s[..][..p] == s[..p];
  }

  /** The terminator and the reversal that both functions end with. */
  method Finish(s: array<byte>, l: nat)
    requires l < s.Length
    modifies s
    ensures s[..] == Reverse(old(s[..l])) + [NUL] + old(s[l + 1..])
  {
    ghost var digits, rest := s[..l], s[l + 1..];
    s[l] := NUL;
    assert s[..l] == digits && s[l..] == [NUL] + rest;
    ReverseInPlace(s, l);
  }

  /** `sdsll2str`: the decimal text of any `long long`, with its terminator, within 21 bytes. */
  method Ll2Str(s: array<byte>, value: int) returns (l: nat)
    requires IsLongLong(value) && s.Length >= LLSTR_SIZE
    modifies s
    ensures l + 1 <= LLSTR_SIZE && l == |IntText(value)|
    ensures s[..] == IntText(value) + [NUL] + old(s[l + 1..])
  {
    hide Reverse, Pow10, Digits, Signed, Unsigned;
    Magnitude(value);
    var v := Unsigned(if value < 0 then Signed(-value) else value);
    Powers();
    var p := WriteDigits(s, v, 19);
    ghost var digits, tail := s[..p], s[p..];
    assert tail[1..] == old(s[p + 1..]);
    if value < 0 {
      s[p] := MINUS;
      p := p + 1;
      ReverseAppend(digits, MINUS);
      assert s[..p] == digits + [MINUS];
    }
    l := p;
    Finish(s, l);
  }

  /** `sdsull2str` */
  method Ull2Str(s: array<byte>, value: nat) returns (l: nat)
    requires value < WORD && s.Length >= LLSTR_SIZE
    modifies s
    ensures l + 1 <= LLSTR_SIZE && l == |Digits(value)|
    ensures s[..] == Digits(value) + [NUL] + old(s[l + 1..])
  {
    Powers();
    l := WriteDigits(s, value, 20);
    assert s[l + 1..] == s[l..][1..];
    Finish(s, l);
  }

  lemma Powers()
    ensures Pow10(19) == 10_000_000_000_000_000_000 && Pow10(20) == 100_000_000_000_000_000_000
  {
    assert Pow10(5) == 100_000;
    assert Pow10(10) == 10_000_000_000;
    assert Pow10(15) == 1_000_000_000_000_000;
  }

  /** The text is read back as the number, and has no zero to spare. */
  lemma NumberOfText(value: int)
    ensures value >= 0 ==> Number(IntText(value)) == value
    ensures value < 0 ==> IntText(value)[0] == '-' as int && Number(IntText(value)[1..]) == -value
    ensures value > 0 ==> IntText(value)[0] != '0' as int
    ensures value < 0 ==> IntText(value)[1] != '0' as int
    ensures value == 0 ==> IntText(value) == ['0' as int]
  {
    NumberOfDigits(if value < 0 then -value else value);
    if value != 0 {
      DigitsLead(if value < 0 then -value else value);
    }
  }

  /** `sdsfromlonglong` */
  method FromLongLong(value: int, heap: Heap) returns (r: Sds?)
    requires heap.Valid() && IsLongLong(value)
    modifies heap
    ensures heap.Valid() && heap.refusals == old(heap.refusals) + (if r == null then 1 else 0)
    ensures r != null ==> fresh(r) && r.Valid() && r.Contents() == IntText(value)
    ensures heap.live == old(heap.live) + (if r == null then {} else {r.block})
  {
    var buf := new byte[LLSTR_SIZE];
    var len := Ll2Str(buf, value);
    assert buf[..len] == IntText(value);
    r := NewLen(From(buf[..len]), heap);
  }
}
