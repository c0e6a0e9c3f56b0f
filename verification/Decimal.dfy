/** Decimal text of integers, shared by the JSON number printer and sds. */
module Decimal {
  import opened Bytes

  function Digits(n: nat): (r: seq<byte>)
    ensures |r| > 0 && forall i | 0 <= i < |r| :: IsDigit(r[i])
  {
    if n < 10 then [ZERO + n] else Digits(n / 10) + [ZERO + n % 10]
  }

  function IntText(n: int): seq<byte> {
    if n < 0 then [MINUS] + Digits(-n) else Digits(n)
  }

  /** The number a run of digits denotes; bytes other than digits count by their code. */
  function Number(ds: seq<byte>): int {
    if ds == [] then 0 else 10 * Number(ds[..|ds| - 1]) + (ds[|ds| - 1] - ZERO)
  }

  function Pow10(k: nat): (r: nat)
    ensures r > 0
  {
    if k == 0 then 1 else 10 * Pow10(k - 1)
  }

  lemma {:induction false} NumberOfDigits(n: nat)
    ensures Number(Digits(n)) == n
  {
    if n < 10 {
      assert Digits(n)[..0] == [];
    } else {
      NumberOfDigits(n / 10);
      assert Digits(n)[..|Digits(n)| - 1] == Digits(n / 10);
    }
  }

  lemma {:induction false} DigitsLength(n: nat, k: nat)
    requires 1 <= k && n < Pow10(k)
    ensures |Digits(n)| <= k
  {
    if n >= 10 {
      assert Pow10(1) == 10 * Pow10(0);
      assert k >= 2;
      assert n / 10 < Pow10(k - 1);
      DigitsLength(n / 10, k - 1);
    }
  }

  /** No zero leads the digits of another number. */
  lemma {:induction false} DigitsLead(n: nat)
    requires n > 0
    ensures Digits(n)[0] != '0' as int
  {
    if n >= 10 {
      DigitsLead(n / 10);
    }
  }

  lemma PowerStep(p: nat)
    ensures Pow10(p + 1) == 10 * Pow10(p)
  {
  }

  lemma NoPower()
    ensures Pow10(0) == 1
  {
  }

  lemma PowerPositive(p: nat)
    ensures Pow10(p) >= 1
  {
  }

  lemma NumberUnfold(ds: seq<byte>)
    requires ds != []
    ensures Number(ds) == 10 * Number(ds[..|ds| - 1]) + (ds[|ds| - 1] - ZERO)
  {
  }
}
