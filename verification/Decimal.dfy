// Signed decimal numerals, as printf writes them and atol reads them.

module Decimal {

  predicate IsDigit(c: char) {
    '0' <= c <= '9'
  }

  predicate AllDigits(s: string) {
    forall i :: 0 <= i < |s| ==> IsDigit(s[i])
  }

  function DigitChar(d: int): (c: char)
    requires 0 <= d < 10
    ensures IsDigit(c) && DigitValue(c) == d
  {
    '0' + d as char
  }

  function DigitValue(c: char): int
    requires IsDigit(c)
  {
    c as int - '0' as int
  }

  function Digits(n: nat): (s: string)
    ensures s != "" && AllDigits(s)
  {
    if n < 10 then [DigitChar(n)] else Digits(n / 10) + [DigitChar(n % 10)]
  }

  function Print(z: int): (s: string)
    ensures s != ""
  {
    if z < 0 then "-" + Digits(-z) else Digits(z)
  }

  /** The digits from position i on, up to the first other character, added to what
      was read before. */
  function ReadDigits(s: string, i: nat, before: nat): nat
    requires i <= |s|
    decreases |s| - i
  {
    if i == |s| || !IsDigit(s[i]) then before else ReadDigits(s, i + 1, 10 * before + DigitValue(s[i]))
  }

  /** An optional sign and the digits that follow; 0 when there are none. */
  function Atol(s: string): int {
    if s != "" && s[0] == '-' then 0 - ReadDigits(s, 1, 0) as int else ReadDigits(s, 0, 0)
  }

  lemma {:induction false} ReadOneMore(s: string, i: nat, before: nat, c: char)
    requires i <= |s| && (forall j :: i <= j < |s| ==> IsDigit(s[j])) && IsDigit(c)
    ensures ReadDigits(s + [c], i, before) == 10 * ReadDigits(s, i, before) + DigitValue(c)
    decreases |s| - i
  {
    if i == |s| {
      assert ReadDigits(s + [c], i + 1, 10 * before + DigitValue(c)) == 10 * before + DigitValue(c);
    } else {
      ReadOneMore(s, i + 1, 10 * before + DigitValue(s[i]), c);
    }
  }

  lemma {:induction false} ReadWhatIsPrinted(sign: string, n: nat)
    ensures ReadDigits(sign + Digits(n), |sign|, 0) == n
  {
    if n < 10 {
      assert sign + Digits(n) == sign + [] + [DigitChar(n)];
      ReadOneMore(sign + [], |sign|, 0, DigitChar(n));
    } else {
      ReadWhatIsPrinted(sign, n / 10);
      assert sign + Digits(n) == sign + Digits(n / 10) + [DigitChar(n % 10)];
      ReadOneMore(sign + Digits(n / 10), |sign|, 0, DigitChar(n % 10));
    }
  }

  lemma AtolPrint(z: int)
    ensures Atol(Print(z)) == z
  {
    if z < 0 {
      ReadWhatIsPrinted("-", -z);
    } else {
      ReadWhatIsPrinted("", z);
      assert "" + Digits(z) == Digits(z);
    }
  }

  /** A number without its last k digits. */
  function Shortened(n: nat, k: nat): nat {
    if k == 0 then n else Shortened(n / 10, k - 1)
  }

  lemma {:induction false} ShortenedSize(n: nat, k: nat)
    ensures k > 0 && n > 0 ==> Shortened(n, k) < n
    ensures Shortened(n, k) == 0 <==> n == 0 || k >= |Digits(n)|
    ensures Shortened(n, k) <= n
    decreases k
  {
    if k > 0 {
      ShortenedSize(n / 10, k - 1);
    }
  }

  lemma {:induction false} ReadWhatIsLeft(sign: string, n: nat, k: nat)
    requires k <= |Digits(n)|
    ensures ReadDigits(sign + Digits(n)[..|Digits(n)| - k], |sign|, 0) == Shortened(n, k)
    decreases k
  {
    if k == 0 {
      assert Digits(n)[..|Digits(n)|] == Digits(n);
      ReadWhatIsPrinted(sign, n);
    } else if n < 10 {
      assert sign + Digits(n)[..0] == sign;
    } else {
      ReadWhatIsLeft(sign, n / 10, k - 1);
      assert Digits(n)[..|Digits(n)| - k] == Digits(n / 10)[..|Digits(n / 10)| - (k - 1)];
    }
  }

  /** A numeral cut short reads as the number without the digits that are missing: never
      the number itself unless that is 0, and 0 just when no digit is left. */
  lemma {:induction false} AtolCut(z: int, m: nat)
    requires m < |Print(z)|
    ensures var r, missing := Atol(Print(z)[..m]), |Print(z)| - m;
            && r == (if z < 0 then 0 - Shortened(-z, missing) as int else Shortened(z, missing))
            && (r == z <==> z == 0)
            && (r == 0 <==> m <= if z < 0 then 1 else 0)
  {
    var missing := |Print(z)| - m;
    if z < 0 {
      ShortenedSize(-z, missing);
      if m > 0 {
        ReadWhatIsLeft("-", -z, missing);
        assert Print(z)[..m] == "-" + Digits(-z)[..|Digits(-z)| - missing];
      }
    } else {
      ShortenedSize(z, missing);
      ReadWhatIsLeft("", z, missing);
      assert Print(z)[..m] == "" + Digits(z)[..|Digits(z)| - missing];
    }
  }

  lemma PrintIsPlain(z: int)
    ensures forall i :: 0 <= i < |Print(z)| ==> Print(z)[i] == '-' || IsDigit(Print(z)[i])
  {
  }

  function Pow10(k: nat): (p: nat)
    ensures p >= 1
  {
    if k == 0 then 1 else 10 * Pow10(k - 1)
  }

  lemma {:induction false} DigitsLength(n: nat, k: nat)
    requires k > 0 && n < Pow10(k)
    ensures |Digits(n)| <= k
    decreases k
  {
    if n >= 10 {
      assert k > 1 by {
        assert Pow10(0) == 1 && (k == 1 ==> Pow10(k) == 10);
      }
      DigitsLength(n / 10, k - 1);
    }
  }

  const MAX_U32 := 0xFFFF_FFFF
  const MAX_I32 := 0x7FFF_FFFF
  const MAX_I64 := 0x7FFF_FFFF_FFFF_FFFF

  lemma PrintLength(z: int)
    ensures 0 <= z <= MAX_U32 ==> |Print(z)| <= 10
    ensures -MAX_I32 - 1 <= z <= MAX_I32 ==> |Print(z)| <= 11
    ensures -MAX_I64 - 1 <= z <= MAX_I64 ==> |Print(z)| <= 20
  {
    var n: nat := if z < 0 then -z else z;
    Powers();
    if n < Pow10(10) {
      DigitsLength(n, 10);
    }
    if n < Pow10(19) {
      DigitsLength(n, 19);
    }
  }

  lemma Powers()
    ensures Pow10(10) == 10_000_000_000 && Pow10(19) == 10_000_000_000_000_000_000
  {
    assert Pow10(5) == 100_000;
    assert Pow10(10) == 10_000_000_000;
    assert Pow10(15) == 1_000_000_000_000_000;
  }
}
