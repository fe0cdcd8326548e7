/** What the decimal texts are, digit by digit, and every text a number is read from. */
module Numerals {
  import opened Decimal
  import opened Wrappers

  function Power10(k: nat): (p: nat)
    ensures p > 0
  {
    if k == 0 then 1 else 10 * Power10(k - 1)
  }

  lemma DivisionIs(n: nat, d: nat, q: nat, r: nat)
    requires n == q * d + r && r < d
    ensures n / d == q
  {
    var x := n / d - q;
    assert x * d == n / d * d - q * d == r - n % d;
    LargeMultiple(x, d);
  }

  lemma LargeMultiple(x: int, d: nat)
    ensures x > 0 ==> x * d >= d
    ensures x < 0 ==> x * d <= 0 - d
  {
    if x > 0 {
      assert (x - 1) * d >= 0;
    } else if x < 0 {
      assert (0 - x - 1) * d >= 0;
    }
  }

  lemma DivideTwice(n: nat, k: nat)
    ensures n / 10 / Power10(k) == n / Power10(k + 1)
  {
    var p := Power10(k);
    var tens, ones := n / 10, n % 10;
    var q, r := tens / p, tens % p;
    assert n == 10 * tens + ones && tens == q * p + r;
    assert n == q * (10 * p) + (10 * r + ones);
    DivisionIs(n, 10 * p, q, 10 * r + ones);
  }

  /** The digit k places from the right is that of the number, and the first one is no idle zero. */
  lemma {:induction false} PrintedDigit(n: nat, k: nat)
    requires k < |Print(n)|
    ensures DigitValue(Print(n)[|Print(n)| - 1 - k]) == n / Power10(k) % 10
    ensures n > 0 ==> Print(n)[0] != '0'
  {
    var s := Print(n);
    if n >= 10 {
      assert s == Print(n / 10) + [DigitOf(n % 10)];
      if k > 0 {
        PrintedDigit(n / 10, k - 1);
        DivideTwice(n, k - 1);
      } else {
        PrintedDigit(n / 10, 0);
      }
    }
  }

  function Zeros(k: nat): (s: string)
    ensures |s| == k && forall c | c in s :: c == '0'
  {
    seq(k, i => '0')
  }

  lemma {:induction false} ValueOfZeros(k: nat)
    ensures Value(Zeros(k)) == 0
  {
    if k > 0 {
      ValueOfZeros(k - 1);
      assert Zeros(k)[..k - 1] == Zeros(k - 1);
    }
  }

  lemma {:induction false} ValueOfPadded(k: nat, n: nat)
    ensures forall c | c in Zeros(k) + Print(n) :: IsDigit(c)
    ensures Value(Zeros(k) + Print(n)) == n
  {
    var s := Zeros(k) + Print(n);
    if n < 10 {
      assert s[..|s| - 1] == Zeros(k);
      ValueOfZeros(k);
    } else {
      assert s[..|s| - 1] == Zeros(k) + Print(n / 10);
      ValueOfPadded(k, n / 10);
    }
  }

  lemma PrintSnoc(v: nat, c: char)
    requires IsDigit(c)
    ensures v > 0 ==> Print(10 * v + DigitValue(c)) == Print(v) + [c]
    ensures Print(DigitValue(c)) == [c]
  {
    var n := 10 * v + DigitValue(c);
    assert n / 10 == v && n % 10 == DigitValue(c);
  }

  lemma ZerosSnoc(k: nat)
    ensures Zeros(k) + "0" == Zeros(k + 1) && Print(0) == "0"
  {
  }

  /** Any text of digits is the number it reads as, with zeros in front. */
  lemma {:induction false} DigitsArePadded(s: string) returns (k: nat)
    requires s != "" && forall c | c in s :: IsDigit(c)
    ensures s == Zeros(k) + Print(Value(s))
  {
    var front, last := s[..|s| - 1], s[|s| - 1];
    var d := DigitValue(last);
    assert s == front + [last];
    if front == "" {
      k := 0;
      PrintSnoc(0, last);
      assert Value(s) == Value("") * 10 + d == d;
      assert s == Zeros(0) + [last];
    } else {
      k := DigitsArePadded(front);
      var v := Value(front);
      assert Value(s) == 10 * v + d;
      PrintSnoc(v, last);
      hide Print, Value, Zeros;
      if v == 0 {
        ZerosSnoc(k);
        assert s == Zeros(k) + "0" + [last] == Zeros(k + 1) + [last];
        k := k + 1;
      } else {
        assert s == Zeros(k) + (Print(v) + [last]);
      }
    }
  }

  /** The decimal text of a number, with or without zeros in front. */
  ghost predicate IsNumeral(text: string, n: nat) {
    exists k: nat :: text == Zeros(k) + Print(n)
  }

  lemma DigitsExactly(s: string, n: nat)
    ensures ParseDigits(s) == Some(n) <==> IsNumeral(s, n)
    ensures IsNumeral(s, n) ==> s != "" && IsDigit(s[0])
  {
    if ParseDigits(s) == Some(n) {
      var k := DigitsArePadded(s);
    }
    if k: nat :| s == Zeros(k) + Print(n) {
      ValueOfPadded(k, n);
      assert s[0] in s;
    }
  }

  /** A page size is read from its numeral, with or without one `+` in front, and from nothing else. */
  lemma UsizeExactly(s: string, n: nat)
    ensures ParseUsize(s) == Some(n) <==>
            && n <= 0xFFFF_FFFF_FFFF_FFFF
            && (IsNumeral(s, n) || (s != "" && s[0] == '+' && IsNumeral(s[1..], n)))
  {
    hide ParseDigits, IsNumeral;
    DigitsExactly(s, n);
    if s != "" {
      DigitsExactly(s[1..], n);
    }
  }

  /** A cursor is read from its numeral with or without one sign of either kind in front. */
  lemma I64Exactly(s: string, n: int)
    ensures ParseI64(s) == Some(n) <==>
            && -0x8000_0000_0000_0000 <= n <= 0x7FFF_FFFF_FFFF_FFFF
            && (|| (n >= 0 && (IsNumeral(s, n) || (s != "" && s[0] == '+' && IsNumeral(s[1..], n))))
                || (n <= 0 && s != "" && s[0] == '-' && IsNumeral(s[1..], 0 - n)))
  {
    hide ParseDigits, IsNumeral;
    var size: nat := if n >= 0 then n else 0 - n;
    DigitsExactly(s, size);
    if s != "" {
      DigitsExactly(s[1..], size);
    }
  }
}
