/** Printing a machine integer in decimal, and Rust's `str::parse` for usize and i64. */
module Decimal {
  import opened Wrappers

  const USIZE_MAX: nat := 0xFFFF_FFFF_FFFF_FFFF
  const I64_MAX: nat := 0x7FFF_FFFF_FFFF_FFFF

  predicate IsDigit(c: char) {
    '0' <= c <= '9'
  }

  function DigitValue(c: char): (d: nat)
    requires IsDigit(c)
    ensures d < 10
  {
    c as int - '0' as int
  }

  function DigitOf(d: nat): (c: char)
    requires d < 10
    ensures IsDigit(c) && DigitValue(c) == d
  {
    (d + '0' as int) as char
  }

  function Print(n: nat): (s: string)
    ensures s != "" && forall c | c in s :: IsDigit(c)
  {
    if n < 10 then [DigitOf(n)] else Print(n / 10) + [DigitOf(n % 10)]
  }

  function Value(s: string): nat
    requires forall c | c in s :: IsDigit(c)
  {
    if s == "" then 0
    else Value(s[..|s| - 1]) * 10 + DigitValue(s[|s| - 1])
  }

  /** At least one digit and nothing else. */
  function ParseDigits(digits: string): Option<nat> {
    if digits == "" || exists c | c in digits :: !IsDigit(c) then None else Some(Value(digits))
  }

  /** An optional `+`, then at least one digit, and no overflow. */
  function ParseUsize(s: string): Option<nat> {
    var n := ParseDigits(if s != "" && s[0] == '+' then s[1..] else s);
    if n.Some? && n.value <= USIZE_MAX then n else None
  }

  /** An optional sign, then at least one digit, and no overflow. */
  function ParseI64(s: string): Option<int> {
    var signed := s != "" && (s[0] == '+' || s[0] == '-');
    var n := ParseDigits(if signed then s[1..] else s);
    if n.None? then None
    else if signed && s[0] == '-' then
      var negative: int := 0 - n.value;
      if n.value <= I64_MAX + 1 then Some(negative) else None
    else if n.value <= I64_MAX then Some(n.value) else None
  }

  lemma {:induction false} ValueOfPrint(n: nat)
    ensures Value(Print(n)) == n
  {
    var s := Print(n);
    if n >= 10 {
      assert s[..|s| - 1] == Print(n / 10);
      ValueOfPrint(n / 10);
    }
  }

  lemma ParseDigitsPrint(n: nat)
    ensures ParseDigits(Print(n)) == Some(n) && IsDigit(Print(n)[0])
  {
    ValueOfPrint(n);
    assert Print(n)[0] in Print(n);
  }

  lemma ParsePrint(n: nat)
    ensures ParseUsize(Print(n)) == if n <= USIZE_MAX then Some(n) else None
    ensures ParseI64(Print(n)) == if n <= I64_MAX then Some(n) else None
  {
    ParseDigitsPrint(n);
    hide Print, ParseDigits;
  }
}
