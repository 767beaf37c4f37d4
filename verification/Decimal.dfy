/** Printing integers in decimal and parsing them back, as Rust's `to_string` and `parse` do. */
module Decimal {
  import opened Common

  const USIZE_MAX: nat := 0xFFFF_FFFF_FFFF_FFFF

  predicate IsDigit(c: char) {
    '0' <= c <= '9'
  }

  function DigitValue(c: char): (d: nat)
    requires IsDigit(c)
    ensures d < 10
  {
    c as int - '0' as int
  }

  function DigitChar(d: nat): (c: char)
    requires d < 10
    ensures IsDigit(c) && DigitValue(c) == d
  {
    ('0' as int + d) as char
  }

  predicate AllDigits(s: string) {
    forall i :: 0 <= i < |s| ==> IsDigit(s[i])
  }

  /** The number a string of digits denotes. */
  function Value(s: string): nat
    requires AllDigits(s)
  {
    if s == [] then 0 else 10 * Value(s[..|s| - 1]) + DigitValue(s[|s| - 1])
  }

  function ShowNat(n: nat): string {
    if n < 10 then [DigitChar(n)] else ShowNat(n / 10) + [DigitChar(n % 10)]
  }

  function Show(n: int): string {
    if n < 0 then ['-'] + ShowNat(-n) else ShowNat(n)
  }

  /** `str::parse::<i64>`: an optional sign, then at least one digit, and a value in range. */
  function ParseI64(s: string): Option<int> {
    var signed := s != [] && (s[0] == '-' || s[0] == '+');
    var digits := if signed then s[1..] else s;
    if digits == [] || !AllDigits(digits) then
      None
    else
      var n: int := if signed && s[0] == '-' then 0 - Value(digits) else Value(digits);
      if I64_MIN <= n <= I64_MAX then Some(n) else None
  }

  /** `str::parse::<usize>` on a 64-bit target: an optional plus, at least one digit, no overflow. */
  function ParseUsize(s: string): Option<nat> {
    var digits := if s != [] && s[0] == '+' then s[1..] else s;
    if digits == [] || !AllDigits(digits) then
      None
    else if Value(digits) <= USIZE_MAX then
      Some(Value(digits))
    else
      None
  }

  lemma {:induction false} ShowNatDenotes(n: nat)
    ensures ShowNat(n) != [] && AllDigits(ShowNat(n))
    ensures Value(ShowNat(n)) == n
  {
    if n >= 10 {
      ShowNatDenotes(n / 10);
      var s := ShowNat(n);
      assert s[..|s| - 1] == ShowNat(n / 10);
      assert s[|s| - 1] == DigitChar(n % 10);
    }
  }

  lemma DigitsAreNotSigns(s: string)
    requires s != [] && AllDigits(s)
    ensures s[0] != '-' && s[0] != '+'
  {
    assert IsDigit(s[0]);
  }

  /** Every i64 survives being printed and parsed. */
  lemma ParseShow(n: i64)
    ensures ParseI64(Show(n)) == Some(n)
  {
    var magnitude: nat := if n < 0 then 0 - n else n;
    ShowNatDenotes(magnitude);
    DigitsAreNotSigns(ShowNat(magnitude));
    assert n < 0 ==> Show(n)[1..] == ShowNat(magnitude);
  }

  /** Any digits parse, with or without a sign, as long as the number is an i64; nothing else does. */
  lemma {:induction false} ParseI64Accepts(d: string)
    requires d != [] && AllDigits(d)
    ensures ParseI64(d) == if Value(d) <= 0x7FFF_FFFF_FFFF_FFFF then Some(Value(d)) else None
    ensures ParseI64("+" + d) == ParseI64(d)
    ensures ParseI64("-" + d) == if Value(d) <= 0x8000_0000_0000_0000 then Some(0 - Value(d)) else None
  {
    DigitsAreNotSigns(d);
    assert ("+" + d)[1..] == d && ("-" + d)[1..] == d;
  }

  lemma ParseI64Refuses(s: string)
    requires ParseI64(s).Some?
    ensures exists d :: d != [] && AllDigits(d) && (s == d || s == "+" + d || s == "-" + d)
  {
    var d := if s[0] == '-' || s[0] == '+' then s[1..] else s;
    assert d != [] && AllDigits(d) && s == if s[0] == '-' then "-" + d else if s[0] == '+' then "+" + d else d;
  }

  /** Different numbers print differently. */
  lemma ShowIsInjective(a: i64, b: i64)
    requires Show(a) == Show(b)
    ensures a == b
  {
    ParseShow(a);
    ParseShow(b);
  }
}
