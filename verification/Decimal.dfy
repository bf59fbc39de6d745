/** Go's decimal printing (`%d`, `%0<w>d`) and parsing (`strconv.Atoi`). */
module Decimal {
  import opened Prelude

  predicate IsDigit(c: char) {
    '0' <= c <= '9'
  }

  predicate AllDigits(s: string) {
    forall i | 0 <= i < |s| :: IsDigit(s[i])
  }

  function DigitChar(d: nat): (c: char)
    requires d < 10
    ensures IsDigit(c) && c as int - '0' as int == d
  {
    ('0' as int + d) as char
  }

  /** `%d` of a natural number. */
  function Digits(n: nat): (s: string)
    ensures |s| > 0 && AllDigits(s)
  {
    if n < 10 then [DigitChar(n)] else Digits(n / 10) + [DigitChar(n % 10)]
  }

  /** Leading zeros up to a minimum width. */
  function ZeroFill(s: string, width: int): (r: string)
    ensures |r| >= |s| && |r| >= width
    ensures AllDigits(s) ==> AllDigits(r)
    decreases width - |s|
  {
    if |s| >= width then s else ZeroFill("0" + s, width)
  }

  /** `%0<width>d`; the sign counts towards the width. */
  function Padded(n: int, width: int): string {
    if n < 0 then "-" + ZeroFill(Digits(-n), width - 1) else ZeroFill(Digits(n), width)
  }

  /** The number a string of digits denotes. */
  function Value(s: string): nat
    requires AllDigits(s)
  {
    if s == "" then 0 else 10 * Value(s[..|s| - 1]) + (s[|s| - 1] as int - '0' as int)
  }

  /** `strconv.Atoi`: an optional sign, then digits only, within the range of a 64-bit int. */
  function Atoi(s: string): Option<int> {
    var signed := |s| > 0 && (s[0] == '-' || s[0] == '+');
    var body := if signed then s[1..] else s;
    if body == "" || !AllDigits(body) then None
    else
      var magnitude: int := Value(body);
      var v := if signed && s[0] == '-' then -magnitude else magnitude;
      if -MAX_INT64 - 1 <= v <= MAX_INT64 then Some(v) else None
  }

  lemma {:induction false} ValueOfDigits(n: nat)
    ensures Value(Digits(n)) == n
  {
    if n < 10 {
      assert Digits(n)[..|Digits(n)| - 1] == "";
    } else {
      ValueOfDigits(n / 10);
      assert Digits(n)[..|Digits(n)| - 1] == Digits(n / 10);
    }
  }

  lemma {:induction false} ValueOfLeadingZero(s: string)
    requires AllDigits(s)
    ensures AllDigits("0" + s) && Value("0" + s) == Value(s)
  {
    var t := "0" + s;
    if s == "" {
      assert t[..0] == "";
    } else {
      ValueOfLeadingZero(s[..|s| - 1]);
      assert t[..|t| - 1] == "0" + s[..|s| - 1];
    }
  }

  lemma {:induction false} ValueOfZeroFill(s: string, width: int)
    requires AllDigits(s)
    ensures Value(ZeroFill(s, width)) == Value(s)
    decreases width - |s|
  {
    if |s| < width {
      ValueOfLeadingZero(s);
      ValueOfZeroFill("0" + s, width);
    }
  }

  /** Zero-padded printing of naturals is read back by Value, whatever the width. */
  lemma ValueOfPadded(n: nat, width: int)
    ensures AllDigits(Padded(n, width)) && Value(Padded(n, width)) == n
  {
    ValueOfDigits(n);
    ValueOfZeroFill(Digits(n), width);
  }

  /** Parsing what was printed gives the number back exactly on the non-negative int range. */
  lemma AtoiOfDigits(n: nat)
    ensures Atoi(Digits(n)) == if n <= MAX_INT64 then Some(n) else None
  {
    ValueOfDigits(n);
    assert IsDigit(Digits(n)[0]);
  }

  /** The negative range reaches one further. */
  lemma AtoiOfNegative(n: nat)
    ensures Atoi("-" + Digits(n)) == if n <= MAX_INT64 + 1 then Some(0 - n as int) else None
  {
    ValueOfDigits(n);
    assert ("-" + Digits(n))[1..] == Digits(n);
  }
}
