/** Numerals: what printf writes for %u and %ld, and what strtol reads with base 0 and 16. */
module CNumber {
  import opened CString

  const LLONG_MAX := 0x7FFF_FFFF_FFFF_FFFF
  const LLONG_MIN := -0x8000_0000_0000_0000

  /** The character of a digit, in lower case. */
  function DigitChar(d: int): (c: char)
    requires 0 <= d < 16
    ensures DigitValue(c) == d
    ensures c != '-' && c != '+' && !IsSpace(c) && c != 'x' && c != 'X'
  {
    if d < 10 then '0' + d as char else 'a' + (d - 10) as char
  }

  /** The value of a digit in bases up to 16, or 16 for any other character. */
  function DigitValue(c: char): (d: int)
    ensures 0 <= d <= 16
  {
    if '0' <= c <= '9' then c as int - '0' as int
    else if 'a' <= c <= 'f' then c as int - 'a' as int + 10
    else if 'A' <= c <= 'F' then c as int - 'A' as int + 10
    else 16
  }

  /** isspace in the C locale. */
  predicate IsSpace(c: char) {
    c == ' ' || 9 <= c as int <= 13
  }

  /** %u and %llu. */
  function Decimal(n: nat): (s: string)
    ensures s != [] && CR !in s && NUL !in s && '-' !in s
  {
    if n < 10 then [DigitChar(n)] else Decimal(n / 10) + [DigitChar(n % 10)]
  }

  /** %ld. */
  function SignedDecimal(n: int): (s: string)
    ensures n < 0 <==> '-' in s
  {
    if n < 0 then "-" + Decimal(-n) else Decimal(n)
  }

  /** The value of the digits of s below `base`, up to the first other character. */
  function Digits(s: string, base: nat, acc: nat): nat
    requires base <= 16
  {
    if s == [] || DigitValue(s[0]) >= base then acc
    else Digits(s[1..], base, acc * base + DigitValue(s[0]))
  }

  function SkipSpaces(s: string): string {
    if s != [] && IsSpace(s[0]) then SkipSpaces(s[1..]) else s
  }

  /** Digits with the prefix that base 0 interprets: 0x for sixteen, 0 for eight. */
  function Magnitude(s: string): nat {
    if |s| >= 3 && s[0] == '0' && (s[1] == 'x' || s[1] == 'X') && DigitValue(s[2]) < 16 then Digits(s[2..], 16, 0)
    else if s != [] && s[0] == '0' then Digits(s, 8, 0)
    else Digits(s, 10, 0)
  }

  function Saturate(n: int): (r: int)
    ensures LLONG_MIN <= r <= LLONG_MAX
    ensures LLONG_MIN <= n <= LLONG_MAX ==> r == n
  {
    if n < LLONG_MIN then LLONG_MIN else if n > LLONG_MAX then LLONG_MAX else n
  }

  /** strtol(s, NULL, 0) and strtoll(s, NULL, 0) on 64-bit long. */
  function StrToL(s: string): int {
    var t := SkipSpaces(s);
    if t != [] && t[0] == '-' then (var m: int := Magnitude(t[1..]); Saturate(-m))
    else if t != [] && t[0] == '+' then Saturate(Magnitude(t[1..]))
    else Saturate(Magnitude(t))
  }

  lemma {:induction false} DigitsAppend(s: string, c: char, acc: nat)
    requires forall d :: d in s + [c] ==> DigitValue(d) < 10
    ensures Digits(s + [c], 10, acc) == Digits(s, 10, acc) * 10 + DigitValue(c)
  {
    if s == [] {
      assert Digits([], 10, acc * 10 + DigitValue(c)) == acc * 10 + DigitValue(c);
    } else {
      assert (s + [c])[1..] == s[1..] + [c];
      DigitsAppend(s[1..], c, acc * 10 + DigitValue(s[0]));
    }
  }

  lemma {:induction false} DigitsOfDecimal(n: nat)
    ensures forall d :: d in Decimal(n) ==> DigitValue(d) < 10
    ensures Digits(Decimal(n), 10, 0) == n
    ensures n > 0 ==> Decimal(n)[0] != '0'
    ensures DigitValue(Decimal(n)[0]) < 10
  {
    if n >= 10 {
      DigitsOfDecimal(n / 10);
      DigitsAppend(Decimal(n / 10), DigitChar(n % 10), 0);
    }
  }

  /** A printed number is read back, because printf writes no leading zero. */
  lemma DecimalRoundTrip(n: nat)
    requires n <= LLONG_MAX
    ensures StrToL(Decimal(n)) == n
  {
    DigitsOfDecimal(n);
    var s := Decimal(n);
    assert !IsSpace(s[0]) && s[0] != '-' && s[0] != '+';
    if n == 0 {
      assert s == ['0'] && Digits(['0'], 8, 0) == 0;
    }
  }

  lemma NegativeRoundTrip(n: int)
    requires 0 <= n <= LLONG_MAX
    ensures StrToL(SignedDecimal(-n)) == -n
  {
    DecimalRoundTrip(n);
    DigitsOfDecimal(n);
    if n > 0 {
      var s := SignedDecimal(-n);
      assert s[1..] == Decimal(n);
    }
  }

  lemma {:induction false} DigitsStop(s: string, rest: string, base: nat, acc: nat)
    requires base <= 16 && rest != [] && DigitValue(rest[0]) >= base
    requires forall d :: d in s ==> DigitValue(d) < base
    ensures Digits(s + rest, base, acc) == Digits(s, base, acc)
  {
    if s == [] {
      assert s + rest == rest;
    } else {
      assert (s + rest)[1..] == s[1..] + rest;
      DigitsStop(s[1..], rest, base, acc * base + DigitValue(s[0]));
    }
  }

  /** A printed number is read back in front of a quote too. */
  lemma QuotedRoundTrip(n: nat)
    requires n <= LLONG_MAX
    ensures StrToL(Decimal(n) + "\"") == n
  {
    DigitsOfDecimal(n);
    var s, t := Decimal(n), Decimal(n) + "\"";
    assert t[0] == s[0] && !IsSpace(t[0]) && t[0] != '-' && t[0] != '+';
    if n == 0 {
      assert t == ['0', '\"'] && Digits(['\"'], 8, 0) == 0;
      assert t[1..] == ['\"'];
    } else {
      DigitsStop(s, "\"", 10, 0);
    }
  }

  lemma DecimalInjective(a: nat, b: nat)
    requires Decimal(a) == Decimal(b)
    ensures a == b
  {
    DigitsOfDecimal(a);
    DigitsOfDecimal(b);
  }

  lemma SignedDecimalInjective(a: int, b: int)
    requires SignedDecimal(a) == SignedDecimal(b)
    ensures a == b
  {
    if a < 0 && b < 0 {
      assert Decimal(-a) == SignedDecimal(a)[1..];
      DecimalInjective(-a, -b);
    } else if a >= 0 && b >= 0 {
      DecimalInjective(a, b);
    }
  }

  function Power10(k: nat): nat {
    if k == 0 then 1 else 10 * Power10(k - 1)
  }

  lemma {:induction false} DecimalSize(n: nat, k: nat)
    requires k >= 1 && n < Power10(k)
    ensures |Decimal(n)| <= k
  {
    if n >= 10 {
      DecimalSize(n / 10, k - 1);
    }
  }

  /** The numerals of a long long have at most nineteen digits. */
  lemma LongSize(n: nat)
    requires n <= LLONG_MAX
    ensures |Decimal(n)| <= 19
  {
    assert Power10(3) == 1000;
    assert Power10(5) == 100000;
    assert Power10(7) == 10000000;
    assert Power10(9) == 1000000000;
    assert Power10(11) == 100000000000;
    assert Power10(13) == 10000000000000;
    assert Power10(15) == 1000000000000000;
    assert Power10(17) == 100000000000000000;
    assert Power10(19) == 10000000000000000000;
    DecimalSize(n, 19);
  }
}
