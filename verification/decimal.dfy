/** The two integer conversions of Python's `%` string formatting that the
    rendering code uses, `%d` and `%02d` for non-negative values, together
    with the inverse reading of a digit string. */
module Decimal {

  predicate IsDigit(c: char) {
    '0' <= c <= '9'
  }

  /** Every character of `s` is a decimal digit (checked from the end, the
      way `ParseDec` reads). */
  predicate AllDigits(s: string) {
    |s| == 0 || (AllDigits(s[..|s| - 1]) && IsDigit(s[|s| - 1]))
  }

  /** Each character of an all-digit string is a digit. */
  lemma {:induction false} AllDigitsAt(s: string, i: int)
    requires AllDigits(s) && 0 <= i < |s|
    ensures IsDigit(s[i])
  {
    if i < |s| - 1 {
      AllDigitsAt(s[..|s| - 1], i);
    }
  }

  function DigitChar(d: nat): (c: char)
    requires d < 10
    ensures IsDigit(c) && DigitValue(c) == d
  {
    ('0' as int + d) as char
  }

  /** The value of a digit character; other characters read as zero. */
  function DigitValue(c: char): nat {
    if IsDigit(c) then c as int - '0' as int else 0
  }

  /** `"%d" % n` for a non-negative `n`: the shortest decimal digits. */
  function Dec(n: nat): (s: string)
    ensures 1 <= |s|
    ensures (n < 10) <==> (|s| == 1)
  {
    if n < 10 then [DigitChar(n)] else Dec(n / 10) + [DigitChar(n % 10)]
  }

  /** `"%02d" % n` for a non-negative `n`: zero-padded to two digits. */
  function Pad2(n: nat): (s: string)
    ensures 2 <= |s|
  {
    if n < 10 then "0" + Dec(n) else Dec(n)
  }

  /** Reads a digit string back as a number. */
  function ParseDec(s: string): nat {
    if |s| == 0 then 0 else 10 * ParseDec(s[..|s| - 1]) + DigitValue(s[|s| - 1])
  }

  /** `%d` writes only digits and loses nothing: reading the digits back gives
      the number. */
  lemma {:induction false} ParseDecOfDec(n: nat)
    ensures AllDigits(Dec(n))
    ensures ParseDec(Dec(n)) == n
  {
    var s := Dec(n);
    if n >= 10 {
      ParseDecOfDec(n / 10);
      assert s[..|s| - 1] == Dec(n / 10);
      assert IsDigit(s[|s| - 1]) && DigitValue(s[|s| - 1]) == n % 10 by {
        assert s[|s| - 1] == DigitChar(n % 10);
      }
    } else {
      assert s == [DigitChar(n)];
      assert s[..0] == [];
    }
  }

  /** Below 100, `%02d` writes exactly two digits that read back as `n`. */
  lemma Pad2TwoDigits(n: nat)
    requires n < 100
    ensures |Pad2(n)| == 2 && AllDigits(Pad2(n))
    ensures ParseDec(Pad2(n)) == n
  {
    var s := Pad2(n);
    if n < 10 {
      assert s == [DigitChar(0), DigitChar(n)];
      assert s[..1] == [DigitChar(0)];
      assert s[..1][..0] == [];
    } else {
      assert Dec(n / 10) == [DigitChar(n / 10)];
      assert s == [DigitChar(n / 10), DigitChar(n % 10)];
      assert s[..1] == [DigitChar(n / 10)];
      assert s[..1][..0] == [];
      assert ParseDec(s[..1]) == n / 10;
      assert ParseDec(s) == 10 * (n / 10) + n % 10;
    }
  }

  /** `%d` writes no leading zero: from 10 on, the first digit is not `0`. */
  lemma {:induction false} DecNoLeadingZero(n: nat)
    requires n >= 10
    ensures Dec(n)[0] != '0'
  {
    var s := Dec(n);
    assert s == Dec(n / 10) + [DigitChar(n % 10)];
    assert s[0] == Dec(n / 10)[0];
    if n / 10 >= 10 {
      DecNoLeadingZero(n / 10);
    } else {
      assert Dec(n / 10) == [DigitChar(n / 10)];
    }
  }
}
