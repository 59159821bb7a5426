/**
 * The month bucket of the usage ledger (lib/usage.ts:2-3): the key is the
 * decimal year, a `-`, then the 1-based month padded to two digits with `0`,
 * as in "2024-03". The clock is not modelled: the year and the 0-based month
 * index that `getFullYear()` and `getMonth()` would return are parameters.
 */
module MonthKeys {
  import opened Wrappers

  /** What `Date.prototype.getMonth()` returns: January is 0, December is 11. */
  type MonthIndex = m: int | 0 <= m < 12

  predicate IsDigit(c: char) {
    '0' <= c <= '9'
  }

  predicate AllDigits(s: string) {
    forall i :: 0 <= i < |s| ==> IsDigit(s[i])
  }

  function DigitChar(d: nat): (c: char)
    requires d < 10
    ensures IsDigit(c) && c as int == '0' as int + d
  {
    ('0' as int + d) as char
  }

  function DigitValue(c: char): (d: nat)
    requires IsDigit(c)
    ensures d < 10
  {
    c as int - '0' as int
  }

  /**
   * `String(n)` for a non-negative integer: its decimal digits, most
   * significant first, with no leading zero.
   */
  function NatToDecimal(n: nat): (s: string)
    ensures |s| >= 1 && AllDigits(s)
    ensures |s| > 1 ==> s[0] != '0'
    ensures n < 10 <==> |s| == 1
    ensures s[0] == '0' <==> n == 0
  {
    if n < 10 then [DigitChar(n)] else NatToDecimal(n / 10) + [DigitChar(n % 10)]
  }

  /** The value of a string of decimal digits; leading zeros are allowed. */
  function ParseDecimal(s: string): nat
    requires AllDigits(s)
  {
    if s == [] then 0 else ParseDecimal(s[..|s| - 1]) * 10 + DigitValue(s[|s| - 1])
  }

  /** Reading the digits that `NatToDecimal` writes gives the number back. */
  lemma {:induction false} DecimalRoundTrip(n: nat)
    ensures ParseDecimal(NatToDecimal(n)) == n
  {
    if n >= 10 {
      var s := NatToDecimal(n / 10);
      var t := s + [DigitChar(n % 10)];
      assert t[..|t| - 1] == s;
      DecimalRoundTrip(n / 10);
    }
  }

  /** `String(year)`: a minus sign before the digits of a negative year, and no leading zero. */
  function IntToDecimal(i: int): (s: string)
    ensures |s| >= 1 && (s[0] == '-' <==> i < 0)
    ensures i < 0 ==> |s| >= 2 && IsDigit(s[1])
    ensures s[if i < 0 then 1 else 0] == '0' <==> i == 0
    ensures |s| > (if i < 0 then 2 else 1) ==> s[if i < 0 then 1 else 0] != '0'
  {
    if i < 0 then "-" + NatToDecimal(-i) else NatToDecimal(i)
  }

  /** Reads an optionally negative decimal integer; None on anything else. */
  function ParseInt(s: string): Option<int> {
    if |s| >= 2 && s[0] == '-' && AllDigits(s[1..]) then Some(-(ParseDecimal(s[1..]) as int))
    else if |s| >= 1 && AllDigits(s) then Some(ParseDecimal(s) as int)
    else None
  }

  lemma IntRoundTrip(i: int)
    ensures ParseInt(IntToDecimal(i)) == Some(i)
  {
    var s := IntToDecimal(i);
    if i < 0 {
      var d := NatToDecimal(-i);
      assert s == "-" + d;
      assert s[1..] == d;
      DecimalRoundTrip(-i);
    } else {
      assert IsDigit(s[0]);
      DecimalRoundTrip(i);
    }
  }

  /**
   * `s.padStart(width, fill)` with a one-character fill: copies of `fill`
   * before `s` until it is `width` characters long; a string that is already
   * long enough is returned as it is.
   */
  function PadStart(s: string, width: nat, fill: char): (r: string)
    ensures |r| == if |s| >= width then |s| else width
    ensures r[|r| - |s|..] == s
    ensures forall i :: 0 <= i < |r| - |s| ==> r[i] == fill
  {
    if |s| >= width then s else seq(width - |s|, _ => fill) + s
  }

  /**
   * Padding the decimal text of a month number (1 to 12) to width 2 with `0`
   * gives two digits, the first of them `0` or `1`.
   */
  lemma PadMonthNumber(n: nat)
    requires 1 <= n <= 12
    ensures var p := PadStart(NatToDecimal(n), 2, '0');
      |p| == 2 && (p[0] == '0' || p[0] == '1') && IsDigit(p[1])
  {
    var s := NatToDecimal(n);
    if n < 10 {
      assert PadStart(s, 2, '0') == ['0', s[0]];
    } else {
      assert s == NatToDecimal(1) + [DigitChar(n % 10)];
    }
  }

  /** `String(monthIndex + 1).padStart(2, '0')`. */
  function MonthPart(m: MonthIndex): (p: string)
    ensures |p| == 2 && (p[0] == '0' || p[0] == '1') && IsDigit(p[1])
  {
    PadMonthNumber(m + 1);
    PadStart(NatToDecimal(m + 1), 2, '0')
  }

  /** Where the pieces of `year + "-" + month` sit in the joined string. */
  lemma JoinedKey(y: string, p: string)
    requires |p| == 2
    ensures |y + "-" + p| == |y| + 3
    ensures (y + "-" + p)[|y|] == '-'
    ensures (y + "-" + p)[..|y|] == y
    ensures (y + "-" + p)[|y| + 1..] == p
  {
  }

  /**
   * The ledger's month key (lib/usage.ts:3): the year's decimal text, then
   * `-` at the third position from the end, then the two-character month part.
   */
  function MonthKey(year: int, m: MonthIndex): (key: string)
    ensures |key| >= 4 && key[|key| - 3] == '-'
    ensures key[..|key| - 3] == IntToDecimal(year)
    ensures key[|key| - 2..] == MonthPart(m)
  {
    var y, p := IntToDecimal(year), MonthPart(m);
    JoinedKey(y, p);
    y + "-" + p
  }

  /** The month part is always two digits whose value is the 1-based month. */
  lemma MonthPartShape(m: MonthIndex)
    ensures |MonthPart(m)| == 2 && AllDigits(MonthPart(m))
    ensures ParseDecimal(MonthPart(m)) == m + 1
  {
    var s := NatToDecimal(m + 1);
    DecimalRoundTrip(m + 1);
    if |s| == 1 {
      var p := MonthPart(m);
      assert p == ['0'] + s;
      assert p[..1] == ['0'];
    }
  }

  /** The two characters of a month part: `0` and the month for January to September, else `1` and the second digit. */
  lemma MonthPartDigits(m: MonthIndex)
    ensures MonthPart(m) == if m < 9 then ['0', DigitChar(m + 1)] else ['1', DigitChar(m - 9)]
  {
    var s := NatToDecimal(m + 1);
    if m < 9 {
      assert s == [DigitChar(m + 1)];
    } else {
      assert s == NatToDecimal(1) + [DigitChar(m - 9)];
    }
  }

  /** The twelve month parts, January to December, as written. */
  const MonthParts: seq<string> := ["01", "02", "03", "04", "05", "06", "07", "08", "09", "10", "11", "12"]

  /** Entry m of the written table in the closed form of `MonthPartDigits`. */
  lemma MonthPartsEntry(m: MonthIndex)
    ensures MonthParts[m] == if m < 9 then ['0', DigitChar(m + 1)] else ['1', DigitChar(m - 9)]
  {
  }

  /** The month part of index 0..11 is the written table's "01" to "12". */
  lemma MonthPartTable(m: MonthIndex)
    ensures MonthPart(m) == MonthParts[m]
  {
    MonthPartDigits(m);
    MonthPartsEntry(m);
  }

  /**
   * Splits a month key into its year and 0-based month index; None when the
   * text is not of the form `<integer>-<01..12>`.
   */
  function ParseMonthKey(key: string): Option<(int, MonthIndex)> {
    if |key| < 4 || key[|key| - 3] != '-' || !AllDigits(key[|key| - 2..]) then None
    else
      var month := ParseDecimal(key[|key| - 2..]);
      if month < 1 || 12 < month then None
      else match ParseInt(key[..|key| - 3])
        case None => None
        case Some(year) => Some((year, month - 1))
  }

  /** The key determines the year and the month it was made from. */
  lemma MonthKeyRoundTrip(year: int, m: MonthIndex)
    ensures ParseMonthKey(MonthKey(year, m)) == Some((year, m))
  {
    MonthPartShape(m);
    IntRoundTrip(year);
  }

  /** Two months share a key exactly when they are the same year and month. */
  lemma MonthKeyInjective(y1: int, m1: MonthIndex, y2: int, m2: MonthIndex)
    ensures MonthKey(y1, m1) == MonthKey(y2, m2) <==> y1 == y2 && m1 == m2
  {
    MonthKeyRoundTrip(y1, m1);
    MonthKeyRoundTrip(y2, m2);
  }
}
