/** UTC instants in RFC 3339 notation with nanoseconds, as Go's `time.RFC3339Nano` prints them. */
module Timestamps {
  import opened Text

  datatype Timestamp = Timestamp(
    year: int, month: nat, day: nat, hour: nat, minute: nat, second: nat, nanos: nat)

  predicate ValidTimestamp(t: Timestamp) {
    1 <= t.month <= 12 && 1 <= t.day <= 31 && t.hour < 24 && t.minute < 60 && t.second < 60 && t.nanos < 1_000_000_000
  }

  function PowerOfTen(w: nat): (p: nat)
    ensures p > 0
  {
    if w == 0 then 1 else 10 * PowerOfTen(w - 1)
  }

  /** The last `w` digits of `n`. */
  function Padded(n: nat, w: nat): (s: string)
    ensures |s| == w && AllDigits(s)
  {
    if w == 0 then "" else Padded(n / 10, w - 1) + [DigitChar(n % 10)]
  }

  lemma {:induction false} ValueOfPadded(n: nat, w: nat)
    requires n < PowerOfTen(w)
    ensures Value(Padded(n, w)) == n
  {
    if w > 0 {
      assert Padded(n, w)[..w - 1] == Padded(n / 10, w - 1);
      ValueOfPadded(n / 10, w - 1);
    }
  }

  function TrimZeros(s: string): string {
    if s != "" && s[|s| - 1] == '0' then TrimZeros(s[..|s| - 1]) else s
  }

  /** At least four digits, and a sign only for years before year 0. */
  function PrintYear(year: int): string {
    var n: nat := if year < 0 then -year else year;
    (if year < 0 then "-" else "") + if n < 10000 then Padded(n, 4) else Digits(n)
  }

  function PrintFraction(nanos: nat): string {
    if nanos == 0 then "" else "." + TrimZeros(Padded(nanos, 9))
  }

  /** Everything between the year and the fraction: always fifteen characters. */
  function PrintMiddle(t: Timestamp): (s: string)
    ensures |s| == 15
  {
    "-" + Padded(t.month, 2) + "-" + Padded(t.day, 2) + "T"
    + Padded(t.hour, 2) + ":" + Padded(t.minute, 2) + ":" + Padded(t.second, 2)
  }

  /** All but the final `Z`. */
  function PrintLocal(t: Timestamp): string {
    PrintYear(t.year) + (PrintMiddle(t) + PrintFraction(t.nanos))
  }

  function PrintTimestamp(t: Timestamp): string {
    PrintLocal(t) + "Z"
  }

  lemma TwoDigits(n: nat)
    requires n < 100
    ensures Padded(n, 2) == [DigitChar(n / 10), DigitChar(n % 10)]
  {
    hide DigitChar;
    OneDigit(n / 10);
  }

  lemma OneDigit(n: nat)
    requires n < 10
    ensures Padded(n, 1) == [DigitChar(n)]
  {
    hide DigitChar;
    assert Padded(0, 0) == "" && n / 10 == 0 && n % 10 == n;
  }

  lemma SmallDigits()
    ensures DigitChar(0) == '0' && DigitChar(1) == '1' && DigitChar(2) == '2' && DigitChar(3) == '3'
    ensures DigitChar(4) == '4' && DigitChar(5) == '5' && DigitChar(6) == '6'
  {
  }

  lemma Year2026()
    ensures PrintYear(2026) == "2026"
  {
    SmallDigits();
    TwoDigits(20);
    assert Padded(202, 3) == Padded(20, 2) + ['2'];
    assert Padded(2026, 4) == Padded(202, 3) + ['6'];
  }

  lemma {:induction false} PaddedTimesTen(n: nat, w: nat)
    ensures Padded(10 * n, w + 1) == Padded(n, w) + "0"
  {
    assert 10 * n / 10 == n && 10 * n % 10 == 0 && DigitChar(0) == '0';
  }

  /** Zeros at the end of a fraction are not written. */
  lemma {:induction false} TrailingZeroIsDropped(n: nat, w: nat)
    ensures TrimZeros(Padded(10 * n, w + 1)) == TrimZeros(Padded(n, w))
  {
    PaddedTimesTen(n, w);
    var s := Padded(n, w);
    hide Padded;
    assert (s + "0")[..|s|] == s;
  }

  lemma SixHundredths()
    ensures PrintFraction(60_000_000) == ".06"
  {
    hide Padded, TrimZeros;
    TrailingZeroIsDropped(6_000_000, 8);
    TrailingZeroIsDropped(600_000, 7);
    TrailingZeroIsDropped(60_000, 6);
    TrailingZeroIsDropped(6000, 5);
    TrailingZeroIsDropped(600, 4);
    TrailingZeroIsDropped(60, 3);
    TrailingZeroIsDropped(6, 2);
    TwoDigits(6);
    SmallDigits();
    NoZeroAtEnd();
    hide PowerOfTen;
  }

  lemma NoZeroAtEnd()
    ensures TrimZeros(['0', '6']) == ['0', '6']
  {
  }

  /** The form of an instant, with trailing zeros of the fraction dropped, and with it the dot. */
  lemma TimestampExamples()
    ensures PrintTimestamp(Timestamp(2026, 1, 2, 13, 4, 5, 60_000_000)) == "2026-01-02T13:04:05.06Z"
    ensures PrintTimestamp(Timestamp(2026, 1, 2, 13, 4, 5, 0)) == "2026-01-02T13:04:05Z"
  {
    Year2026();
    SixHundredths();
    assert PrintFraction(0) == "";
    hide PrintFraction, PrintYear;
    MiddleExample(Timestamp(2026, 1, 2, 13, 4, 5, 60_000_000));
    MiddleExample(Timestamp(2026, 1, 2, 13, 4, 5, 0));
    hide PrintMiddle;
    ExampleTexts();
  }

  lemma ExampleTexts()
    ensures "2026" + ("-01-02T13:04:05" + ".06") + "Z" == "2026-01-02T13:04:05.06Z"
    ensures "2026" + ("-01-02T13:04:05" + "") + "Z" == "2026-01-02T13:04:05Z"
  {
  }

  lemma MiddleExample(t: Timestamp)
    requires t.month == 1 && t.day == 2 && t.hour == 13 && t.minute == 4 && t.second == 5
    ensures PrintMiddle(t) == "-01-02T13:04:05"
  {
    SmallDigits();
    TwoDigits(1);
    TwoDigits(2);
    TwoDigits(13);
    TwoDigits(4);
    TwoDigits(5);
    hide Padded, DigitChar;
  }

  // ------------------------------------------------------------ no two alike

  lemma {:induction false} TrimmedZerosAreZeros(s: string, u: string)
    requires |s| == |u| && TrimZeros(s) == TrimZeros(u)
    ensures s == u
  {
    TrimmedPrefix(s);
    TrimmedPrefix(u);
    assert s == s[..|TrimZeros(s)|] + s[|TrimZeros(s)|..];
    assert u == u[..|TrimZeros(s)|] + u[|TrimZeros(s)|..];
    assert s[|TrimZeros(s)|..] == u[|TrimZeros(s)|..];
  }

  lemma {:induction false} TrimmedPrefix(s: string)
    ensures TrimZeros(s) <= s
    ensures forall k :: |TrimZeros(s)| <= k < |s| ==> s[k] == '0'
  {
    if s != "" && s[|s| - 1] == '0' {
      TrimmedPrefix(s[..|s| - 1]);
    }
  }

  lemma PaddedInjective(m: nat, n: nat, w: nat)
    requires m < PowerOfTen(w) && n < PowerOfTen(w) && Padded(m, w) == Padded(n, w)
    ensures m == n
  {
    ValueOfPadded(m, w);
    ValueOfPadded(n, w);
  }

  lemma FractionInjective(m: nat, n: nat)
    requires m < 1_000_000_000 && n < 1_000_000_000 && PrintFraction(m) == PrintFraction(n)
    ensures m == n
  {
    if m != 0 && n != 0 {
      assert PrintFraction(m)[1..] == TrimZeros(Padded(m, 9)) && PrintFraction(n)[1..] == TrimZeros(Padded(n, 9));
      TrimmedZerosAreZeros(Padded(m, 9), Padded(n, 9));
      TensOf(9);
      PaddedInjective(m, n, 9);
    }
  }

  lemma TensOf(w: nat)
    requires w == 2 || w == 4 || w == 9
    ensures PowerOfTen(2) == 100 && PowerOfTen(4) == 10000 && PowerOfTen(9) == 1_000_000_000
  {
    assert PowerOfTen(3) == 1000 && PowerOfTen(6) == 1000 * PowerOfTen(3) && PowerOfTen(9) == 1000 * PowerOfTen(6);
  }

  lemma MiddleInjective(t: Timestamp, u: Timestamp)
    requires ValidTimestamp(t) && ValidTimestamp(u) && PrintMiddle(t) == PrintMiddle(u)
    ensures t.month == u.month && t.day == u.day && t.hour == u.hour && t.minute == u.minute && t.second == u.second
  {
    hide Padded;
    MiddleParts(t);
    MiddleParts(u);
    TensOf(2);
    PaddedInjective(t.month, u.month, 2);
    PaddedInjective(t.day, u.day, 2);
    PaddedInjective(t.hour, u.hour, 2);
    PaddedInjective(t.minute, u.minute, 2);
    PaddedInjective(t.second, u.second, 2);
  }

  lemma MiddleParts(t: Timestamp)
    ensures var s := PrintMiddle(t);
            && s[0] == '-' && s[1..3] == Padded(t.month, 2) && s[4..6] == Padded(t.day, 2)
            && s[7..9] == Padded(t.hour, 2) && s[10..12] == Padded(t.minute, 2) && s[13..15] == Padded(t.second, 2)
  {
    hide Padded;
  }

  /** The digits of a year, whichever way they are printed. */
  lemma YearDigits(n: nat)
    ensures var s := if n < 10000 then Padded(n, 4) else Digits(n);
            s != "" && AllDigits(s) && Value(s) == n
  {
    TensOf(4);
    ValueOfDigits(n);
    if n < 10000 { ValueOfPadded(n, 4); }
  }

  /** The year ends at the first dash that is not its sign. */
  lemma YearInjective(y: int, z: int, a: string, b: string)
    requires PrintYear(y) + a == PrintYear(z) + b
    requires a != "" && a[0] == '-' && b != "" && b[0] == '-'
    ensures y == z && a == b
  {
    var c, d := YearBody(y), YearBody(z);
    YearParts(y, a);
    YearParts(z, b);
    hide PrintYear, YearBody;
    var s := PrintYear(y) + a;
    var u := if s[0] == '-' then s[1..] else s;
    DashEndsDigits(c, a);
    DashEndsDigits(d, b);
    assert u == c + a && u == d + b;
    assert |c| == |d| && c == d && a == b;
  }

  function YearBody(year: int): string {
    var n: nat := if year < 0 then -year else year;
    if n < 10000 then Padded(n, 4) else Digits(n)
  }

  lemma YearParts(y: int, a: string)
    ensures var c, s := YearBody(y), PrintYear(y) + a;
            && c != "" && AllDigits(c) && Value(c) == (if y < 0 then -y else y)
            && s != "" && ((s[0] == '-') <==> y < 0)
            && c + a == if s[0] == '-' then s[1..] else s
  {
    YearDigits(if y < 0 then -y else y);
    var c := YearBody(y);
    hide Padded, Digits;
    assert IsDigit(c[0]);
    if y < 0 {
      assert PrintYear(y) + a == ['-'] + (c + a);
    } else {
      assert PrintYear(y) == c;
    }
  }

  lemma DashEndsDigits(digits: string, rest: string)
    requires AllDigits(digits) && rest != "" && rest[0] == '-'
    ensures IndexOf(digits + rest, '-') == |digits|
    ensures (digits + rest)[..|digits|] == digits && (digits + rest)[|digits|..] == rest
  {
    FirstIndex(digits + rest, '-', |digits|);
  }

  /** Different instants print differently. */
  lemma TimestampInjective(t: Timestamp, u: Timestamp)
    requires ValidTimestamp(t) && ValidTimestamp(u) && PrintLocal(t) == PrintLocal(u)
    ensures t == u
  {
    hide PrintMiddle, PrintFraction, PrintYear;
    MiddleParts(t);
    MiddleParts(u);
    var a, b := PrintMiddle(t) + PrintFraction(t.nanos), PrintMiddle(u) + PrintFraction(u.nanos);
    YearInjective(t.year, u.year, a, b);
    assert a[..15] == PrintMiddle(t) && b[..15] == PrintMiddle(u);
    assert a[15..] == PrintFraction(t.nanos) && b[15..] == PrintFraction(u.nanos);
    MiddleInjective(t, u);
    FractionInjective(t.nanos, u.nanos);
  }

  /** Although it is full of colons, a timestamp has its only `Z` at the end. */
  lemma NoInnerZ(t: Timestamp)
    ensures 'Z' !in PrintLocal(t)
  {
    var n: nat := if t.year < 0 then -t.year else t.year;
    YearDigits(n);
    DigitsHaveNoZ(if n < 10000 then Padded(n, 4) else Digits(n));
    MiddleHasNoZ(t);
    TrimmedPrefix(Padded(t.nanos, 9));
    DigitsHaveNoZ(Padded(t.nanos, 9));
    hide Padded, Digits, PrintMiddle;
  }

  lemma DigitsHaveNoZ(s: string)
    requires AllDigits(s)
    ensures 'Z' !in s
  {
  }

  lemma MiddleHasNoZ(t: Timestamp)
    ensures 'Z' !in PrintMiddle(t)
  {
    DigitsHaveNoZ(Padded(t.month, 2));
    DigitsHaveNoZ(Padded(t.day, 2));
    DigitsHaveNoZ(Padded(t.hour, 2));
    DigitsHaveNoZ(Padded(t.minute, 2));
    DigitsHaveNoZ(Padded(t.second, 2));
    hide Padded;
  }
}
