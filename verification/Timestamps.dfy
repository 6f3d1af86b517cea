/** Stored instants are `datetime.isoformat` texts in UTC, compared as texts in SQL. This module shows that
    the text order is the time order, although the microsecond part is left out when it is zero. */
module Timestamps {
  import opened Text

  datatype Instant = Instant(year: int, month: int, day: int, hour: int, minute: int, second: int, micro: int)

  predicate Leap(y: int) {
    y % 4 == 0 && (y % 100 != 0 || y % 400 == 0)
  }

  function DaysInMonth(y: int, m: int): int {
    if m == 2 then (if Leap(y) then 29 else 28)
    else if m in {4, 6, 9, 11} then 30
    else 31
  }

  predicate Valid(t: Instant) {
    && 1 <= t.year <= 9999
    && 1 <= t.month <= 12
    && 1 <= t.day <= DaysInMonth(t.year, t.month)
    && 0 <= t.hour < 24
    && 0 <= t.minute < 60
    && 0 <= t.second < 60
    && 0 <= t.micro < 1_000_000
  }

  // ----- chronological order: microseconds on the proleptic Gregorian calendar -----

  function DaysBeforeMonth(y: int, m: int): int
    requires 1 <= m
    decreases m
  {
    if m == 1 then 0 else DaysBeforeMonth(y, m - 1) + DaysInMonth(y, m - 1)
  }

  function DaysBeforeYear(y: int): int
    requires 1 <= y
    decreases y
  {
    if y == 1 then 0 else DaysBeforeYear(y - 1) + (if Leap(y - 1) then 366 else 365)
  }

  function Micros(t: Instant): int
    requires 1 <= t.year && 1 <= t.month
  {
    var days := DaysBeforeYear(t.year) + DaysBeforeMonth(t.year, t.month) + t.day;
    (((days * 24 + t.hour) * 60 + t.minute) * 60 + t.second) * 1_000_000 + t.micro
  }

  // ----- the text -----

  function Pow10(k: nat): int {
    if k == 0 then 1 else 10 * Pow10(k - 1)
  }

  /** `n` in decimal, zero-padded to `k` digits. */
  function Digits(n: nat, k: nat): (r: Str)
    ensures |r| == k
  {
    if k == 0 then [] else Digits(n / 10, k - 1) + [48 + n % 10]
  }

  const OFFSET: Str := Codes("+00:00")

  function Fraction(micro: nat): Str {
    (if micro == 0 then [] else Codes(".") + Digits(micro, 6)) + OFFSET
  }

  function Iso(t: Instant): Str
    requires Valid(t)
  {
    Digits(t.year, 4) + (Codes("-") + (Digits(t.month, 2) + (Codes("-") + (Digits(t.day, 2) + (Codes("T")
    + (Digits(t.hour, 2) + (Codes(":") + (Digits(t.minute, 2) + (Codes(":") + (Digits(t.second, 2)
    + Fraction(t.micro)))))))))))
  }

  // ----- digits -----

  lemma {:induction false} DigitsOrder(a: nat, b: nat, k: nat)
    requires a < Pow10(k) && b < Pow10(k)
    ensures Less(Digits(a, k), Digits(b, k)) <==> a < b
    ensures Digits(a, k) == Digits(b, k) <==> a == b
    decreases k
  {
    if k > 0 {
      DigitsOrder(a / 10, b / 10, k - 1);
      LessByBlocks(Digits(a / 10, k - 1), [48 + a % 10], Digits(b / 10, k - 1), [48 + b % 10]);
      assert Digits(a, k)[..k - 1] == Digits(a / 10, k - 1) && Digits(b, k)[..k - 1] == Digits(b / 10, k - 1);
      assert Digits(a, k)[k - 1] == 48 + a % 10 && Digits(b, k)[k - 1] == 48 + b % 10;
    }
  }

  /** A fixed-width field decides first; equal fields leave the rest, after a common separator, to decide. */
  lemma Field(a: nat, b: nat, k: nat, sep: Str, x: Str, y: Str)
    requires a < Pow10(k) && b < Pow10(k)
    ensures Less(Digits(a, k) + (sep + x), Digits(b, k) + (sep + y)) <==> a < b || (a == b && Less(x, y))
  {
    DigitsOrder(a, b, k);
    LessByBlocks(Digits(a, k), sep + x, Digits(b, k), sep + y);
    LessByBlocks(sep, x, sep, y);
    LessIsStrict(sep, sep);
  }

  /** "+" sorts before ".", so an instant without a fraction precedes those with one. */
  lemma FractionOrder(a: nat, b: nat)
    requires a < 1_000_000 && b < 1_000_000
    ensures Less(Fraction(a), Fraction(b)) <==> a < b
  {
    LessIsStrict(OFFSET, OFFSET);
    if a > 0 && b > 0 {
      DigitsOrder(a, b, 6);
      assert Fraction(a) == Codes(".") + (Digits(a, 6) + OFFSET);
      assert Fraction(b) == Codes(".") + (Digits(b, 6) + OFFSET);
      LessByBlocks(Codes("."), Digits(a, 6) + OFFSET, Codes("."), Digits(b, 6) + OFFSET);
      LessIsStrict(Codes("."), Codes("."));
      LessByBlocks(Digits(a, 6), OFFSET, Digits(b, 6), OFFSET);
    } else {
      assert a > 0 ==> Fraction(a)[0] == 46;
      assert b > 0 ==> Fraction(b)[0] == 46;
      assert Fraction(0) == OFFSET && OFFSET[0] == 43;
    }
  }

  /** The number that a text of digits spells. */
  function Value(s: Str): int {
    if s == [] then 0 else Value(s[..|s| - 1]) * 10 + s[|s| - 1] - '0' as int
  }

  lemma {:induction false} DigitsAreRead(n: nat, k: nat)
    requires n < Pow10(k)
    ensures Value(Digits(n, k)) == n
    decreases k
  {
    if k > 0 {
      DigitsAreRead(n / 10, k - 1);
      assert Digits(n, k)[..k - 1] == Digits(n / 10, k - 1);
    }
  }

  lemma FieldIsRead(n: nat, k: nat, sep: CodePoint, rest: Str)
    requires n < Pow10(k)
    ensures var s := Digits(n, k) + ([sep] + rest);
      Value(s[..k]) == n && s[k] == sep && s[k + 1..] == rest
  {
    DigitsAreRead(n, k);
    assert (Digits(n, k) + ([sep] + rest))[..k] == Digits(n, k);
  }

  /** Two digits and a separator. */
  ghost predicate Spells(s: Str, i: nat, n: nat, k: nat, sep: CodePoint) {
    i + k < |s| && Value(s[i..i + k]) == n && s[i + k] == sep
  }

  lemma NextField(s: Str, i: nat, n: nat, sep: CodePoint, rest: Str)
    requires i <= |s| && s[i..] == Digits(n, 2) + ([sep] + rest) && n < 100
    ensures Spells(s, i, n, 2, sep) && s[i + 3..] == rest
  {
    FieldIsRead(n, 2, sep, rest);
    assert Pow10(2) == 100;
    assert s[i..][..2] == s[i..i + 2] && s[i..][2] == s[i + 2] && s[i..][3..] == s[i + 3..];
  }

  /** The text has the form YYYY-MM-DDTHH:MM:SS, then a point and six digits unless the microseconds are zero, then
      +00:00, and spells the fields of the instant. */
  lemma IsoSpells(t: Instant)
    requires Valid(t)
    ensures var s := Iso(t);
      && Spells(s, 0, t.year, 4, '-' as int) && Spells(s, 5, t.month, 2, '-' as int)
      && Spells(s, 8, t.day, 2, 'T' as int)
      && Spells(s, 11, t.hour, 2, ':' as int) && Spells(s, 14, t.minute, 2, ':' as int)
      && (t.micro == 0 ==> Spells(s, 17, t.second, 2, '+' as int) && s[19..] == Codes("+00:00"))
      && (t.micro != 0 ==>
            && Spells(s, 17, t.second, 2, '.' as int) && Spells(s, 20, t.micro, 6, '+' as int)
            && s[26..] == Codes("+00:00"))
  {
    var f := Fraction(t.micro);
    var s6 := Digits(t.second, 2) + f;
    var s5 := Digits(t.minute, 2) + ([':' as int] + s6);
    var s4 := Digits(t.hour, 2) + ([':' as int] + s5);
    var s3 := Digits(t.day, 2) + (['T' as int] + s4);
    var s2 := Digits(t.month, 2) + (['-' as int] + s3);
    var s := Iso(t);
    assert s == Digits(t.year, 4) + (['-' as int] + s2) by {
      assert Codes("-") == ['-' as int] && Codes(":") == [':' as int] && Codes("T") == ['T' as int];
    }
    TextSpells(s, t, s2, s3, s4, s5, s6, f);
    EndSpells(s, t);
  }

  lemma TextSpells(s: Str, t: Instant, s2: Str, s3: Str, s4: Str, s5: Str, s6: Str, f: Str)
    requires Valid(t)
    requires s == Digits(t.year, 4) + (['-' as int] + s2) && s2 == Digits(t.month, 2) + (['-' as int] + s3)
    requires s3 == Digits(t.day, 2) + (['T' as int] + s4) && s4 == Digits(t.hour, 2) + ([':' as int] + s5)
    requires s5 == Digits(t.minute, 2) + ([':' as int] + s6) && s6 == Digits(t.second, 2) + f
    ensures Spells(s, 0, t.year, 4, '-' as int) && Spells(s, 5, t.month, 2, '-' as int)
    ensures Spells(s, 8, t.day, 2, 'T' as int)
    ensures Spells(s, 11, t.hour, 2, ':' as int) && Spells(s, 14, t.minute, 2, ':' as int)
    ensures |s| == 19 + |f| && s[17..] == Digits(t.second, 2) + f
  {
    assert Pow10(4) == 10000;
    FieldIsRead(t.year, 4, '-' as int, s2);
    assert s[0..4] == s[..4];
    NextField(s, 5, t.month, '-' as int, s3);
    NextField(s, 8, t.day, 'T' as int, s4);
    NextField(s, 11, t.hour, ':' as int, s5);
    NextField(s, 14, t.minute, ':' as int, s6);
  }

  lemma EndSpells(s: Str, t: Instant)
    requires Valid(t) && |s| == 19 + |Fraction(t.micro)| && s[17..] == Digits(t.second, 2) + Fraction(t.micro)
    ensures t.micro == 0 ==> Spells(s, 17, t.second, 2, '+' as int) && s[19..] == Codes("+00:00")
    ensures t.micro != 0 ==>
      Spells(s, 17, t.second, 2, '.' as int) && Spells(s, 20, t.micro, 6, '+' as int) && s[26..] == Codes("+00:00")
  {
    var f := Fraction(t.micro);
    FractionSpells(t.micro);
    assert f == [f[0]] + f[1..];
    NextField(s, 17, t.second, f[0], f[1..]);
    assert s[19..] == f;
    if t.micro != 0 {
      assert s[20..26] == f[1..7] && s[26..] == f[7..] && s[26] == f[7];
    }
  }

  lemma FractionSpells(micro: nat)
    requires micro < 1_000_000
    ensures var f := Fraction(micro);
      && (micro == 0 ==> |f| == 6 && f[0] == '+' as int && f == Codes("+00:00"))
      && (micro != 0 ==>
            && |f| == 13 && f[0] == '.' as int && Value(f[1..7]) == micro && f[7] == '+' as int
            && f[7..] == Codes("+00:00"))
  {
    var f := Fraction(micro);
    assert OFFSET[0] == '+' as int;
    if micro == 0 {
      assert f == OFFSET;
    } else {
      assert Pow10(6) == 1_000_000 by {
        assert Pow10(3) == 1000;
      }
      DigitsAreRead(micro, 6);
      assert Codes(".") == ['.' as int];
      assert f == ['.' as int] + (Digits(micro, 6) + OFFSET);
      assert f[1..7] == Digits(micro, 6);
    }
  }

  // ----- fields -----

  /** Calendar order: year, then month, day, hour, minute, second and microsecond. */
  predicate Earlier(s: Instant, t: Instant) {
    || s.year < t.year
    || (s.year == t.year && (s.month < t.month
    || (s.month == t.month && (s.day < t.day
    || (s.day == t.day && (s.hour < t.hour
    || (s.hour == t.hour && (s.minute < t.minute
    || (s.minute == t.minute && (s.second < t.second
    || (s.second == t.second && s.micro < t.micro)))))))))))
  }

  lemma TextOrderIsFieldOrder(s: Instant, t: Instant)
    requires Valid(s) && Valid(t)
    ensures Less(Iso(s), Iso(t)) <==> Earlier(s, t)
  {
    var s6, t6 := Digits(s.second, 2) + Fraction(s.micro), Digits(t.second, 2) + Fraction(t.micro);
    var s5, t5 := Digits(s.minute, 2) + (Codes(":") + s6), Digits(t.minute, 2) + (Codes(":") + t6);
    var s4, t4 := Digits(s.hour, 2) + (Codes(":") + s5), Digits(t.hour, 2) + (Codes(":") + t5);
    var s3, t3 := Digits(s.day, 2) + (Codes("T") + s4), Digits(t.day, 2) + (Codes("T") + t4);
    var s2, t2 := Digits(s.month, 2) + (Codes("-") + s3), Digits(t.month, 2) + (Codes("-") + t3);
    FractionOrder(s.micro, t.micro);
    Field(s.second, t.second, 2, [], Fraction(s.micro), Fraction(t.micro));
    assert [] + Fraction(s.micro) == Fraction(s.micro) && [] + Fraction(t.micro) == Fraction(t.micro);
    Field(s.minute, t.minute, 2, Codes(":"), s6, t6);
    Field(s.hour, t.hour, 2, Codes(":"), s5, t5);
    Field(s.day, t.day, 2, Codes("T"), s4, t4);
    Field(s.month, t.month, 2, Codes("-"), s3, t3);
    Field(s.year, t.year, 4, Codes("-"), s2, t2);
  }

  lemma {:induction false} MonthsGrow(y: int, m: int, n: int)
    requires 1 <= m < n
    ensures DaysBeforeMonth(y, m) + DaysInMonth(y, m) <= DaysBeforeMonth(y, n)
    decreases n
  {
    if m < n - 1 {
      MonthsGrow(y, m, n - 1);
    }
  }

  lemma {:induction false} YearsGrow(y: int, z: int)
    requires 1 <= y < z
    ensures DaysBeforeYear(y) + (if Leap(y) then 366 else 365) <= DaysBeforeYear(z)
    decreases z
  {
    if y < z - 1 {
      YearsGrow(y, z - 1);
    }
  }

  lemma MonthsFitTheYear(y: int, m: int, d: int)
    requires 1 <= m <= 12 && 1 <= d <= DaysInMonth(y, m)
    ensures 1 <= DaysBeforeMonth(y, m) + d <= if Leap(y) then 366 else 365
  {
    assert DaysBeforeMonth(y, 12) + 31 == if Leap(y) then 366 else 365 by {
      assert DaysBeforeMonth(y, 4) == 31 + DaysInMonth(y, 2) + 31;
      assert DaysBeforeMonth(y, 8) == DaysBeforeMonth(y, 4) + 122;
      assert DaysBeforeMonth(y, 12) == DaysBeforeMonth(y, 8) + 122;
    }
    if m < 12 {
      MonthsGrow(y, m, 12);
    }
    if m > 1 {
      MonthsGrow(y, 1, m);
    }
  }

  lemma EarlierIsBefore(s: Instant, t: Instant)
    requires Valid(s) && Valid(t) && Earlier(s, t)
    ensures Micros(s) < Micros(t)
  {
    MonthsFitTheYear(s.year, s.month, s.day);
    MonthsFitTheYear(t.year, t.month, t.day);
    if s.year < t.year {
      YearsGrow(s.year, t.year);
    } else if s.month < t.month {
      MonthsGrow(s.year, s.month, t.month);
    }
  }

  /** For UTC instants the order of the texts is the chronological order, and equal texts are equal instants. */
  lemma TextOrderIsTimeOrder(s: Instant, t: Instant)
    requires Valid(s) && Valid(t)
    ensures Less(Iso(s), Iso(t)) <==> Micros(s) < Micros(t)
    ensures Iso(s) == Iso(t) <==> Micros(s) == Micros(t)
  {
    TextOrderIsFieldOrder(s, t);
    TextOrderIsFieldOrder(t, s);
    LessIsTotal(Iso(s), Iso(t));
    LessIsStrict(Iso(s), Iso(t));
    if Earlier(s, t) {
      EarlierIsBefore(s, t);
    } else if Earlier(t, s) {
      EarlierIsBefore(t, s);
    } else {
      assert s == t;
    }
  }
}
