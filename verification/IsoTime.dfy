/** The texts that `isoformat` prints for datetimes in UTC. */
module IsoTime {
  import opened Prelude

  predicate DigitsAt(t: Text, i: nat, n: nat) {
    i + n <= |t| && forall j | i <= j < i + n :: 0x30 <= t[j] <= 0x39
  }

  function Two(t: Text, i: nat): int
    requires i + 2 <= |t|
  {
    (t[i] as int - 0x30) * 10 + (t[i + 1] as int - 0x30)
  }

  function DaysIn(year: int, month: int): int {
    if month in {4, 6, 9, 11} then 30
    else if month != 2 then 31
    else if year % 4 == 0 && (year % 100 != 0 || year % 400 == 0) then 29
    else 28
  }

  /** What `isoformat` prints for a datetime in UTC: microseconds only if there are any. */
  predicate IsIso(t: Text) {
    && (|t| == 25
        || (|t| == 32 && t[19] == '.' as int && DigitsAt(t, 20, 6) && exists j | 20 <= j < 26 :: t[j] != 0x30))
    && DigitsAt(t, 0, 4) && DigitsAt(t, 5, 2) && DigitsAt(t, 8, 2)
    && DigitsAt(t, 11, 2) && DigitsAt(t, 14, 2) && DigitsAt(t, 17, 2)
    && t[4] == '-' as int && t[7] == '-' as int && t[10] == 'T' as int && t[13] == ':' as int && t[16] == ':' as int
    && t[|t| - 6..] == ['+' as int, 0x30, 0x30, ':' as int, 0x30, 0x30]
    && var year := Two(t, 0) * 100 + Two(t, 2);
    && 1 <= year && 1 <= Two(t, 5) <= 12 && 1 <= Two(t, 8) <= DaysIn(year, Two(t, 5))
    && Two(t, 11) < 24 && Two(t, 14) < 60 && Two(t, 17) < 60
  }

  /** 1970-01-01T00:00:00+00:00 */
  const EPOCH: Text := [0x31, 0x39, 0x37, 0x30, 0x2D, 0x30, 0x31, 0x2D, 0x30, 0x31, 0x54, 0x30, 0x30, 0x3A, 0x30, 0x30,
                        0x3A, 0x30, 0x30, 0x2B, 0x30, 0x30, 0x3A, 0x30, 0x30]

  type Iso = t: Text | IsIso(t) witness EPOCH

  /** The Gregorian calendar, by the lengths of the months. */
  lemma CalendarExactly(year: int, month: int)
    requires 1 <= month <= 12
    ensures DaysIn(year, month) == 31 <==> month in {1, 3, 5, 7, 8, 10, 12}
    ensures DaysIn(year, month) == 30 <==> month in {4, 6, 9, 11}
    ensures DaysIn(year, month) == 28 <==> month == 2 && (year % 4 != 0 || (year % 100 == 0 && year % 400 != 0))
    ensures DaysIn(year, month) in {28, 29, 30, 31}
  {
  }

  // ----- Those texts are the printed datetimes -----

  /** Year, month, day, time of day and microsecond. */
  datatype Civil = Civil(year: int, month: int, day: int, hour: int, minute: int, second: int, micro: int)

  predicate IsCivil(c: Civil) {
    && 1 <= c.year <= 9999 && 1 <= c.month <= 12 && 1 <= c.day <= DaysIn(c.year, c.month)
    && 0 <= c.hour < 24 && 0 <= c.minute < 60 && 0 <= c.second < 60 && 0 <= c.micro < 1000000
  }

  /** The last `k` decimal digits of a number. */
  function Digits(n: nat, k: nat): (t: Text)
    ensures |t| == k && forall i :: 0 <= i < k ==> 0x30 <= t[i] <= 0x39
  {
    if k == 0 then [] else Digits(n / 10, k - 1) + [0x30 + n % 10]
  }

  const ZONE: Text := ['+' as int, 0x30, 0x30, ':' as int, 0x30, 0x30]

  function Date(c: Civil): (t: Text)
    requires IsCivil(c)
    ensures |t| == 10
  {
    Digits(c.year, 4) + ['-' as int] + Digits(c.month, 2) + ['-' as int] + Digits(c.day, 2)
  }

  function Time(c: Civil): (t: Text)
    requires IsCivil(c)
    ensures |t| == 8
  {
    Digits(c.hour, 2) + [':' as int] + Digits(c.minute, 2) + [':' as int] + Digits(c.second, 2)
  }

  function Fraction(c: Civil): Text
    requires IsCivil(c)
  {
    if c.micro == 0 then [] else ['.' as int] + Digits(c.micro, 6)
  }

  /** `isoformat` of a datetime in UTC. */
  function Printed(c: Civil): Text
    requires IsCivil(c)
  {
    Date(c) + ['T' as int] + Time(c) + Fraction(c) + ZONE
  }

  function ValueAt(t: Text, i: nat, k: nat): int
    requires i + k <= |t|
  {
    if k == 0 then 0 else ValueAt(t, i, k - 1) * 10 + (t[i + k - 1] as int - 0x30)
  }

  lemma {:induction false} DigitsOfValue(t: Text, i: nat, k: nat)
    requires DigitsAt(t, i, k)
    ensures ValueAt(t, i, k) >= 0 && Digits(ValueAt(t, i, k), k) == t[i..i + k]
  {
    if k > 0 {
      DigitsOfValue(t, i, k - 1);
      var last := t[i + k - 1] as int - 0x30;
      assert ValueAt(t, i, k) / 10 == ValueAt(t, i, k - 1) && ValueAt(t, i, k) % 10 == last;
      assert t[i..i + k] == t[i..i + k - 1] + [t[i + k - 1]];
    }
  }

  function Power10(k: nat): nat { if k == 0 then 1 else 10 * Power10(k - 1) }

  lemma {:induction false} ValueOfDigits(t: Text, i: nat, n: nat, k: nat)
    requires i + k <= |t| && t[i..i + k] == Digits(n, k) && n < Power10(k)
    ensures DigitsAt(t, i, k) && ValueAt(t, i, k) == n
  {
    forall j | i <= j < i + k ensures 0x30 <= t[j] <= 0x39 {
      assert t[j] == t[i..i + k][j - i];
    }
    if k > 0 {
      assert t[i..i + k - 1] == t[i..i + k][..k - 1];
      assert t[i + k - 1] == t[i..i + k][k - 1];
      ValueOfDigits(t, i, n / 10, k - 1);
    }
  }

  lemma ValueOfTwo(t: Text, i: nat)
    requires i + 2 <= |t|
    ensures ValueAt(t, i, 2) == Two(t, i)
  {
    assert ValueAt(t, i, 1) == t[i] as int - 0x30;
  }

  lemma ValueOfFour(t: Text, i: nat)
    requires i + 4 <= |t|
    ensures ValueAt(t, i, 4) == Two(t, i) * 100 + Two(t, i + 2)
  {
    ValueOfTwo(t, i);
    assert ValueAt(t, i, 3) == ValueAt(t, i, 2) * 10 + (t[i + 2] as int - 0x30);
  }

  lemma {:induction false} ZeroDigits(t: Text, i: nat, k: nat)
    requires DigitsAt(t, i, k)
    ensures ValueAt(t, i, k) == 0 <==> forall j :: i <= j < i + k ==> t[j] == 0x30
    ensures 0 <= ValueAt(t, i, k) < Power10(k)
  {
    if k > 0 {
      ZeroDigits(t, i, k - 1);
    }
  }

  /** A text is one of them exactly if it is what some datetime is printed as. */
  lemma IsoExactly(t: Text)
    ensures IsIso(t) <==> exists c :: IsCivil(c) && Printed(c) == t
  {
    if IsIso(t) {
      var c := CivilOf(t);
    }
    if c :| IsCivil(c) && Printed(c) == t {
      PrintedIsIso(c);
    }
  }

  lemma CivilOf(t: Text) returns (c: Civil)
    requires IsIso(t)
    ensures IsCivil(c) && Printed(c) == t
  {
    hide Digits, ValueAt, DigitsAt, Two, DaysIn, Power10;
    PowersOfTen();
    var micro := if |t| == 25 then 0 else ValueAt(t, 20, 6);
    c := Civil(ValueAt(t, 0, 4), Two(t, 5), Two(t, 8), Two(t, 11), Two(t, 14), Two(t, 17), micro);
    ValueOfFour(t, 0);
    TwoDigits(t, 5);
    TwoDigits(t, 8);
    TwoDigits(t, 11);
    TwoDigits(t, 14);
    TwoDigits(t, 17);
    DigitsOfValue(t, 0, 4);
    ZeroDigits(t, 0, 4);
    if |t| == 32 {
      DigitsOfValue(t, 20, 6);
      ZeroDigits(t, 20, 6);
    }
    Parts(t, c);
  }

  lemma PowersOfTen()
    ensures Power10(2) == 100 && Power10(4) == 10000 && Power10(6) == 1000000
  {
    assert Power10(1) == 10 && Power10(3) == 1000 && Power10(5) == 100000;
  }

  lemma TwoDigits(t: Text, i: nat)
    requires DigitsAt(t, i, 2)
    ensures 0 <= Two(t, i) <= 99 && Digits(Two(t, i), 2) == t[i..i + 2]
  {
    ValueOfTwo(t, i);
    DigitsOfValue(t, i, 2);
  }

  lemma Parts(t: Text, c: Civil)
    requires IsCivil(c) && (|t| == 25 || |t| == 32) && (c.micro == 0 <==> |t| == 25)
    requires Digits(c.year, 4) == t[0..4] && Digits(c.month, 2) == t[5..7] && Digits(c.day, 2) == t[8..10]
    requires Digits(c.hour, 2) == t[11..13] && Digits(c.minute, 2) == t[14..16] && Digits(c.second, 2) == t[17..19]
    requires |t| == 32 ==> t[19] == '.' as int && Digits(c.micro, 6) == t[20..26]
    requires t[4] == '-' as int && t[7] == '-' as int && t[10] == 'T' as int && t[13] == ':' as int
    requires t[16] == ':' as int && t[|t| - 6..] == ZONE
    ensures Printed(c) == t
  {
    hide Digits, DaysIn;
    assert Date(c) == t[..10];
    assert Time(c) == t[11..19];
    assert Fraction(c) == t[19..|t| - 6];
    hide Date, Time, Fraction;
    assert t == t[..10] + [t[10]] + t[11..19] + t[19..|t| - 6] + t[|t| - 6..];
  }

  lemma PrintedIsIso(c: Civil)
    requires IsCivil(c)
    ensures IsIso(Printed(c))
  {
    hide Digits, ValueAt, DigitsAt, Two, Printed, Power10;
    PowersOfTen();
    var t := Printed(c);
    PrintedParts(c);
    ValueOfDigits(t, 0, c.year, 4);
    ValueOfDigits(t, 5, c.month, 2);
    ValueOfDigits(t, 8, c.day, 2);
    ValueOfDigits(t, 11, c.hour, 2);
    ValueOfDigits(t, 14, c.minute, 2);
    ValueOfDigits(t, 17, c.second, 2);
    ValueOfFour(t, 0);
    ValueOfTwo(t, 5);
    ValueOfTwo(t, 8);
    ValueOfTwo(t, 11);
    ValueOfTwo(t, 14);
    ValueOfTwo(t, 17);
    if c.micro != 0 {
      ValueOfDigits(t, 20, c.micro, 6);
      ZeroDigits(t, 20, 6);
    }
  }

  lemma PrintedParts(c: Civil)
    requires IsCivil(c)
    ensures var t := Printed(c);
      && |t| == (if c.micro == 0 then 25 else 32)
      && Digits(c.year, 4) == t[0..4] && Digits(c.month, 2) == t[5..7] && Digits(c.day, 2) == t[8..10]
      && Digits(c.hour, 2) == t[11..13] && Digits(c.minute, 2) == t[14..16] && Digits(c.second, 2) == t[17..19]
      && (c.micro != 0 ==> t[19] == '.' as int && Digits(c.micro, 6) == t[20..26])
      && t[4] == '-' as int && t[7] == '-' as int && t[10] == 'T' as int && t[13] == ':' as int
      && t[16] == ':' as int && t[|t| - 6..] == ZONE
  {
    hide Digits, DaysIn, IsCivil, Date, Time, Fraction, ZONE;
    DateParts(c);
    TimeParts(c);
    var d, u, f := Date(c), Time(c), Fraction(c) + ZONE;
    FractionParts(c, f);
    var rest := u + f;
    var tail := ['T' as int] + rest;
    var t := d + tail;
    assert Printed(c) == t by { Joined3(d, u, Fraction(c), ZONE); }
    hide Printed;
    InFront(d, tail, 0, 4);
    InFront(d, tail, 5, 7);
    InFront(d, tail, 8, 10);
    ThreeParts(d, 'T' as int, u, f);
  }

  lemma Joined3(d: Text, u: Text, f: Text, z: Text)
    ensures d + ['T' as int] + u + f + z == d + (['T' as int] + (u + (f + z)))
  {
  }

  lemma InFront(a: Text, b: Text, i: nat, j: nat)
    requires i <= j <= |a|
    ensures (a + b)[i..j] == a[i..j]
  {
  }

  /** Ten characters, one, eight and the rest. */
  lemma ThreeParts(d: Text, c: Rune, u: Text, f: Text)
    requires |d| == 10 && |u| == 8 && |f| >= 6
    ensures var t := d + ([c] + (u + f));
      && |t| == 19 + |f| && t[10] == c
      && (forall i, j :: 0 <= i <= j <= 8 ==> t[11 + i..11 + j] == u[i..j])
      && (forall i, j :: 0 <= i <= j <= |f| ==> t[19 + i..19 + j] == f[i..j])
      && (forall i :: 0 <= i < 10 ==> t[i] == d[i])
      && (forall i :: 0 <= i < 8 ==> t[11 + i] == u[i]) && (forall i :: 0 <= i < |f| ==> t[19 + i] == f[i])
  {
  }

  lemma FractionParts(c: Civil, t: Text)
    requires IsCivil(c) && t == Fraction(c) + ZONE
    ensures |t| == (if c.micro == 0 then 6 else 13) && t[|t| - 6..] == ZONE
    ensures c.micro != 0 ==> t[0] == '.' as int && t[1..7] == Digits(c.micro, 6)
  {
    hide Digits, DaysIn;
  }

  lemma DateParts(c: Civil)
    requires IsCivil(c)
    ensures var d := Date(c);
      && d[0..4] == Digits(c.year, 4) && d[5..7] == Digits(c.month, 2) && d[8..10] == Digits(c.day, 2)
      && d[4] == '-' as int && d[7] == '-' as int
  {
    hide Digits, DaysIn;
  }

  lemma TimeParts(c: Civil)
    requires IsCivil(c)
    ensures var d := Time(c);
      && d[0..2] == Digits(c.hour, 2) && d[3..5] == Digits(c.minute, 2) && d[6..8] == Digits(c.second, 2)
      && d[2] == ':' as int && d[5] == ':' as int
  {
    hide Digits, DaysIn;
  }
}
