/** The clock readings jbud formats when it saves an entry: one
    `datetime.now()` reading, held here as integer fields, and the strings
    derived from it with `isoformat()` and `strftime`. Fields are
    zero-padded decimal, so comparing the strings as Python does agrees
    with comparing the readings in time. */
module Clock {
  import opened Lex

  datatype Date = Date(year: int, month: int, day: int)

  datatype Timestamp = Timestamp(year: int, month: int, day: int,
                                 hour: int, minute: int, second: int, microsecond: int)

  function DateOf(t: Timestamp): Date
  {
    Date(t.year, t.month, t.day)
  }

  predicate IsLeapYear(y: int)
  {
    y % 4 == 0 && (y % 100 != 0 || y % 400 == 0)
  }

  function DaysInMonth(y: int, m: int): int
  {
    if m == 2 then (if IsLeapYear(y) then 29 else 28)
    else if m == 4 || m == 6 || m == 9 || m == 11 then 30
    else 31
  }

  /** The dates Python's `datetime.date` can hold. */
  predicate ValidDate(d: Date)
  {
    1 <= d.year <= 9999 && 1 <= d.month <= 12 && 1 <= d.day <= DaysInMonth(d.year, d.month)
  }

  predicate ValidTimestamp(t: Timestamp)
  {
    ValidDate(DateOf(t)) && 0 <= t.hour < 24 && 0 <= t.minute < 60 && 0 <= t.second < 60
    && 0 <= t.microsecond < 1000000
  }

  /** Earlier-or-same day. */
  predicate DateLe(a: Date, b: Date)
  {
    if a.year != b.year then a.year < b.year
    else if a.month != b.month then a.month < b.month
    else a.day <= b.day
  }

  /** Earlier-or-same instant, to the microsecond. */
  predicate ChronoLe(a: Timestamp, b: Timestamp)
  {
    if DateOf(a) != DateOf(b) then DateLe(DateOf(a), DateOf(b))
    else if a.hour != b.hour then a.hour < b.hour
    else if a.minute != b.minute then a.minute < b.minute
    else if a.second != b.second then a.second < b.second
    else a.microsecond <= b.microsecond
  }

  /** Same reading once the sub-second part is dropped. */
  predicate SameSecond(a: Timestamp, b: Timestamp)
  {
    DateOf(a) == DateOf(b) && a.hour == b.hour && a.minute == b.minute && a.second == b.second
  }

  function Pow10(w: nat): nat
  {
    if w == 0 then 1 else 10 * Pow10(w - 1)
  }

  function DigitChar(d: int): char
    requires 0 <= d <= 9
  {
    ('0' as int + d) as char
  }

  /** `'%0*d' % (w, n)` for an `n` of at most `w` digits. */
  function Pad(n: nat, w: nat): (r: string)
    requires n < Pow10(w)
    ensures |r| == w
  {
    if w == 0 then [] else Pad(n / 10, w - 1) + [DigitChar(n % 10)]
  }

  /** The number a string of decimal digits spells. */
  function DigitsValue(s: string): int
  {
    if s == [] then 0 else DigitsValue(s[..|s| - 1]) * 10 + (s[|s| - 1] as int - '0' as int)
  }

  lemma {:induction false} PadRoundTrip(n: nat, w: nat)
    requires n < Pow10(w)
    ensures DigitsValue(Pad(n, w)) == n
  {
    if w > 0 {
      var p := Pad(n / 10, w - 1);
      assert (p + [DigitChar(n % 10)])[..w - 1] == p;
      PadRoundTrip(n / 10, w - 1);
    }
  }

  lemma PadInjective(a: nat, b: nat, w: nat)
    requires a < Pow10(w) && b < Pow10(w)
    ensures Pad(a, w) == Pad(b, w) <==> a == b
  {
    PadRoundTrip(a, w);
    PadRoundTrip(b, w);
  }

  /** Same-width padded numbers compare as strings as they do as numbers. */
  lemma {:induction false} PadOrder(a: nat, b: nat, w: nat)
    requires a < Pow10(w) && b < Pow10(w)
    ensures LexLe(Pad(a, w), Pad(b, w)) <==> a <= b
  {
    if w > 0 {
      PadOrder(a / 10, b / 10, w - 1);
      PadInjective(a / 10, b / 10, w - 1);
      LexLeConcat(Pad(a / 10, w - 1), [DigitChar(a % 10)], Pad(b / 10, w - 1), [DigitChar(b % 10)]);
    }
  }

  /** A padded field followed by the rest of a string: the field decides
      unless it is equal, and then the rest does. */
  lemma PadThen(a: nat, b: nat, w: nat, s1: string, s2: string)
    requires a < Pow10(w) && b < Pow10(w)
    ensures LexLe(Pad(a, w) + s1, Pad(b, w) + s2) <==> a < b || (a == b && LexLe(s1, s2))
  {
    PadOrder(a, b, w);
    PadInjective(a, b, w);
    LexLeConcat(Pad(a, w), s1, Pad(b, w), s2);
  }

  /** A shared separator is skipped over. */
  lemma SepThen(c: char, s1: string, s2: string)
    ensures LexLe([c] + s1, [c] + s2) <==> LexLe(s1, s2)
  {
    assert ([c] + s1)[1..] == s1 && ([c] + s2)[1..] == s2;
  }

  /** `date.strftime('%Y-%m-%d')`, which is also `str(date)`. */
  function DateString(d: Date): (r: string)
    requires ValidDate(d)
    ensures |r| == 10 && r[4] == '-' && r[7] == '-'
  {
    Pad(d.year, 4) + ("-" + (Pad(d.month, 2) + ("-" + Pad(d.day, 2))))
  }

  /** `strftime('%H:%M')`. */
  function TimeString(t: Timestamp): (r: string)
    requires ValidTimestamp(t)
    ensures |r| == 5 && r[2] == ':'
  {
    Pad(t.hour, 2) + (":" + Pad(t.minute, 2))
  }

  /** The microsecond part of `isoformat()`: left out when it is zero. */
  function Fraction(us: int): (r: string)
    requires 0 <= us < 1000000
    ensures |r| == if us == 0 then 0 else 7
  {
    if us == 0 then "" else "." + Pad(us, 6)
  }

  /** `datetime.isoformat()`: `YYYY-MM-DDTHH:MM:SS`, then `.ffffff` unless
      the microseconds are zero. */
  function IsoFormat(t: Timestamp): (r: string)
    requires ValidTimestamp(t)
    ensures |r| == if t.microsecond == 0 then 19 else 26
  {
    DateString(DateOf(t)) + ("T" + HoursPart(t))
  }

  /** `HH:MM:SS[.ffffff]`, the part of `isoformat()` after the `T`. */
  function HoursPart(t: Timestamp): string
    requires ValidTimestamp(t)
  {
    Pad(t.hour, 2) + (":" + MinutesPart(t))
  }

  /** `MM:SS[.ffffff]`. */
  function MinutesPart(t: Timestamp): string
    requires ValidTimestamp(t)
  {
    Pad(t.minute, 2) + (":" + SecondsPart(t))
  }

  /** `SS[.ffffff]`. */
  function SecondsPart(t: Timestamp): string
    requires ValidTimestamp(t)
  {
    Pad(t.second, 2) + Fraction(t.microsecond)
  }

  /** The file name `save_journal_entry` writes to,
      `entry_{strftime('%Y%m%d_%H%M%S')}.json`. */
  function FileName(t: Timestamp): (r: string)
    requires ValidTimestamp(t)
    ensures |r| == 26 && r[..6] == "entry_" && r[21..] == ".json"
  {
    "entry_" + FileStamp(t) + ".json"
  }

  function FileStamp(t: Timestamp): (r: string)
    requires ValidTimestamp(t)
    ensures |r| == 15
  {
    Pad(t.year, 4) + (Pad(t.month, 2) + (Pad(t.day, 2) + ("_" + (Pad(t.hour, 2) + (Pad(t.minute, 2) + Pad(t.second, 2))))))
  }

  lemma DateStringThen(a: Date, b: Date, s1: string, s2: string)
    requires ValidDate(a) && ValidDate(b)
    ensures LexLe(DateString(a) + s1, DateString(b) + s2)
        <==> (a != b && DateLe(a, b)) || (a == b && LexLe(s1, s2))
  {
    var da, db := Pad(a.day, 2) + s1, Pad(b.day, 2) + s2;
    var ma, mb := Pad(a.month, 2) + ("-" + da), Pad(b.month, 2) + ("-" + db);
    assert DateString(a) + s1 == Pad(a.year, 4) + ("-" + ma);
    assert DateString(b) + s2 == Pad(b.year, 4) + ("-" + mb);
    PadThen(a.year, b.year, 4, "-" + ma, "-" + mb);
    SepThen('-', ma, mb);
    PadThen(a.month, b.month, 2, "-" + da, "-" + db);
    SepThen('-', da, db);
    PadThen(a.day, b.day, 2, s1, s2);
  }

  /** The date string reads back as the date: year, month and day are the
      numbers its three fields spell. */
  lemma DateStringRoundTrip(d: Date)
    requires ValidDate(d)
    ensures var r := DateString(d);
      DigitsValue(r[..4]) == d.year && DigitsValue(r[5..7]) == d.month && DigitsValue(r[8..]) == d.day
  {
    var r := DateString(d);
    assert r[..4] == Pad(d.year, 4);
    assert r[5..7] == Pad(d.month, 2);
    assert r[8..] == Pad(d.day, 2);
    PadRoundTrip(d.year, 4);
    PadRoundTrip(d.month, 2);
    PadRoundTrip(d.day, 2);
  }

  /** The time string reads back as the hour and minute. */
  lemma TimeStringRoundTrip(t: Timestamp)
    requires ValidTimestamp(t)
    ensures var r := TimeString(t); DigitsValue(r[..2]) == t.hour && DigitsValue(r[3..]) == t.minute
  {
    var r := TimeString(t);
    assert r[..2] == Pad(t.hour, 2);
    assert r[3..] == Pad(t.minute, 2);
    PadRoundTrip(t.hour, 2);
    PadRoundTrip(t.minute, 2);
  }

  /** The browse view's `date >= str(selected)` is chronological. */
  lemma DateStringOrder(a: Date, b: Date)
    requires ValidDate(a) && ValidDate(b)
    ensures LexLe(DateString(a), DateString(b)) <==> DateLe(a, b)
  {
    DateStringThen(a, b, [], []);
    assert DateString(a) + [] == DateString(a) && DateString(b) + [] == DateString(b);
  }

  lemma FractionOrder(a: int, b: int)
    requires 0 <= a < 1000000 && 0 <= b < 1000000
    ensures LexLe(Fraction(a), Fraction(b)) <==> a <= b
  {
    if a != 0 && b != 0 {
      SepThen('.', Pad(a, 6), Pad(b, 6));
      PadOrder(a, b, 6);
    }
  }

  lemma SecondsPartOrder(a: Timestamp, b: Timestamp)
    requires ValidTimestamp(a) && ValidTimestamp(b)
    ensures LexLe(SecondsPart(a), SecondsPart(b))
        <==> a.second < b.second || (a.second == b.second && a.microsecond <= b.microsecond)
  {
    PadThen(a.second, b.second, 2, Fraction(a.microsecond), Fraction(b.microsecond));
    FractionOrder(a.microsecond, b.microsecond);
  }

  lemma MinutesPartOrder(a: Timestamp, b: Timestamp)
    requires ValidTimestamp(a) && ValidTimestamp(b)
    ensures LexLe(MinutesPart(a), MinutesPart(b))
        <==> a.minute < b.minute || (a.minute == b.minute && LexLe(SecondsPart(a), SecondsPart(b)))
  {
    PadThen(a.minute, b.minute, 2, ":" + SecondsPart(a), ":" + SecondsPart(b));
    SepThen(':', SecondsPart(a), SecondsPart(b));
  }

  lemma HoursPartOrder(a: Timestamp, b: Timestamp)
    requires ValidTimestamp(a) && ValidTimestamp(b)
    ensures LexLe(HoursPart(a), HoursPart(b))
        <==> a.hour < b.hour || (a.hour == b.hour && LexLe(MinutesPart(a), MinutesPart(b)))
  {
    PadThen(a.hour, b.hour, 2, ":" + MinutesPart(a), ":" + MinutesPart(b));
    SepThen(':', MinutesPart(a), MinutesPart(b));
  }

  /** Sorting `isoformat()` strings sorts the readings in time: the
      omitted zero fraction sorts first, as a zero would. */
  lemma IsoFormatOrder(a: Timestamp, b: Timestamp)
    requires ValidTimestamp(a) && ValidTimestamp(b)
    ensures LexLe(IsoFormat(a), IsoFormat(b)) <==> ChronoLe(a, b)
  {
    DateStringThen(DateOf(a), DateOf(b), "T" + HoursPart(a), "T" + HoursPart(b));
    SepThen('T', HoursPart(a), HoursPart(b));
    HoursPartOrder(a, b);
    MinutesPartOrder(a, b);
    SecondsPartOrder(a, b);
  }

  /** Where each field sits in the file name's stamp. */
  lemma FileStampFields(t: Timestamp)
    requires ValidTimestamp(t)
    ensures FileStamp(t)[..4] == Pad(t.year, 4) && FileStamp(t)[4..6] == Pad(t.month, 2)
    ensures FileStamp(t)[6..8] == Pad(t.day, 2) && FileStamp(t)[9..11] == Pad(t.hour, 2)
    ensures FileStamp(t)[11..13] == Pad(t.minute, 2) && FileStamp(t)[13..] == Pad(t.second, 2)
  {
  }

  /** Two readings get the same file name exactly when they fall in the
      same second: a second save within one second writes the same file. */
  lemma FileNameIdentifiesSecond(a: Timestamp, b: Timestamp)
    requires ValidTimestamp(a) && ValidTimestamp(b)
    ensures FileName(a) == FileName(b) <==> SameSecond(a, b)
  {
    if FileName(a) == FileName(b) {
      assert FileStamp(a) == FileName(a)[6..21] && FileStamp(b) == FileName(b)[6..21];
      FileStampFields(a);
      FileStampFields(b);
      PadInjective(a.year, b.year, 4);
      PadInjective(a.month, b.month, 2);
      PadInjective(a.day, b.day, 2);
      PadInjective(a.hour, b.hour, 2);
      PadInjective(a.minute, b.minute, 2);
      PadInjective(a.second, b.second, 2);
    }
  }

  /** The stored `date` and `time` strings are the leading fields of the
      stored `timestamp` string: all three come from one reading. */
  lemma IsoFormatFields(t: Timestamp)
    requires ValidTimestamp(t)
    ensures IsoFormat(t)[..10] == DateString(DateOf(t))
    ensures IsoFormat(t)[10] == 'T'
    ensures IsoFormat(t)[11..16] == TimeString(t)
  {
    var rest := ":" + SecondsPart(t);
    assert HoursPart(t) == TimeString(t) + rest;
    assert IsoFormat(t) == DateString(DateOf(t)) + ("T" + (TimeString(t) + rest));
  }
}
