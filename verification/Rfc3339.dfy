/** Timestamps: Unix seconds as the UTC form of RFC 3339, section 5.6. */
module Rfc3339 {
  import opened Calendar
  import opened CivilDate
  import opened Decimal

  datatype Moment = Moment(date: Date, hour: int, minute: int, second: int)

  const SECONDS_PER_DAY := 86_400

  predicate ValidMoment(m: Moment) {
    Valid(m.date) && 0 <= m.hour < 24 && 0 <= m.minute < 60 && 0 <= m.second < 60
  }

  /** The moment of a second, counted from the epoch. */
  function MomentOf(secs: int): Moment {
    var days, rem := secs / SECONDS_PER_DAY, secs % SECONDS_PER_DAY;
    Moment(Civil(days), rem / 3600, rem % 3600 / 60, rem % 60)
  }

  function SecondsOf(m: Moment): int {
    DayNumber(m.date) * SECONDS_PER_DAY + m.hour * 3600 + m.minute * 60 + m.second
  }

  lemma MomentCounts(secs: int)
    ensures ValidMoment(MomentOf(secs)) && SecondsOf(MomentOf(secs)) == secs
  {
    CivilCounts(secs / SECONDS_PER_DAY);
    hide Civil, DayNumber, Valid;
    TimeOfDay(secs % SECONDS_PER_DAY);
  }

  lemma TimeOfDay(rem: int)
    requires 0 <= rem < SECONDS_PER_DAY
    ensures 0 <= rem / 3600 < 24 && 0 <= rem % 3600 / 60 < 60
    ensures rem / 3600 * 3600 + rem % 3600 / 60 * 60 + rem % 60 == rem
  {
    assert rem % 60 == rem % 3600 % 60;
  }

  lemma SplitSeconds(days: int, h: int, m: int, s: int)
    requires 0 <= h < 24 && 0 <= m < 60 && 0 <= s < 60
    ensures var secs := days * SECONDS_PER_DAY + h * 3600 + m * 60 + s;
            var rem := secs % SECONDS_PER_DAY;
            secs / SECONDS_PER_DAY == days && rem / 3600 == h && rem % 3600 / 60 == m && rem % 60 == s
  {
    var t := h * 3600 + m * 60 + s;
    QuotientIs(days, t, SECONDS_PER_DAY);
    QuotientIs(h, m * 60 + s, 3600);
    QuotientIs(m, s, 60);
    QuotientIs(h * 60 + m, s, 60);
  }

  lemma QuotientIs(q: int, r: int, n: int)
    requires 0 <= r < n && (n == 60 || n == 3600 || n == SECONDS_PER_DAY)
    ensures (q * n + r) / n == q && (q * n + r) % n == r
  {
  }

  /** Every valid moment is the moment of its second: none is skipped. */
  lemma MomentReaches(m: Moment)
    requires ValidMoment(m)
    ensures MomentOf(SecondsOf(m)) == m
  {
    CivilReachesEveryDate(m.date);
    hide Civil, DayNumber, Valid;
    SplitSeconds(DayNumber(m.date), m.hour, m.minute, m.second);
  }

  // ----- text

  function Zeros(n: nat): string { seq(n, _ => '0') }

  function Pad(n: nat, width: nat): string {
    var d := Digits(n);
    if |d| < width then Zeros(width - |d|) + d else d
  }

  /** A zero-padded field of width 4, where a sign counts. */
  function YearText(y: int): string {
    if y < 0 then "-" + Pad(-y, 3) else Pad(y, 4)
  }

  function Assemble(y: string, mo: string, d: string, h: string, mi: string, s: string): string {
    y + ("-" + (mo + ("-" + (d + ("T" + (h + (":" + (mi + (":" + (s + "Z"))))))))))
  }

  /** A non-negative field of two digits; the calendar never gives another. */
  function Two(n: int): string {
    Pad(if n < 0 then 0 else n, 2)
  }

  function Text(m: Moment): string {
    Assemble(YearText(m.date.year), Two(m.date.month), Two(m.date.day), Two(m.hour), Two(m.minute), Two(m.second))
  }

  function FormatRfc3339(secs: int): string {
    Text(MomentOf(secs))
  }

  // ----- the grammar of RFC 3339, and reading it back

  /** Four digits, then pairs of digits between the fixed separators. */
  predicate HasFields(s: string) {
    && |s| == 20 && s[4] == s[7] == '-' && s[10] == 'T' && s[13] == s[16] == ':' && s[19] == 'Z'
    && AllDigits(s[0..4]) && AllDigits(s[5..7]) && AllDigits(s[8..10])
    && AllDigits(s[11..13]) && AllDigits(s[14..16]) && AllDigits(s[17..19])
  }

  function ReadMoment(s: string): Moment
    requires HasFields(s)
  {
    Moment(Date(Value(s[0..4]), Value(s[5..7]), Value(s[8..10])),
           Value(s[11..13]), Value(s[14..16]), Value(s[17..19]))
  }

  /** A `date-time` in UTC without a fraction of a second. */
  predicate IsUtcTimestamp(s: string) {
    HasFields(s) && ValidMoment(ReadMoment(s))
  }

  // ----- padding

  lemma {:induction false} ZerosValue(k: nat, s: string)
    requires AllDigits(s)
    ensures AllDigits(Zeros(k) + s) && Value(Zeros(k) + s) == Value(s)
    decreases k + |s|
  {
    var t := Zeros(k) + s;
    if s != [] {
      assert t[..|t| - 1] == Zeros(k) + s[..|s| - 1];
      ZerosValue(k, s[..|s| - 1]);
    } else if k > 0 {
      assert t[..|t| - 1] == Zeros(k - 1) + s;
      ZerosValue(k - 1, s);
    }
  }

  lemma PadReads(n: nat, width: nat)
    requires width > 0
    ensures AllDigits(Pad(n, width)) && Value(Pad(n, width)) == n
    ensures |Pad(n, width)| == width <==> n < PowerOfTen(width)
    ensures |Pad(n, width)| >= width
  {
    DigitsValue(n);
    DigitsLength(n, width);
    var d := Digits(n);
    if |d| < width {
      ZerosValue(width - |d|, d);
    }
  }

  lemma SmallPowers()
    ensures PowerOfTen(2) == 100 && PowerOfTen(4) == 10_000
  {
    assert PowerOfTen(2) == 10 * PowerOfTen(1) && PowerOfTen(3) == 10 * PowerOfTen(2);
  }

  // ----- the text of a moment

  /** A piece of a text, and the text from its end on. */
  lemma PieceAt(t: string, i: nat, piece: string, rest: string)
    requires i <= |t| && t[i..] == piece + rest
    ensures i + |piece| <= |t| && t[i..i + |piece|] == piece && t[i + |piece|..] == rest
  {
    assert t[i..][..|piece|] == piece && t[i..][|piece|..] == rest;
  }

  lemma SeparatorAt(t: string, i: nat, c: char, rest: string)
    requires i <= |t| && t[i..] == [c] + rest
    ensures i < |t| && t[i] == c && t[i + 1..] == rest
  {
    assert t[i..][0] == c && t[i..][1..] == rest;
  }

  lemma FieldsOf(y: string, mo: string, d: string, h: string, mi: string, s: string)
    requires |y| == 4 && |mo| == |d| == |h| == |mi| == |s| == 2
    ensures var t := Assemble(y, mo, d, h, mi, s);
            && |t| == 20 && t[4] == t[7] == '-' && t[10] == 'T' && t[13] == t[16] == ':' && t[19] == 'Z'
            && t[0..4] == y && t[5..7] == mo && t[8..10] == d
            && t[11..13] == h && t[14..16] == mi && t[17..19] == s
  {
    var t17 := s + "Z";
    var t14 := mi + (":" + t17);
    var t11 := h + (":" + t14);
    var t8 := d + ("T" + t11);
    var t5 := mo + ("-" + t8);
    var t := y + ("-" + t5);
    assert t == Assemble(y, mo, d, h, mi, s);
    hide Assemble;
    PieceAt(t, 0, y, "-" + t5);
    SeparatorAt(t, 4, '-', t5);
    PieceAt(t, 5, mo, "-" + t8);
    SeparatorAt(t, 7, '-', t8);
    PieceAt(t, 8, d, "T" + t11);
    SeparatorAt(t, 10, 'T', t11);
    PieceAt(t, 11, h, ":" + t14);
    SeparatorAt(t, 13, ':', t14);
    PieceAt(t, 14, mi, ":" + t17);
    SeparatorAt(t, 16, ':', t17);
    PieceAt(t, 17, s, "Z");
  }

  lemma TwoReads(n: int)
    requires 0 <= n < 100
    ensures |Two(n)| == 2 && AllDigits(Two(n)) && Value(Two(n)) == n
  {
    PadReads(n, 2);
    SmallPowers();
  }

  lemma DaysFitTwoDigits(m: Moment)
    requires ValidMoment(m)
    ensures 0 < m.date.month < 100 && 0 < m.date.day < 100
  {
  }

  lemma TextReads(m: Moment)
    requires ValidMoment(m) && 0 <= m.date.year < 10_000
    ensures HasFields(Text(m)) && ReadMoment(Text(m)) == m
  {
    DaysFitTwoDigits(m);
    PadReads(m.date.year, 4);
    SmallPowers();
    TwoReads(m.date.month);
    TwoReads(m.date.day);
    hide Valid, Pad, Two, Assemble, Value, AllDigits, PowerOfTen;
    TwoReads(m.hour);
    TwoReads(m.minute);
    TwoReads(m.second);
    FieldsOf(YearText(m.date.year), Two(m.date.month), Two(m.date.day), Two(m.hour), Two(m.minute), Two(m.second));
  }

  lemma LongYearBreaks(m: Moment)
    requires !(0 <= m.date.year < 10_000)
    ensures !HasFields(Text(m))
  {
    var y := YearText(m.date.year);
    hide Two, Pad;
    if m.date.year < 0 {
      assert Text(m)[0] == '-';
      assert HasFields(Text(m)) ==> IsDigit(Text(m)[0..4][0]);
    } else {
      PadReads(m.date.year, 4);
      SmallPowers();
      assert Text(m)[4] == y[4];
    }
  }

  // ----- which seconds have a four-digit year

  lemma YearBounds(days: int)
    ensures 0 <= Civil(days).year <==> -719_528 <= days
    ensures Civil(days).year < 10_000 <==> days < 2_932_897
  {
    hide Civil, DayNumber;
    var first, after := Date(0, 1, 1), Date(10_000, 1, 1);
    FirstDays();
    CivilReachesEveryDate(first);
    CivilReachesEveryDate(after);
    YearCut(days, first, -719_528);
    YearCut(days, after, 2_932_897);
  }

  lemma FirstDays()
    ensures DayNumber(Date(0, 1, 1)) == -719_528 && DayNumber(Date(10_000, 1, 1)) == 2_932_897
  {
    hide DaysBefore;
    DaysBeforeInEra(399, -1);
    DaysBeforeInEra(399, 24);
    assert YearStart(399) == 145_731 && MonthStart(10) == 306;
  }

  lemma YearCut(days: int, d: Date, n: int)
    requires Civil(n) == d && d.month == d.day == 1
    ensures d.year <= Civil(days).year <==> n <= days
  {
    hide Civil, DayNumber;
    CivilCounts(days);
    if days < n {
      CivilOrdered(days, n);
    } else if n < days {
      CivilOrdered(n, days);
    }
  }

  /** The text is a timestamp of RFC 3339 exactly from year 0 to year 9999, and
    * then reading it gives back the second it was made from.
    */
  lemma FormatExactlyWhen(secs: int)
    ensures IsUtcTimestamp(FormatRfc3339(secs)) <==> -62_167_219_200 <= secs < 253_402_300_800
    ensures IsUtcTimestamp(FormatRfc3339(secs)) ==> SecondsOf(ReadMoment(FormatRfc3339(secs))) == secs
  {
    MomentCounts(secs);
    YearBounds(secs / SECONDS_PER_DAY);
    var m := MomentOf(secs);
    assert m.date == Civil(secs / SECONDS_PER_DAY);
    hide MomentOf, SecondsOf, Text, HasFields, ValidMoment, Civil;
    if 0 <= m.date.year < 10_000 {
      TextReads(m);
    } else {
      LongYearBreaks(m);
    }
  }
}
