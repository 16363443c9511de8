/** The year-to-date sweep split into calendar months. */
module MonthChunks {
  import Numerals

  datatype Date = Date(year: int, month: nat, day: nat)

  predicate IsLeap(year: int) { year % 4 == 0 && (year % 100 != 0 || year % 400 == 0) }

  function DaysIn(year: int, month: nat): (n: nat)
    requires 1 <= month <= 12
    ensures 28 <= n <= 31
  {
    if month == 2 then (if IsLeap(year) then 29 else 28)
    else if month in {4, 6, 9, 11} then 30
    else 31
  }

  predicate ValidDate(d: Date)
  {
    1 <= d.month <= 12 && 1 <= d.day <= DaysIn(d.year, d.month)
  }

  predicate OnOrBefore(a: Date, b: Date)
  {
    a.year < b.year || (a.year == b.year && (a.month < b.month || (a.month == b.month && a.day <= b.day)))
  }

  function NextDay(d: Date): (n: Date)
    requires ValidDate(d)
    ensures ValidDate(n)
  {
    if d.day < DaysIn(d.year, d.month) then d.(day := d.day + 1)
    else if d.month < 12 then Date(d.year, d.month + 1, 1)
    else Date(d.year + 1, 1, 1)
  }

  /** `checked_sub` of one day. */
  function PreviousDay(d: Date): (p: Date)
    requires ValidDate(d)
    ensures ValidDate(p) && NextDay(p) == d
  {
    if d.day > 1 then d.(day := d.day - 1)
    else if d.month > 1 then Date(d.year, d.month - 1, DaysIn(d.year, d.month - 1))
    else Date(d.year - 1, 12, 31)
  }

  /** The day of the year, counted one day at a time from 1 January. */
  function DayOfYear(d: Date): nat
    requires ValidDate(d)
    decreases d.month, d.day
  {
    if d.month == 1 && d.day == 1 then 1 else DayOfYear(PreviousDay(d)) + 1
  }

  // ----- the date strings -----

  /** The days the program's calendar has. */
  predicate InCalendar(d: Date) { ValidDate(d) && -9999 <= d.year <= 9999 }

  function Pad2(n: nat): (s: string)
    requires n < 100
    ensures |s| == 2 && Numerals.AllDigits(s)
  {
    [Numerals.Digit(n / 10), Numerals.Digit(n % 10)]
  }

  lemma Pad2Value(n: nat)
    requires n < 100
    ensures Numerals.Value(Pad2(n)) == n
  {
    Numerals.ValueOfTwo(Pad2(n));
  }

  /** `[year]-[month]-[day]`; a year before year 0 carries a minus sign. */
  function Format(d: Date): (s: string)
    requires InCalendar(d)
    ensures |s| == if d.year < 0 then 11 else 10
  {
    (if d.year < 0 then "-" else "") + Unsigned(if d.year < 0 then -d.year else d.year, d.month, d.day)
  }

  function Unsigned(year: nat, month: nat, day: nat): (s: string)
    requires year <= 9999 && month < 100 && day < 100
    ensures |s| == 10
  {
    Pad2(year / 100) + Pad2(year % 100) + ['-'] + Pad2(month) + ['-'] + Pad2(day)
  }

  lemma UnsignedParts(year: nat, month: nat, day: nat)
    requires year <= 9999 && month < 100 && day < 100
    ensures var s := Unsigned(year, month, day);
      && s[0..2] == Pad2(year / 100) && s[2..4] == Pad2(year % 100) && s[5..7] == Pad2(month) && s[8..10] == Pad2(day)
      && s[4] == '-' && s[7] == '-'
  {
    hide Pad2;
    Slices(Pad2(year / 100), Pad2(year % 100), Pad2(month), Pad2(day));
  }

  lemma Slices(a: string, b: string, c: string, d: string)
    requires |a| == |b| == |c| == |d| == 2
    ensures var s := a + b + ['-'] + c + ['-'] + d;
      s[0..2] == a && s[2..4] == b && s[5..7] == c && s[8..10] == d && s[4] == '-' && s[7] == '-'
  {
    var s := a + b + ['-'] + c + ['-'] + d;
    assert s[0] == a[0] && s[1] == a[1] && s[2] == b[0] && s[3] == b[1];
    assert s[5] == c[0] && s[6] == c[1] && s[8] == d[0] && s[9] == d[1];
  }

  /** What the string spells: the year in four digits, a minus sign before it when it is before
      year 0, the month and the day in two. */
  lemma FormatReads(d: Date)
    requires ValidDate(d) && -9999 <= d.year <= 9999
    ensures var s := Format(d);
      var t := if d.year < 0 then s[1..] else s;
      && (d.year < 0 ==> s[0] == '-')
      && |t| == 10 && t[4] == '-' && t[7] == '-'
      && Numerals.AllDigits(t[..4]) && Numerals.AllDigits(t[5..7]) && Numerals.AllDigits(t[8..])
      && Numerals.Value(t[..4]) == (if d.year < 0 then -d.year else d.year)
      && Numerals.Value(t[5..7]) == d.month && Numerals.Value(t[8..]) == d.day
  {
    hide Unsigned;
    var s, year := Format(d), if d.year < 0 then -d.year else d.year;
    var t := if d.year < 0 then s[1..] else s;
    assert t == Unsigned(year, d.month, d.day);
    UnsignedReads(year, d.month, d.day);
  }

  lemma UnsignedReads(year: nat, month: nat, day: nat)
    requires year <= 9999 && month < 100 && day < 100
    ensures var t := Unsigned(year, month, day);
      && t[4] == '-' && t[7] == '-'
      && Numerals.AllDigits(t[..4]) && Numerals.AllDigits(t[5..7]) && Numerals.AllDigits(t[8..])
      && Numerals.Value(t[..4]) == year && Numerals.Value(t[5..7]) == month && Numerals.Value(t[8..]) == day
  {
    hide Numerals.Value, Pad2, Unsigned;
    var t := Unsigned(year, month, day);
    UnsignedParts(year, month, day);
    Pad2Value(year / 100);
    Pad2Value(year % 100);
    Pad2Value(month);
    Pad2Value(day);
    assert t[..4][..2] == t[0..2] && t[..4][2..] == t[2..4] && t[8..] == t[8..10];
    assert t[..4] == t[0..2] + t[2..4];
    FourDigits(t[..4]);
  }

  /** Different days are asked for with different strings. */
  lemma FormatInjective(a: Date, b: Date)
    requires InCalendar(a) && InCalendar(b) && Format(a) == Format(b)
    ensures a == b
  {
    hide Format, Numerals.Value;
    FormatReads(a);
    FormatReads(b);
  }

  /** `is_canonical_iso_date`: the shape, then a date the calendar has. */
  predicate IsCanonicalDate(s: string)
  {
    && |s| == 10 && s[4] == '-' && s[7] == '-'
    && Numerals.AllDigits(s[..4]) && Numerals.AllDigits(s[5..7]) && Numerals.AllDigits(s[8..])
    && ValidDate(Date(Numerals.Value(s[..4]), Numerals.Value(s[5..7]), Numerals.Value(s[8..])))
  }

  lemma TwoDigits(s: string)
    requires |s| == 2 && Numerals.AllDigits(s)
    ensures Numerals.Value(s) < 100 && Pad2(Numerals.Value(s)) == s
  {
    var hi, lo := s[0] as int - '0' as int, s[1] as int - '0' as int;
    Numerals.ValueOfTwo(s);
    assert Numerals.Digit(hi) == s[0] && Numerals.Digit(lo) == s[1];
    assert s == [s[0], s[1]];
  }

  lemma FourDigits(s: string)
    requires |s| == 4 && Numerals.AllDigits(s)
    ensures Numerals.AllDigits(s[..2]) && Numerals.AllDigits(s[2..])
    ensures Numerals.Value(s) == Numerals.Value(s[..2]) * 100 + Numerals.Value(s[2..])
  {
    var three := s[..3];
    assert three == s[..|s| - 1] && three[..|three| - 1] == s[..2];
    Numerals.ValueOfTwo(s[2..]);
  }

  /** The canonical strings are exactly the formatted days of the years 0 to 9999. */
  lemma CanonicalDates(s: string)
    ensures IsCanonicalDate(s) <==> exists d: Date :: InCalendar(d) && d.year >= 0 && Format(d) == s
  {
    if IsCanonicalDate(s) {
      CanonicalIsFormatted(s);
    }
    if d: Date :| InCalendar(d) && d.year >= 0 && Format(d) == s {
      FormattedIsCanonical(d);
    }
  }

  lemma CanonicalIsFormatted(s: string)
    requires IsCanonicalDate(s)
    ensures exists d: Date :: InCalendar(d) && d.year >= 0 && Format(d) == s
  {
    hide Numerals.Value, Pad2;
    var d := Date(Numerals.Value(s[..4]), Numerals.Value(s[5..7]), Numerals.Value(s[8..]));
    FourDigits(s[..4]);
    TwoDigits(s[..4][..2]);
    TwoDigits(s[..4][2..]);
    TwoDigits(s[5..7]);
    TwoDigits(s[8..]);
    assert s == s[..4][..2] + s[..4][2..] + ['-'] + s[5..7] + ['-'] + s[8..];
    assert Format(d) == s;
  }

  lemma FormattedIsCanonical(d: Date)
    requires InCalendar(d) && d.year >= 0
    ensures IsCanonicalDate(Format(d))
  {
    hide Numerals.Value, Format;
    FormatReads(d);
  }

  // ----- the chunks -----

  /** Where month `month` of the year of `today` starts, and where the sweep of it ends. */
  function Chunk(today: Date, month: nat): (Date, Date)
    requires ValidDate(today) && 1 <= month <= today.month
  {
    (Date(today.year, month, 1),
     if month < today.month then Date(today.year, month, DaysIn(today.year, month)) else today)
  }

  ghost predicate AreChunks(chunks: seq<(Date, Date)>, today: Date)
    requires ValidDate(today)
  {
    |chunks| == today.month && forall i :: 0 <= i < today.month ==> chunks[i] == Chunk(today, i + 1)
  }

  function ChunksOf(today: Date): (chunks: seq<(Date, Date)>)
    requires ValidDate(today)
    ensures AreChunks(chunks, today)
  {
    seq(today.month, i requires 0 <= i < today.month => Chunk(today, i + 1))
  }

  method YearToDateMonthChunks(today: Date) returns (texts: seq<(string, string)>)
    requires ValidDate(today) && -9999 <= today.year <= 9999
    ensures |texts| == today.month
    ensures forall i :: 0 <= i < today.month ==>
      && texts[i].0 == Format(Date(today.year, i + 1, 1))
      && texts[i].1 == Format(if i + 1 < today.month then Date(today.year, i + 1, DaysIn(today.year, i + 1)) else today)
    ensures forall i :: 0 <= i < today.month ==>
      var (first, last) := ChunksOf(today)[i]; texts[i] == (Format(first), Format(last))
  {
    hide Format, NextDay;
    texts := [];
    var month := 1;
    while month <= today.month
      invariant 1 <= month <= today.month + 1 && |texts| == month - 1
      invariant forall i :: 0 <= i < |texts| ==>
        var (first, last) := Chunk(today, i + 1); texts[i] == (Format(first), Format(last))
    {
      var first := Date(today.year, month, 1);
      var lastOfMonth := if month == 12 then Date(today.year, 12, 31) else PreviousDay(Date(today.year, month + 1, 1));
      var chunkEnd := if !OnOrBefore(lastOfMonth, today) then today else lastOfMonth;
      assert month == today.month && OnOrBefore(lastOfMonth, today) ==> lastOfMonth == today;
      texts := texts + [(Format(first), Format(chunkEnd))];
      month := month + 1;
    }
  }

  /** The chunks run from 1 January to today without a gap or an overlap, each inside one month. */
  lemma ChunksAreConsecutive(chunks: seq<(Date, Date)>, today: Date)
    requires ValidDate(today) && AreChunks(chunks, today)
    ensures chunks != [] && chunks[0].0 == Date(today.year, 1, 1) && chunks[|chunks| - 1].1 == today
    ensures forall i :: 0 <= i < |chunks| ==>
      ValidDate(chunks[i].0) && ValidDate(chunks[i].1) && OnOrBefore(chunks[i].0, chunks[i].1)
      && chunks[i].0.year == chunks[i].1.year && chunks[i].0.month == chunks[i].1.month
    ensures forall i :: 0 < i < |chunks| ==> NextDay(chunks[i - 1].1) == chunks[i].0
  {
  }

  /** Every day of the year up to today is in exactly one chunk, and no other day is in any. */
  lemma ChunksPartitionTheYear(chunks: seq<(Date, Date)>, today: Date, d: Date)
    requires ValidDate(today) && AreChunks(chunks, today) && ValidDate(d)
    ensures var inYear := d.year == today.year && OnOrBefore(d, today);
      && (inYear ==> d.month <= |chunks|)
      && forall i :: 0 <= i < |chunks| ==>
           (OnOrBefore(chunks[i].0, d) && OnOrBefore(d, chunks[i].1) <==> inYear && i == d.month - 1)
  {
  }

  // ----- day counts -----

  /** The days from `from` to `to`, both included, within one year. */
  function Days(from: Date, to: Date): int
    requires ValidDate(from) && ValidDate(to)
  {
    DayOfYear(to) - DayOfYear(from) + 1
  }

  function TotalDays(chunks: seq<(Date, Date)>): int
    requires forall i :: 0 <= i < |chunks| ==> ValidDate(chunks[i].0) && ValidDate(chunks[i].1)
  {
    if chunks == [] then 0
    else TotalDays(chunks[..|chunks| - 1]) + Days(chunks[|chunks| - 1].0, chunks[|chunks| - 1].1)
  }

  lemma {:induction false} DayWithinMonth(d: Date)
    requires ValidDate(d)
    ensures DayOfYear(d) == DayOfYear(Date(d.year, d.month, 1)) + d.day - 1
    decreases d.day
  {
    if d.day == 1 {
    } else {
      DayWithinMonth(PreviousDay(d));
    }
  }

  lemma {:induction false} TotalUpTo(chunks: seq<(Date, Date)>, today: Date, n: nat)
    requires ValidDate(today) && AreChunks(chunks, today) && 1 <= n <= |chunks|
    requires forall i :: 0 <= i < |chunks| ==> ValidDate(chunks[i].0) && ValidDate(chunks[i].1)
    ensures TotalDays(chunks[..n]) == DayOfYear(chunks[n - 1].1)
  {
    assert chunks[..n][..n - 1] == chunks[..n - 1];
    ChunksAreConsecutive(chunks, today);
    if n == 1 {
      assert chunks[..0] == [];
    } else {
      TotalUpTo(chunks, today, n - 1);
      assert PreviousDay(chunks[n - 1].0) == chunks[n - 2].1;
    }
  }

  /** No chunk is longer than 31 days, and together they count the days of the year so far. */
  lemma ChunkDays(chunks: seq<(Date, Date)>, today: Date)
    requires ValidDate(today) && AreChunks(chunks, today)
    ensures forall i :: 0 <= i < |chunks| ==> ValidDate(chunks[i].0) && ValidDate(chunks[i].1)
    ensures forall i :: 0 <= i < |chunks| ==> 1 <= Days(chunks[i].0, chunks[i].1) <= 31
    ensures TotalDays(chunks) == DayOfYear(today)
  {
    ChunksAreConsecutive(chunks, today);
    forall i | 0 <= i < |chunks|
      ensures 1 <= Days(chunks[i].0, chunks[i].1) <= 31
    {
      DayWithinMonth(chunks[i].1);
      assert chunks[i].0 == Date(chunks[i].1.year, chunks[i].1.month, 1);
    }
    TotalUpTo(chunks, today, |chunks|);
    assert chunks[..|chunks|] == chunks;
  }

  /** The day count of the Gregorian calendar. */
  lemma {:induction false} DayCounted(d: Date)
    requires ValidDate(d)
    ensures DayOfYear(d) == [0, 31, 59, 90, 120, 151, 181, 212, 243, 273, 304, 334][d.month - 1] + d.day
      + if d.month > 2 && (d.year % 400 == 0 || (d.year % 4 == 0 && d.year % 100 != 0)) then 1 else 0
  {
    hide DayOfYear;
    MonthStart(d.year, d.month);
    DayWithinMonth(d);
  }

  /** A full year's sweep covers 365 days, or 366 in a leap year. */
  lemma FullYear(year: int)
    ensures DayOfYear(Date(year, 12, 31)) ==
      if year % 400 == 0 || (year % 4 == 0 && year % 100 != 0) then 366 else 365
  {
    DayCounted(Date(year, 12, 31));
  }

  lemma {:induction false} MonthStart(year: int, month: nat)
    requires 1 <= month <= 12
    ensures DayOfYear(Date(year, month, 1)) ==
      [0, 31, 59, 90, 120, 151, 181, 212, 243, 273, 304, 334][month - 1] + 1
      + if month > 2 && IsLeap(year) then 1 else 0
  {
    if month == 1 {
    } else {
      MonthStart(year, month - 1);
      DayWithinMonth(Date(year, month - 1, DaysIn(year, month - 1)));
      assert PreviousDay(Date(year, month, 1)) == Date(year, month - 1, DaysIn(year, month - 1));
    }
  }
}
