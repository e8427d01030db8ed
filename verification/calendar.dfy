/**
 The calendar features of a row, derived from its UTC timestamp on the
 proleptic Gregorian calendar: day of week (Monday is 1), hour of day and
 month.
 */
module Calendar {
  import opened Wrappers
  import opened Frame
  import Window

  const Day: int := 86_400_000_000

  const DayOfWeekColumn: Column := "day_of_week"
  const HourColumn: Column := "hour"
  const MonthColumn: Column := "month"

  datatype Date = Date(year: int, month: int, day: int)

  /** The hour of the day, 0 to 23. */
  function HourOfDay(t: int): (r: int)
    ensures 0 <= r < 24
    ensures t == (t / Day) * Day + r * Window.Hour + t % Window.Hour
  {
    (t % Day) / Window.Hour
  }

  /** `dt.dayofweek + 1`: Monday is 1 and Sunday is 7; 1 January 1970 was a Thursday. */
  function DayOfWeek(t: int): (r: int)
    ensures 1 <= r <= 7
  {
    (t / Day + 3) % 7 + 1
  }

  /**
   A day number split into a 400-year era that starts on 1 March, a century
   within it, a four-year block within that, a year within the block and a
   day within that March-based year.
   */
  datatype Split = Split(era: int, century: int, block: int, year: int, dayOfYear: int)

  function Decompose(z: int): (s: Split)
    ensures 0 <= s.century <= 3 && 0 <= s.block <= 24 && 0 <= s.year <= 3 && 0 <= s.dayOfYear <= 365
    ensures z + 719468 == s.era * 146097 + s.century * 36524 + s.block * 1461 + s.year * 365 + s.dayOfYear
  {
    var n := z + 719468;
    var era := n / 146097;
    var doe := n - era * 146097;
    var c := if doe / 36524 == 4 then 3 else doe / 36524;
    var doc := doe - c * 36524;
    var q := doc / 1461;
    var doq := doc - q * 1461;
    var y := if doq / 365 == 4 then 3 else doq / 365;
    Split(era, c, q, y, doq - y * 365)
  }

  /** The month of the March-based year, 0 (March) to 11 (February), holding day `doy`. */
  function MarchMonth(doy: int): (mp: int)
    requires 0 <= doy <= 365
    ensures 0 <= mp <= 11
    ensures 0 <= doy - (153 * mp + 2) / 5 <= 30
  {
    (5 * doy + 2) / 153
  }

  /** The civil date of the day `z` days after 1 January 1970. */
  function CivilFromDays(z: int): (d: Date)
    ensures 1 <= d.month <= 12
    ensures 1 <= d.day <= 31
  {
    var s := Decompose(z);
    var mp := MarchMonth(s.dayOfYear);
    var month := if mp < 10 then mp + 3 else mp - 9;
    var year := s.era * 400 + s.century * 100 + s.block * 4 + s.year;
    Date(year + (if month <= 2 then 1 else 0), month, s.dayOfYear - (153 * mp + 2) / 5 + 1)
  }

  /** The number of days from 1 January 1970 to a civil date. */
  function DaysFromCivil(d: Date): int {
    var y := d.year - (if d.month <= 2 then 1 else 0);
    var era := y / 400;
    var yoe := y - era * 400;
    var mp := if d.month > 2 then d.month - 3 else d.month + 9;
    var doy := (153 * mp + 2) / 5 + d.day - 1;
    var doe := yoe * 365 + yoe / 4 - yoe / 100 + doy;
    era * 146097 + doe - 719468
  }

  /** Every day number maps to a date that maps back to the same day number. */
  lemma CivilRoundTrip(z: int)
    ensures DaysFromCivil(CivilFromDays(z)) == z
  {
    var s := Decompose(z);
    var d := CivilFromDays(z);
    var yoe := s.century * 100 + s.block * 4 + s.year;
    assert d.year - (if d.month <= 2 then 1 else 0) == s.era * 400 + yoe;
    var mp := if d.month > 2 then d.month - 3 else d.month + 9;
    assert mp == MarchMonth(s.dayOfYear);
    assert (153 * mp + 2) / 5 + d.day - 1 == s.dayOfYear;
    assert yoe / 4 == s.century * 25 + s.block;
    assert yoe / 100 == s.century;
    DaysFromCivilParts(d, s.era, yoe, s.dayOfYear);
  }

  /** `DaysFromCivil` in terms of the era, the year of the era and the day of the March-based year. */
  lemma DaysFromCivilParts(d: Date, era: int, yoe: int, doy: int)
    requires 0 <= yoe < 400 && d.year - (if d.month <= 2 then 1 else 0) == era * 400 + yoe
    requires (153 * (if d.month > 2 then d.month - 3 else d.month + 9) + 2) / 5 + d.day - 1 == doy
    ensures DaysFromCivil(d) == era * 146097 + yoe * 365 + yoe / 4 - yoe / 100 + doy - 719468
  {
    assert (era * 400 + yoe) / 400 == era;
  }

  /** The month, 1 to 12. */
  function MonthOf(t: int): (r: int)
    ensures 1 <= r <= 12
  {
    CivilFromDays(t / Day).month
  }

  /** The weekday advances by one, cyclically, from one day to the next. */
  lemma DayOfWeekCycle(t: int)
    ensures DayOfWeek(t + Day) == DayOfWeek(t) % 7 + 1
  {
    assert (t + Day) / Day == t / Day + 1;
  }

  /** The epoch falls on Thursday 1 January 1970. */
  lemma EpochAnchor()
    ensures CivilFromDays(0) == Date(1970, 1, 1) && DayOfWeek(0) == 4
  {
    assert Decompose(0) == Split(4, 3, 17, 1, 306);
  }

  /** Day 11016 is the leap day of 2000, a year divisible by 400. */
  lemma LeapDayAnchor()
    ensures CivilFromDays(11016) == Date(2000, 2, 29)
  {
    assert Decompose(11016) == Split(4, 3, 24, 3, 365);
    assert MarchMonth(365) == 11;
  }

  /** Sets column `c` of every row to `f` of the row's timestamp. */
  function SetDerived<V>(t: Table<V>, c: Column, f: int -> V): (r: Table<V>)
    requires WellFormed(t)
    ensures WellFormed(r)
    ensures ColumnSet(r) == ColumnSet(t) + {c}
    ensures |r.rows| == |t.rows|
    ensures forall i :: 0 <= i < |t.rows| ==>
      && r.rows[i].ts == t.rows[i].ts
      && r.rows[i].cells == t.rows[i].cells[c := Some(f(t.rows[i].ts))]
  {
    ElemsCons(c, []);
    AssignColumn(t, c, seq(|t.rows|, i requires 0 <= i < |t.rows| => Some(f(t.rows[i].ts))))
  }

  /**
   Lines 113-116 of the run: set the `day_of_week`, `hour` and `month`
   columns of every row from its timestamp; `asValue` is how the frame
   stores an integer.
   */
  function AddCalendar<V>(t: Table<V>, asValue: int -> V): (r: Table<V>)
    requires WellFormed(t)
    ensures WellFormed(r)
    ensures ColumnSet(r) == ColumnSet(t) + {DayOfWeekColumn, HourColumn, MonthColumn}
    ensures |r.rows| == |t.rows|
    ensures forall i :: 0 <= i < |t.rows| ==>
      var row := r.rows[i];
      && row.ts == t.rows[i].ts
      && row.cells[DayOfWeekColumn] == Some(asValue(DayOfWeek(row.ts)))
      && row.cells[HourColumn] == Some(asValue(HourOfDay(row.ts)))
      && row.cells[MonthColumn] == Some(asValue(MonthOf(row.ts)))
      && forall c :: c in t.rows[i].cells && c !in {DayOfWeekColumn, HourColumn, MonthColumn} ==>
           row.cells[c] == t.rows[i].cells[c]
  {
    var t1 := SetDerived(t, DayOfWeekColumn, ts => asValue(DayOfWeek(ts)));
    var t2 := SetDerived(t1, HourColumn, ts => asValue(HourOfDay(ts)));
    SetDerived(t2, MonthColumn, ts => asValue(MonthOf(ts)))
  }
}
