/**
 One daily run of `automation.py`, as a composition of the stages: extend
 the hour index, let the feature adapters refresh the table, override and
 back-fill the nuclear column, merge the spot prices, derive the calendar
 columns, and write the predictions back after the cutoff row.

 The wind, temperature and nuclear adapters are one parameter `adapt`,
 assumed only to keep the table well formed and its hours in place; the
 model's prediction is a parameter `predict` applied row by row.
 */
module Pipeline {
  import opened Wrappers
  import opened Frame
  import Window
  import Nuclear
  import Spot
  import Calendar
  import Freeze
  import Nordpool
  import Coalesce

  /** What one run reads from outside: the clock, the ENTSO-E readings, the fetched prices and the cutoff. */
  datatype Inputs<V> = Inputs(
    clock: int,
    readings: seq<Nuclear.Reading<V>>,
    fetched: Option<seq<Nordpool.Triple<V>>>,
    cutoff: int)

  /** An adapter keeps the table well formed and leaves its timestamp column alone. */
  ghost predicate KeepsHours<V(!new)>(adapt: Table<V> -> Table<V>) {
    forall x {:trigger adapt(x)} :: WellFormed(x) ==> WellFormed(adapt(x)) && Timestamps(adapt(x).rows) == Timestamps(x.rows)
  }

  /**
   An adapter leaves the prediction column alone and adds no column whose
   name ends in `_x` or `_y`.
   */
  ghost predicate KeepsForecasts<V(!new)>(adapt: Table<V> -> Table<V>) {
    forall x {:trigger adapt(x)} :: WellFormed(x) && Spot.Plain(x) ==> Spot.Plain(adapt(x)) && SameForecasts(x, adapt(x))
  }

  /** The forecast a table holds for hour `ts`: the prediction cell of the first row stamped `ts`, or missing. */
  function ForecastAt<V>(t: Table<V>, ts: int): Option<V> {
    match FindTs(t.rows, ts)
    case None => None
    case Some(i) => CellOr(t.rows[i], Freeze.PredictionColumn)
  }

  /** Two tables with one timestamp column and the same prediction cell in every row. */
  ghost predicate SameForecasts<V>(a: Table<V>, b: Table<V>) {
    && Timestamps(a.rows) == Timestamps(b.rows)
    && forall i :: 0 <= i < |a.rows| && i < |b.rows| ==>
         CellOr(a.rows[i], Freeze.PredictionColumn) == CellOr(b.rows[i], Freeze.PredictionColumn)
  }

  /** The table after the stages up to, and including, the price merge. */
  function Prepare<V(!new)>(snapshot: Table<V>, ins: Inputs<V>, adapt: Table<V> -> Table<V>, parse: string -> int): (r: Result<Table<V>, Fault>)
    requires WellFormed(snapshot) && KeepsHours(adapt)
    ensures !Distinct(Timestamps(snapshot.rows)) ==> r == Failure(DuplicateLabels)
    ensures r.Success? ==>
      && WellFormed(r.value)
      && Elems(Timestamps(r.value.rows)) ==
           Elems(Timestamps(snapshot.rows)) + Elems(Window.ForwardIndex(Window.CeilHour(ins.clock)))
    ensures r.Success? && Distinct(Spot.PriceStamps(Nordpool.PriceTable(ins.fetched, parse))) ==>
      StrictlyIncreasing(Timestamps(r.value.rows))
  {
    match Window.Extend(snapshot, ins.clock)
    case Failure(e) => Failure(e)
    case Success(extended) =>
      var refreshed := adapt(extended);
      var overridden := Nuclear.Override(refreshed, ins.readings);
      OverrideHours(refreshed, ins.readings);
      match Nuclear.Fallback(overridden, snapshot)
      case Failure(e) => Failure(e)
      case Success(filled) =>
        FallbackHours(overridden, snapshot);
        match Spot.UpdateSpot(filled, ins.fetched, parse)
        case Failure(e) => Failure(e)
        case Success(priced) =>
          Spot.UpdateSpotStamps(filled, ins.fetched, parse);
          Success(priced)
  }

  /** The stages after the price merge: the calendar columns, the predictions and their write-back. */
  function Finish<V>(priced: Table<V>, cutoff: int, asValue: int -> V, predict: Row<V> -> V): (r: Result<Table<V>, Fault>)
    requires WellFormed(priced)
    ensures r.Failure? <==> cutoff !in Timestamps(priced.rows)
    ensures r.Success? ==>
      && WellFormed(r.value)
      && Timestamps(r.value.rows) == Timestamps(priced.rows)
      && {Calendar.DayOfWeekColumn, Calendar.HourColumn, Calendar.MonthColumn} <= ColumnSet(r.value)
      && Freeze.LegacyColumn !in ColumnSet(r.value)
    ensures r.Success? ==>
      var featured := Calendar.AddCalendar(priced, asValue);
      && FindTs(featured.rows, cutoff).Some?
      && Freeze.FrozenAt(featured, FindTs(featured.rows, cutoff).value, Predictions(featured, predict), r.value)
  {
    var featured := Calendar.AddCalendar(priced, asValue);
    CalendarHours(priced, asValue);
    var preds := Predictions(featured, predict);
    WriteBackHours(featured, cutoff, preds);
    CalendarKept(featured, cutoff, preds);
    Freeze.WriteBack(featured, cutoff, preds)
  }

  /** `rf_trained.predict(df[...])`: one prediction per row, from that row alone. */
  function Predictions<V>(t: Table<V>, predict: Row<V> -> V): (r: seq<V>)
    ensures |r| == |t.rows|
    ensures forall i :: 0 <= i < |t.rows| ==> r[i] == predict(t.rows[i])
  {
    seq(|t.rows|, i requires 0 <= i < |t.rows| => predict(t.rows[i]))
  }

  /**
   The whole run. On success the table covers exactly the snapshot's hours
   and the 120 forward hours, carries the calendar columns, no longer has
   the legacy prediction column, and contains the cutoff hour.
   */
  function Run<V(!new)>(snapshot: Table<V>, ins: Inputs<V>, adapt: Table<V> -> Table<V>, parse: string -> int,
                  asValue: int -> V, predict: Row<V> -> V): (r: Result<Table<V>, Fault>)
    requires WellFormed(snapshot) && KeepsHours(adapt)
    ensures !Distinct(Timestamps(snapshot.rows)) ==> r == Failure(DuplicateLabels)
    ensures r.Success? ==>
      && WellFormed(r.value)
      && Elems(Timestamps(r.value.rows)) ==
           Elems(Timestamps(snapshot.rows)) + Elems(Window.ForwardIndex(Window.CeilHour(ins.clock)))
      && ins.cutoff in Timestamps(r.value.rows)
      && {Calendar.DayOfWeekColumn, Calendar.HourColumn, Calendar.MonthColumn} <= ColumnSet(r.value)
      && Freeze.LegacyColumn !in ColumnSet(r.value)
    ensures r.Success? && Distinct(Spot.PriceStamps(Nordpool.PriceTable(ins.fetched, parse))) ==>
      StrictlyIncreasing(Timestamps(r.value.rows))
  {
    match Prepare(snapshot, ins, adapt, parse)
    case Failure(e) => Failure(e)
    case Success(priced) => Finish(priced, ins.cutoff, asValue, predict)
  }

  lemma OverrideHours<V>(t: Table<V>, readings: seq<Nuclear.Reading<V>>)
    requires WellFormed(t)
    ensures Timestamps(Nuclear.Override(t, readings).rows) == Timestamps(t.rows)
  {
  }

  lemma FallbackHours<V>(t: Table<V>, snapshot: Table<V>)
    requires WellFormed(t) && WellFormed(snapshot) && Nuclear.Fallback(t, snapshot).Success?
    ensures Timestamps(Nuclear.Fallback(t, snapshot).value.rows) == Timestamps(t.rows)
  {
  }

  lemma CalendarHours<V>(t: Table<V>, asValue: int -> V)
    requires WellFormed(t)
    ensures Timestamps(Calendar.AddCalendar(t, asValue).rows) == Timestamps(t.rows)
    ensures {Calendar.DayOfWeekColumn, Calendar.HourColumn, Calendar.MonthColumn} <= ColumnSet(Calendar.AddCalendar(t, asValue))
  {
  }

  lemma CalendarNotLegacy()
    ensures Freeze.LegacyColumn !in {Calendar.DayOfWeekColumn, Calendar.HourColumn, Calendar.MonthColumn}
  {
    assert |Freeze.LegacyColumn| == 18;
  }

  lemma CalendarKept<V>(t: Table<V>, cutoff: int, preds: seq<V>)
    requires WellFormed(t) && |preds| == |t.rows|
    requires {Calendar.DayOfWeekColumn, Calendar.HourColumn, Calendar.MonthColumn} <= ColumnSet(t)
    ensures Freeze.WriteBack(t, cutoff, preds).Success? ==>
      {Calendar.DayOfWeekColumn, Calendar.HourColumn, Calendar.MonthColumn} <= ColumnSet(Freeze.WriteBack(t, cutoff, preds).value)
  {
    WriteBackHours(t, cutoff, preds);
    CalendarNotLegacy();
  }

  lemma WriteBackHours<V>(t: Table<V>, cutoff: int, preds: seq<V>)
    requires WellFormed(t) && |preds| == |t.rows|
    ensures Freeze.WriteBack(t, cutoff, preds).Success? <==> cutoff in Timestamps(t.rows)
    ensures Freeze.WriteBack(t, cutoff, preds).Success? ==>
      var r := Freeze.WriteBack(t, cutoff, preds).value;
      && Timestamps(r.rows) == Timestamps(t.rows)
      && ColumnSet(t) - {Freeze.LegacyColumn} <= ColumnSet(r)
      && Freeze.LegacyColumn !in ColumnSet(r)
  {
    match FindTs(t.rows, cutoff)
    case Some(k) =>
      assert Timestamps(t.rows)[k] == cutoff;
      FrozenHours(t, k, preds, Freeze.WriteBack(t, cutoff, preds).value);
    case None =>
      forall j | 0 <= j < |t.rows| ensures Timestamps(t.rows)[j] != cutoff {
        assert t.rows[j].ts != cutoff;
      }
  }

  lemma FrozenHours<V>(t: Table<V>, k: nat, preds: seq<V>, r: Table<V>)
    requires WellFormed(t) && k < |t.rows| && |preds| == |t.rows| && Freeze.FrozenAt(t, k, preds, r)
    ensures Timestamps(r.rows) == Timestamps(t.rows)
    ensures ColumnSet(t) - {Freeze.LegacyColumn} <= ColumnSet(r)
    ensures Freeze.LegacyColumn !in ColumnSet(r)
  {
  }

  /** Tables with the same forecasts row by row hold the same forecast for every hour. */
  lemma SameForecastsAt<V>(a: Table<V>, b: Table<V>, ts: int)
    requires SameForecasts(a, b)
    ensures ForecastAt(a, ts) == ForecastAt(b, ts)
  {
    assert FindTs(a.rows, ts) == FindTs(b.rows, ts);
  }

  lemma {:induction false} SameStamps<V>(a: seq<Row<V>>, b: seq<Row<V>>)
    requires |a| == |b| && forall i :: 0 <= i < |a| ==> a[i].ts == b[i].ts
    ensures Timestamps(a) == Timestamps(b)
  {
    assert forall i :: 0 <= i < |a| ==> Timestamps(a)[i] == Timestamps(b)[i];
  }

  lemma Names()
    ensures Freeze.PredictionColumn != Nuclear.NuclearColumn && Freeze.PredictionColumn != Spot.SpotColumn
    ensures Freeze.PredictionColumn !in {Calendar.DayOfWeekColumn, Calendar.HourColumn, Calendar.MonthColumn}
    ensures !Coalesce.IsX(Nuclear.NuclearColumn) && !Coalesce.IsY(Nuclear.NuclearColumn)
    ensures !Coalesce.IsX(Freeze.PredictionColumn) && !Coalesce.IsY(Freeze.PredictionColumn)
    ensures forall c :: c in {Calendar.DayOfWeekColumn, Calendar.HourColumn, Calendar.MonthColumn} ==>
      !Coalesce.IsX(c) && !Coalesce.IsY(c)
  {
    assert |Freeze.PredictionColumn| == 20 && |Nuclear.NuclearColumn| == 14 && |Spot.SpotColumn| == 15;
    assert |Calendar.DayOfWeekColumn| == 11 && |Calendar.HourColumn| == 4 && |Calendar.MonthColumn| == 5;
    assert Nuclear.NuclearColumn[12..] == "MW";
    assert Freeze.PredictionColumn[18..] == "ce";
    assert Calendar.DayOfWeekColumn[9..] == "ek";
    assert Calendar.HourColumn[2..] == "ur";
    assert Calendar.MonthColumn[3..] == "th";
  }

  /** Extending the hour index keeps every old hour's forecast and gives each new hour none. */
  lemma ExtendForecast<V>(t: Table<V>, clock: int, ts: int)
    requires WellFormed(t)
    ensures Window.Extend(t, clock).Success? ==> ForecastAt(Window.Extend(t, clock).value, ts) == ForecastAt(t, ts)
  {
    if Window.Extend(t, clock).Success? {
      var u := Window.Extend(t, clock).value;
      match FindTs(u.rows, ts)
      case None =>
        forall k | 0 <= k < |t.rows| ensures t.rows[k].ts != ts {
          var x := t.rows[k].ts;
          assert Timestamps(t.rows)[k] == x;
          assert x in Elems(Timestamps(u.rows));
          var i :| 0 <= i < |u.rows| && Timestamps(u.rows)[i] == x;
          assert u.rows[i].ts == x;
        }
      case Some(i) =>
        match FindTs(t.rows, ts)
        case Some(k) =>
          assert u.rows[i] == t.rows[k];
        case None =>
          assert u.rows[i].ts !in Timestamps(t.rows);
    }
  }

  /** The nuclear override and back-fill touch only the nuclear column. */
  lemma OverrideForecasts<V>(t: Table<V>, readings: seq<Nuclear.Reading<V>>)
    requires WellFormed(t) && Spot.Plain(t)
    ensures SameForecasts(t, Nuclear.Override(t, readings)) && Spot.Plain(Nuclear.Override(t, readings))
  {
    var r := Nuclear.Override(t, readings);
    Names();
    SameStamps(t.rows, r.rows);
    forall i | 0 <= i < |t.rows|
      ensures CellOr(t.rows[i], Freeze.PredictionColumn) == CellOr(r.rows[i], Freeze.PredictionColumn)
    {
      assert Freeze.PredictionColumn in t.rows[i].cells <==> Freeze.PredictionColumn in r.rows[i].cells;
    }
    forall c | c in r.columns ensures !Coalesce.IsX(c) && !Coalesce.IsY(c) {
      assert c in ColumnSet(r);
    }
  }

  lemma FallbackForecasts<V>(t: Table<V>, snapshot: Table<V>)
    requires WellFormed(t) && WellFormed(snapshot) && Spot.Plain(t) && Nuclear.Fallback(t, snapshot).Success?
    ensures var r := Nuclear.Fallback(t, snapshot).value;
      SameForecasts(t, r) && Spot.Plain(r)
  {
    var r := Nuclear.Fallback(t, snapshot).value;
    Names();
    SameStamps(t.rows, r.rows);
    forall i | 0 <= i < |t.rows|
      ensures CellOr(t.rows[i], Freeze.PredictionColumn) == CellOr(r.rows[i], Freeze.PredictionColumn)
    {
      assert Freeze.PredictionColumn in t.rows[i].cells <==> Freeze.PredictionColumn in r.rows[i].cells;
    }
  }

  /** With unique price timestamps the price merge touches only the price column. */
  lemma UpdateSpotForecasts<V>(t: Table<V>, fetched: Option<seq<Nordpool.Triple<V>>>, parse: string -> int)
    requires WellFormed(t) && Spot.Plain(t)
    requires Distinct(Spot.PriceStamps(Nordpool.PriceTable(fetched, parse)))
    ensures Spot.UpdateSpot(t, fetched, parse).Success?
    ensures var r := Spot.UpdateSpot(t, fetched, parse).value;
      SameForecasts(t, r) && Spot.Plain(r)
  {
    if |Nordpool.PriceTable(fetched, parse)| > 0 {
      Spot.UpdateSpotFills(t, fetched, parse);
      FilledForecasts(t, Nordpool.PriceTable(fetched, parse), Spot.UpdateSpot(t, fetched, parse).value);
    }
  }

  lemma FilledForecasts<V>(t: Table<V>, prices: seq<Spot.Price<V>>, r: Table<V>)
    requires WellFormed(t) && WellFormed(r) && |r.rows| == |t.rows| && Spot.FilledFrom(t, prices, r)
    requires Spot.Plain(t)
    ensures SameForecasts(t, r) && Spot.Plain(r)
  {
    Names();
    Spot.SpotNames();
    SameStamps(t.rows, r.rows);
    forall i | 0 <= i < |t.rows|
      ensures CellOr(t.rows[i], Freeze.PredictionColumn) == CellOr(r.rows[i], Freeze.PredictionColumn)
    {
      assert Freeze.PredictionColumn in t.rows[i].cells <==> Freeze.PredictionColumn in r.rows[i].cells;
    }
    forall c | c in r.columns ensures !Coalesce.IsX(c) && !Coalesce.IsY(c) {
      assert c in ColumnSet(r);
    }
  }

  /** The calendar columns touch no prediction. */
  lemma CalendarForecasts<V>(t: Table<V>, asValue: int -> V)
    requires WellFormed(t)
    ensures var r := Calendar.AddCalendar(t, asValue);
      SameForecasts(t, r) && (Spot.Plain(t) ==> Spot.Plain(r))
  {
    var r := Calendar.AddCalendar(t, asValue);
    SameStamps(t.rows, r.rows);
    CalendarCells(t, asValue);
    if Spot.Plain(t) {
      CalendarPlain(t, asValue);
    }
  }

  lemma CalendarCells<V>(t: Table<V>, asValue: int -> V)
    requires WellFormed(t)
    ensures var r := Calendar.AddCalendar(t, asValue);
      forall i :: 0 <= i < |t.rows| ==>
        CellOr(t.rows[i], Freeze.PredictionColumn) == CellOr(r.rows[i], Freeze.PredictionColumn)
  {
    var r := Calendar.AddCalendar(t, asValue);
    PredictionNotCalendar();
    var p := Freeze.PredictionColumn;
    assert p in ColumnSet(r) <==> p in ColumnSet(t);
    forall i | 0 <= i < |t.rows|
      ensures CellOr(t.rows[i], p) == CellOr(r.rows[i], p)
    {
      assert r.rows[i].cells.Keys == ColumnSet(r) && t.rows[i].cells.Keys == ColumnSet(t);
    }
  }

  lemma PredictionNotCalendar()
    ensures Freeze.PredictionColumn !in {Calendar.DayOfWeekColumn, Calendar.HourColumn, Calendar.MonthColumn}
  {
    Names();
  }

  lemma CalendarPlain<V>(t: Table<V>, asValue: int -> V)
    requires WellFormed(t) && Spot.Plain(t)
    ensures Spot.Plain(Calendar.AddCalendar(t, asValue))
  {
    var r := Calendar.AddCalendar(t, asValue);
    Names();
    forall c | c in r.columns ensures !Coalesce.IsX(c) && !Coalesce.IsY(c) {
      assert c in ColumnSet(r);
    }
  }

  /** In strictly increasing timestamps, position order and time order agree. */
  lemma IncreasingOrder(s: seq<int>, i: nat, k: nat)
    requires StrictlyIncreasing(s) && i < |s| && k < |s|
    ensures s[i] <= s[k] <==> i <= k
  {
    if i < k {
      assert s[i] < s[k];
    } else if k < i {
      assert s[k] < s[i];
    }
  }

  /**
   The calendar columns and the write-back, seen hour by hour: an hour up
   to the cutoff keeps the forecast it had, and an hour after it holds the
   prediction made from its own calendar-featured row.
   */
  lemma FinishForecast<V>(priced: Table<V>, cutoff: int, asValue: int -> V, predict: Row<V> -> V, ts: int)
    requires WellFormed(priced) && StrictlyIncreasing(Timestamps(priced.rows))
    ensures Finish(priced, cutoff, asValue, predict).Success? && ts <= cutoff ==>
      ForecastAt(Finish(priced, cutoff, asValue, predict).value, ts) == ForecastAt(priced, ts)
    ensures var f := Calendar.AddCalendar(priced, asValue);
      Finish(priced, cutoff, asValue, predict).Success? && cutoff < ts && FindTs(f.rows, ts).Some? ==>
        ForecastAt(Finish(priced, cutoff, asValue, predict).value, ts) == Some(predict(f.rows[FindTs(f.rows, ts).value]))
  {
    if Finish(priced, cutoff, asValue, predict).Success? {
      var f := Calendar.AddCalendar(priced, asValue);
      CalendarForecasts(priced, asValue);
      SameForecastsAt(priced, f, ts);
      FrozenForecast(f, FindTs(f.rows, cutoff).value, Predictions(f, predict), Finish(priced, cutoff, asValue, predict).value, ts);
    }
  }

  /**
   Lines 137-140 of `automation.py`, seen hour by hour: after the write-back
   at cutoff row `k`, an hour up to the cutoff keeps the forecast it had,
   and an hour after it holds its row's prediction.
   */
  lemma FrozenForecast<V>(t: Table<V>, k: nat, preds: seq<V>, r: Table<V>, ts: int)
    requires WellFormed(t) && k < |t.rows| && |preds| == |t.rows| && Freeze.FrozenAt(t, k, preds, r)
    requires StrictlyIncreasing(Timestamps(t.rows))
    ensures ts <= t.rows[k].ts ==> ForecastAt(r, ts) == ForecastAt(t, ts)
    ensures t.rows[k].ts < ts && FindTs(t.rows, ts).Some? ==> ForecastAt(r, ts) == Some(preds[FindTs(t.rows, ts).value])
  {
    SameStamps(t.rows, r.rows);
    assert FindTs(r.rows, ts) == FindTs(t.rows, ts);
    match FindTs(t.rows, ts)
    case None =>
    case Some(i) =>
      IncreasingOrder(Timestamps(t.rows), i, k);
      if i <= k {
        assert Freeze.PredictionColumn != Freeze.LegacyColumn by {
          assert |Freeze.PredictionColumn| == 20 && |Freeze.LegacyColumn| == 18;
        }
        assert Freeze.PredictionColumn in t.rows[i].cells ==> Freeze.PredictionColumn in ColumnSet(r);
      } else {
        assert Freeze.PredictionColumn in ColumnSet(r);
      }
  }

  /** Everything up to the price merge keeps every hour's forecast and adds no suffixed column. */
  lemma PrepareForecast<V(!new)>(snapshot: Table<V>, ins: Inputs<V>, adapt: Table<V> -> Table<V>, parse: string -> int, ts: int)
    requires WellFormed(snapshot) && KeepsHours(adapt) && KeepsForecasts(adapt) && Spot.Plain(snapshot)
    requires Distinct(Spot.PriceStamps(Nordpool.PriceTable(ins.fetched, parse)))
    ensures Prepare(snapshot, ins, adapt, parse).Success? ==>
      && ForecastAt(Prepare(snapshot, ins, adapt, parse).value, ts) == ForecastAt(snapshot, ts)
      && Spot.Plain(Prepare(snapshot, ins, adapt, parse).value)
  {
    match Window.Extend(snapshot, ins.clock)
    case Failure(_) =>
    case Success(extended) =>
      var refreshed := adapt(extended);
      RefreshForecast(snapshot, ins.clock, extended, adapt, ts);
      var overridden := Nuclear.Override(refreshed, ins.readings);
      OverrideForecasts(refreshed, ins.readings);
      SameForecastsAt(refreshed, overridden, ts);
      match Nuclear.Fallback(overridden, snapshot)
      case Failure(_) =>
      case Success(filled) =>
        FallbackForecasts(overridden, snapshot);
        SameForecastsAt(overridden, filled, ts);
        UpdateSpotForecasts(filled, ins.fetched, parse);
        SameForecastsAt(filled, Spot.UpdateSpot(filled, ins.fetched, parse).value, ts);
  }

  /** Extending the index and refreshing the features keep every hour's forecast and add no suffixed column. */
  lemma RefreshForecast<V(!new)>(snapshot: Table<V>, clock: int, extended: Table<V>, adapt: Table<V> -> Table<V>, ts: int)
    requires WellFormed(snapshot) && KeepsHours(adapt) && KeepsForecasts(adapt) && Spot.Plain(snapshot)
    requires Window.Extend(snapshot, clock) == Success(extended)
    ensures WellFormed(adapt(extended)) && Spot.Plain(adapt(extended))
    ensures ForecastAt(adapt(extended), ts) == ForecastAt(snapshot, ts)
  {
    ExtendForecast(snapshot, clock, ts);
    SameForecastsAt(extended, adapt(extended), ts);
  }

  /**
   Lines 19-20 and 137-140 of `automation.py`: a run leaves the forecast of
   every hour up to the cutoff as the snapshot had it, including no
   forecast for an hour the snapshot did not have.
   */
  lemma RunKeepsSettled<V(!new)>(snapshot: Table<V>, ins: Inputs<V>, adapt: Table<V> -> Table<V>, parse: string -> int,
                                 asValue: int -> V, predict: Row<V> -> V, ts: int)
    requires WellFormed(snapshot) && KeepsHours(adapt) && KeepsForecasts(adapt) && Spot.Plain(snapshot)
    requires Distinct(Spot.PriceStamps(Nordpool.PriceTable(ins.fetched, parse)))
    requires ts <= ins.cutoff
    ensures Run(snapshot, ins, adapt, parse, asValue, predict).Success? ==>
      ForecastAt(Run(snapshot, ins, adapt, parse, asValue, predict).value, ts) == ForecastAt(snapshot, ts)
  {
    if Run(snapshot, ins, adapt, parse, asValue, predict).Success? {
      PrepareForecast(snapshot, ins, adapt, parse, ts);
      FinishForecast(Prepare(snapshot, ins, adapt, parse).value, ins.cutoff, asValue, predict, ts);
    }
  }

  /** A run's output again has no column name ending in `_x` or `_y`, so it can be the next day's snapshot. */
  lemma RunPlain<V(!new)>(snapshot: Table<V>, ins: Inputs<V>, adapt: Table<V> -> Table<V>, parse: string -> int,
                          asValue: int -> V, predict: Row<V> -> V)
    requires WellFormed(snapshot) && KeepsHours(adapt) && KeepsForecasts(adapt) && Spot.Plain(snapshot)
    requires Distinct(Spot.PriceStamps(Nordpool.PriceTable(ins.fetched, parse)))
    ensures Run(snapshot, ins, adapt, parse, asValue, predict).Success? ==>
      Spot.Plain(Run(snapshot, ins, adapt, parse, asValue, predict).value)
  {
    if Run(snapshot, ins, adapt, parse, asValue, predict).Success? {
      PrepareForecast(snapshot, ins, adapt, parse, ins.cutoff);
      FinishPlain(Prepare(snapshot, ins, adapt, parse).value, ins.cutoff, asValue, predict);
    }
  }

  lemma FinishPlain<V>(priced: Table<V>, cutoff: int, asValue: int -> V, predict: Row<V> -> V)
    requires WellFormed(priced) && Spot.Plain(priced)
    ensures Finish(priced, cutoff, asValue, predict).Success? ==> Spot.Plain(Finish(priced, cutoff, asValue, predict).value)
  {
    if Finish(priced, cutoff, asValue, predict).Success? {
      var f := Calendar.AddCalendar(priced, asValue);
      CalendarForecasts(priced, asValue);
      FrozenPlain(f, FindTs(f.rows, cutoff).value, Predictions(f, predict), Finish(priced, cutoff, asValue, predict).value);
    }
  }

  lemma FrozenPlain<V>(t: Table<V>, k: nat, preds: seq<V>, r: Table<V>)
    requires WellFormed(t) && k < |t.rows| && |preds| == |t.rows| && Freeze.FrozenAt(t, k, preds, r)
    requires Spot.Plain(t)
    ensures Spot.Plain(r)
  {
    Names();
    forall c | c in r.columns ensures !Coalesce.IsX(c) && !Coalesce.IsY(c) {
      assert c in ColumnSet(r);
      assert c in ColumnSet(t) || c == Freeze.PredictionColumn;
    }
  }

  /**
   Lines 19-20 of `automation.py`: the prediction day one writes for an hour
   after its cutoff is still there after day two's run, whose snapshot is
   day one's output, for every hour up to day two's cutoff, whatever day
   two's model predicts.
   */
  lemma ForecastFrozen<V(!new)>(snapshot: Table<V>, ins1: Inputs<V>, ins2: Inputs<V>, adapt: Table<V> -> Table<V>,
                                parse: string -> int, asValue: int -> V, predict1: Row<V> -> V, predict2: Row<V> -> V, ts: int)
    requires WellFormed(snapshot) && KeepsHours(adapt) && KeepsForecasts(adapt) && Spot.Plain(snapshot)
    requires Distinct(Spot.PriceStamps(Nordpool.PriceTable(ins1.fetched, parse)))
    requires Distinct(Spot.PriceStamps(Nordpool.PriceTable(ins2.fetched, parse)))
    requires ins1.cutoff < ts <= ins2.cutoff
    ensures Run(snapshot, ins1, adapt, parse, asValue, predict1).Success? ==>
      var day1 := Run(snapshot, ins1, adapt, parse, asValue, predict1).value;
      var f1 := Calendar.AddCalendar(Prepare(snapshot, ins1, adapt, parse).value, asValue);
      Run(day1, ins2, adapt, parse, asValue, predict2).Success? && ts in Timestamps(day1.rows) ==>
        && FindTs(f1.rows, ts).Some?
        && ForecastAt(Run(day1, ins2, adapt, parse, asValue, predict2).value, ts) == Some(predict1(f1.rows[FindTs(f1.rows, ts).value]))
  {
    if Run(snapshot, ins1, adapt, parse, asValue, predict1).Success? {
      ForecastFrozenRuns(snapshot, ins1, ins2, adapt, parse, asValue, predict1, predict2, ts);
    }
  }

  lemma ForecastFrozenRuns<V(!new)>(snapshot: Table<V>, ins1: Inputs<V>, ins2: Inputs<V>, adapt: Table<V> -> Table<V>,
                                    parse: string -> int, asValue: int -> V, predict1: Row<V> -> V, predict2: Row<V> -> V, ts: int)
    requires WellFormed(snapshot) && KeepsHours(adapt) && KeepsForecasts(adapt) && Spot.Plain(snapshot)
    requires Distinct(Spot.PriceStamps(Nordpool.PriceTable(ins1.fetched, parse)))
    requires Distinct(Spot.PriceStamps(Nordpool.PriceTable(ins2.fetched, parse)))
    requires ins1.cutoff < ts <= ins2.cutoff
    requires Run(snapshot, ins1, adapt, parse, asValue, predict1).Success?
    ensures var day1 := Run(snapshot, ins1, adapt, parse, asValue, predict1).value;
      var f1 := Calendar.AddCalendar(Prepare(snapshot, ins1, adapt, parse).value, asValue);
      Run(day1, ins2, adapt, parse, asValue, predict2).Success? && ts in Timestamps(day1.rows) ==>
        && FindTs(f1.rows, ts).Some?
        && ForecastAt(Run(day1, ins2, adapt, parse, asValue, predict2).value, ts) == Some(predict1(f1.rows[FindTs(f1.rows, ts).value]))
  {
    var day1 := Run(snapshot, ins1, adapt, parse, asValue, predict1).value;
    var priced := Prepare(snapshot, ins1, adapt, parse).value;
    var f1 := Calendar.AddCalendar(priced, asValue);
    CalendarForecasts(priced, asValue);
    if ts in Timestamps(day1.rows) {
      assert ts in Timestamps(f1.rows);
      RunPlain(snapshot, ins1, adapt, parse, asValue, predict1);
      RunKeepsSettled(day1, ins2, adapt, parse, asValue, predict2, ts);
      FinishForecast(priced, ins1.cutoff, asValue, predict1, ts);
    }
  }
}
