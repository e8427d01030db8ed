/**
 The end of the daily run: the training selection and the write-back of the
 predictions. Predictions are an input here, one per row of the table; the
 cutoff is the first hour of tomorrow, also an input. Rows up to and
 including the cutoff row keep whatever prediction they already had, so a
 forecast written on an earlier day is frozen once its day comes.
 */
module Freeze {
  import opened Wrappers
  import opened Frame

  const PredictionColumn: Column := "predicted_spot_price"
  const LegacyColumn: Column := "PricePredict_cpkWh"

  /** `df.dropna()`: the rows with no missing cell, in table order. */
  function TrainingRows<V>(rows: seq<Row<V>>): (r: seq<Row<V>>)
    ensures |r| <= |rows|
    ensures forall k :: 0 <= k < |r| ==> Complete(r[k]) && r[k] in rows
  {
    if |rows| == 0 then []
    else
      var rest := TrainingRows(rows[..|rows| - 1]);
      if Complete(rows[|rows| - 1]) then rest + [rows[|rows| - 1]] else rest
  }

  /** The positions of the rows with no missing cell, ascending. */
  function CompletePositions<V>(rows: seq<Row<V>>): (r: seq<int>)
    ensures StrictlyIncreasing(r)
    ensures forall k :: 0 <= k < |r| ==> 0 <= r[k] < |rows|
    ensures forall i :: 0 <= i < |rows| ==> (Complete(rows[i]) <==> i in r)
  {
    if |rows| == 0 then []
    else
      var prefix := rows[..|rows| - 1];
      var rest := CompletePositions(prefix);
      assert forall i :: 0 <= i < |prefix| ==> prefix[i] == rows[i];
      if Complete(rows[|rows| - 1]) then rest + [|rows| - 1] else rest
  }

  /**
   The training set is the complete rows and only those, in their original
   order: its `k`-th row is the row at the `k`-th complete position.
   */
  lemma {:induction false} TrainingRowsSelect<V>(rows: seq<Row<V>>)
    ensures var pos := CompletePositions(rows); var r := TrainingRows(rows);
      && |r| == |pos|
      && forall k :: 0 <= k < |r| ==> r[k] == rows[pos[k]]
  {
    if |rows| > 0 {
      var prefix := rows[..|rows| - 1];
      TrainingRowsSelect(prefix);
      assert forall i :: 0 <= i < |prefix| ==> prefix[i] == rows[i];
    }
  }

  /** `df.loc[i, c] = v`: sets one cell, adding the column, missing elsewhere, when it is absent. */
  function SetCell<V>(t: Table<V>, i: nat, c: Column, v: Option<V>): (r: Table<V>)
    requires WellFormed(t) && i < |t.rows|
    ensures WellFormed(r) && ColumnSet(r) == ColumnSet(t) + {c}
    ensures |r.rows| == |t.rows|
    ensures forall j :: 0 <= j < |t.rows| ==> r.rows[j].ts == t.rows[j].ts
    ensures r.rows[i].cells[c] == v
    ensures forall j, d :: 0 <= j < |t.rows| && d in r.rows[j].cells && (j != i || d != c) ==>
      r.rows[j].cells[d] == CellOr(t.rows[j], d)
  {
    var w := WithColumn(t, c);
    assert ColumnSet(w) == ColumnSet(t) + {c};
    Table(w.columns, w.rows[i := Row(w.rows[i].ts, w.rows[i].cells[c := v])])
  }

  /** The loop of the write-back from position `i` on: every later row takes its own prediction. */
  function WriteFrom<V>(t: Table<V>, preds: seq<V>, i: nat): (r: Table<V>)
    requires WellFormed(t) && |preds| == |t.rows|
    ensures WellFormed(r) && |r.rows| == |t.rows|
    ensures ColumnSet(r) == ColumnSet(t) + (if i < |t.rows| then {PredictionColumn} else {})
    ensures forall j :: 0 <= j < |t.rows| ==> r.rows[j].ts == t.rows[j].ts
    ensures forall j :: i <= j < |t.rows| ==> r.rows[j].cells[PredictionColumn] == Some(preds[j])
    ensures forall j, d :: 0 <= j < |t.rows| && d in r.rows[j].cells && (j < i || d != PredictionColumn) ==>
      r.rows[j].cells[d] == CellOr(t.rows[j], d)
    decreases |t.rows| - i
  {
    if i >= |t.rows| then t
    else WriteFrom(SetCell(t, i, PredictionColumn, Some(preds[i])), preds, i + 1)
  }

  /**
   What a write-back with cutoff row `k` leaves behind: the legacy prediction
   column is gone, rows after `k` carry their predictions, and everything
   else, including the earlier predictions of rows `0..k`, is as before.
   */
  ghost predicate FrozenAt<V>(t: Table<V>, k: nat, preds: seq<V>, r: Table<V>)
    requires WellFormed(t) && k < |t.rows| && |preds| == |t.rows|
  {
    && WellFormed(r) && |r.rows| == |t.rows|
    && ColumnSet(r) == ColumnSet(t) - {LegacyColumn} + (if k + 1 < |t.rows| then {PredictionColumn} else {})
    && (forall j :: 0 <= j < |t.rows| ==> r.rows[j].ts == t.rows[j].ts)
    && (forall j :: k < j < |t.rows| ==> r.rows[j].cells[PredictionColumn] == Some(preds[j]))
    && (forall j :: 0 <= j <= k && PredictionColumn in r.rows[j].cells ==>
          r.rows[j].cells[PredictionColumn] == CellOr(t.rows[j], PredictionColumn))
    && (forall j, d :: 0 <= j < |t.rows| && d in r.rows[j].cells && d != PredictionColumn ==>
          r.rows[j].cells[d] == t.rows[j].cells[d])
  }

  /**
   Lines 130 and 137-140 of `automation.py`: find the first row stamped with
   the cutoff, drop the legacy prediction column, and write the predictions
   of every later row. Without a cutoff row, `row.index[0]` raises and
   nothing is written.
   */
  function WriteBack<V>(t: Table<V>, cutoff: int, preds: seq<V>): (r: Result<Table<V>, Fault>)
    requires WellFormed(t) && |preds| == |t.rows|
    ensures r.Failure? <==> forall j :: 0 <= j < |t.rows| ==> t.rows[j].ts != cutoff
    ensures r.Failure? ==> r.error == MissingCutoffRow
    ensures r.Success? ==>
      var k := FindTs(t.rows, cutoff).value;
      t.rows[k].ts == cutoff && FrozenAt(t, k, preds, r.value)
  {
    match FindTs(t.rows, cutoff)
    case None => Failure(MissingCutoffRow)
    case Some(k) =>
      DropThenWrite(t, k, preds);
      Success(WriteFrom(DropColumns(t, {LegacyColumn}), preds, k + 1))
  }

  lemma DropThenWrite<V>(t: Table<V>, k: nat, preds: seq<V>)
    requires WellFormed(t) && k < |t.rows| && |preds| == |t.rows|
    ensures FrozenAt(t, k, preds, WriteFrom(DropColumns(t, {LegacyColumn}), preds, k + 1))
  {
    var dropped := DropColumns(t, {LegacyColumn});
    var r := WriteFrom(dropped, preds, k + 1);
    forall j, d | 0 <= j < |t.rows| && d in r.rows[j].cells && d != PredictionColumn
      ensures r.rows[j].cells[d] == t.rows[j].cells[d]
    {
      assert d in ColumnSet(r);
      assert d in dropped.rows[j].cells;
    }
    forall j | 0 <= j <= k && PredictionColumn in r.rows[j].cells
      ensures r.rows[j].cells[PredictionColumn] == CellOr(t.rows[j], PredictionColumn)
    {
      assert PredictionColumn != LegacyColumn;
      assert PredictionColumn in t.rows[j].cells <==> PredictionColumn in dropped.rows[j].cells;
    }
  }

  /**
   A prediction written for an hour after one day's cutoff survives the next
   day's write-back whenever that hour is at or before the next cutoff row.
   */
  lemma PredictionFrozen<V>(t: Table<V>, cutoff1: int, preds1: seq<V>, cutoff2: int, preds2: seq<V>, j: nat)
    requires WellFormed(t) && |preds1| == |t.rows| && |preds2| == |t.rows|
    ensures WriteBack(t, cutoff1, preds1).Success? ==>
      var t1 := WriteBack(t, cutoff1, preds1).value;
      && FindTs(t.rows, cutoff1).value < j < |t.rows|
      && WriteBack(t1, cutoff2, preds2).Success?
      && j <= FindTs(t1.rows, cutoff2).value
      ==>
        var t2 := WriteBack(t1, cutoff2, preds2).value;
        && j < |t2.rows|
        && PredictionColumn in t2.rows[j].cells
        && t2.rows[j].cells[PredictionColumn] == Some(preds1[j])
  {
    if WriteBack(t, cutoff1, preds1).Success? {
      var t1 := WriteBack(t, cutoff1, preds1).value;
      if FindTs(t.rows, cutoff1).value < j < |t.rows| && WriteBack(t1, cutoff2, preds2).Success? && j <= FindTs(t1.rows, cutoff2).value {
        FrozenTwice(t, FindTs(t.rows, cutoff1).value, preds1, t1,
          FindTs(t1.rows, cutoff2).value, preds2, WriteBack(t1, cutoff2, preds2).value, j);
      }
    }
  }

  lemma FrozenTwice<V>(t: Table<V>, k1: nat, preds1: seq<V>, t1: Table<V>, k2: nat, preds2: seq<V>, t2: Table<V>, j: nat)
    requires WellFormed(t) && k1 < |t.rows| && |preds1| == |t.rows| && FrozenAt(t, k1, preds1, t1)
    requires k2 < |t1.rows| && |preds2| == |t1.rows| && FrozenAt(t1, k2, preds2, t2)
    requires k1 < j <= k2
    ensures j < |t2.rows| && PredictionColumn in t2.rows[j].cells
    ensures t2.rows[j].cells[PredictionColumn] == Some(preds1[j])
  {
    assert PredictionColumn in ColumnSet(t1);
    assert PredictionColumn in ColumnSet(t2);
    assert PredictionColumn in t2.rows[j].cells;
  }
}
