/**
 The two passes over the `NuclearPowerMW` column: the ENTSO-E override, which
 writes each unavailability reading into the rows with its timestamp, and the
 fallback, which fills a still-missing cell from the previous snapshot row
 with the same row position.
 */
module Nuclear {
  import opened Wrappers
  import opened Frame

  const NuclearColumn: Column := "NuclearPowerMW"

  /** One row of the ENTSO-E frame. */
  datatype Reading<V> = Reading(ts: int, value: Option<V>)

  /** The value of the last reading stamped `ts`, if any reading is. */
  function LastReading<V>(readings: seq<Reading<V>>, ts: int): Option<Option<V>> {
    if |readings| == 0 then None
    else if readings[|readings| - 1].ts == ts then Some(readings[|readings| - 1].value)
    else LastReading(readings[..|readings| - 1], ts)
  }

  /** One pass of the override loop: `df.loc[df['Timestamp'] == e.ts, 'NuclearPowerMW'] = e.value`. */
  function ApplyReading<V>(t: Table<V>, e: Reading<V>): (r: Table<V>)
    requires WellFormed(t)
    ensures WellFormed(r)
    ensures ColumnSet(r) == ColumnSet(t) + {NuclearColumn}
    ensures |r.rows| == |t.rows|
    ensures forall i :: 0 <= i < |t.rows| ==>
      && r.rows[i].ts == t.rows[i].ts
      && r.rows[i].cells[NuclearColumn] ==
           (if t.rows[i].ts == e.ts then e.value else CellOr(t.rows[i], NuclearColumn))
      && forall c :: c in t.rows[i].cells && c != NuclearColumn ==> r.rows[i].cells[c] == t.rows[i].cells[c]
  {
    var u := WithColumn(t, NuclearColumn);
    var rows := seq(|u.rows|, i requires 0 <= i < |u.rows| =>
      if u.rows[i].ts == e.ts then Row(u.rows[i].ts, u.rows[i].cells[NuclearColumn := e.value])
      else u.rows[i]);
    Table(u.columns, rows)
  }

  /**
   Lines 93-95 of the run: every row whose timestamp some reading carries
   takes the value of the last such reading, known or not; every other cell
   keeps its value. The column is created, missing everywhere, when the
   table lacks it and there is at least one reading.
   */
  function Override<V>(t: Table<V>, readings: seq<Reading<V>>): (r: Table<V>)
    requires WellFormed(t)
    ensures WellFormed(r)
    ensures ColumnSet(r) == ColumnSet(t) + (if |readings| == 0 then {} else {NuclearColumn})
    ensures |r.rows| == |t.rows|
    ensures forall i :: 0 <= i < |t.rows| ==>
      && r.rows[i].ts == t.rows[i].ts
      && (forall c :: c in t.rows[i].cells && c != NuclearColumn ==> r.rows[i].cells[c] == t.rows[i].cells[c])
      && (|readings| > 0 ==>
            r.rows[i].cells[NuclearColumn] ==
              match LastReading(readings, t.rows[i].ts)
              case Some(v) => v
              case None => CellOr(t.rows[i], NuclearColumn))
    ensures |readings| == 0 ==> r == t
  {
    if |readings| == 0 then t
    else
      var prefix := readings[..|readings| - 1];
      ApplyReading(Override(t, prefix), readings[|readings| - 1])
  }

  /**
   One step of the fallback loop: a row whose nuclear cell is missing takes
   `tmp.loc[position, 'NuclearPowerMW']`, which raises KeyError when the
   snapshot lacks the column or the position.
   */
  function FillRow<V>(row: Row<V>, position: nat, snapshot: Table<V>): (r: Result<Row<V>, Fault>)
    requires WellFormed(snapshot) && NuclearColumn in row.cells
    ensures r.Success? <==>
      row.cells[NuclearColumn].Some? || (NuclearColumn in snapshot.columns && position < |snapshot.rows|)
    ensures r.Success? && row.cells[NuclearColumn].Some? ==> r.value == row
    ensures r.Success? && row.cells[NuclearColumn].None? ==>
      r.value == Row(row.ts, row.cells[NuclearColumn := snapshot.rows[position].cells[NuclearColumn]])
  {
    if row.cells[NuclearColumn].Some? then Success(row)
    else if NuclearColumn !in snapshot.columns then Failure(MissingColumn(NuclearColumn))
    else if position >= |snapshot.rows| then Failure(MissingLabel(position))
    else Success(Row(row.ts, row.cells[NuclearColumn := snapshot.rows[position].cells[NuclearColumn]]))
  }

  /** A row position the fallback can serve: its cell is known, or the snapshot has that position and column. */
  predicate Fillable<V>(t: Table<V>, snapshot: Table<V>, i: int)
    requires 0 <= i < |t.rows| && NuclearColumn in t.rows[i].cells
  {
    t.rows[i].cells[NuclearColumn].Some? || (NuclearColumn in snapshot.columns && i < |snapshot.rows|)
  }

  /** The fallback loop over the first `n` rows, stopping at the first failing position. */
  function FillRows<V>(t: Table<V>, snapshot: Table<V>, n: nat): (r: Result<seq<Row<V>>, Fault>)
    requires WellFormed(t) && WellFormed(snapshot) && NuclearColumn in t.columns && n <= |t.rows|
    ensures r.Success? <==> forall i :: 0 <= i < n ==> Fillable(t, snapshot, i)
    ensures r.Success? ==> |r.value| == n && forall i :: 0 <= i < n ==>
      && (t.rows[i].cells[NuclearColumn].Some? ==> r.value[i] == t.rows[i])
      && (t.rows[i].cells[NuclearColumn].None? ==>
            && i < |snapshot.rows| && NuclearColumn in snapshot.columns
            && r.value[i] == Row(t.rows[i].ts, t.rows[i].cells[NuclearColumn := snapshot.rows[i].cells[NuclearColumn]]))
  {
    if n == 0 then Success([])
    else
      match FillRows(t, snapshot, n - 1)
      case Failure(e) =>
        var k :| 0 <= k < n - 1 && !Fillable(t, snapshot, k);
        Failure(e)
      case Success(done) =>
        match FillRow(t.rows[n - 1], n - 1, snapshot)
        case Failure(e) =>
          assert !Fillable(t, snapshot, n - 1);
          Failure(e)
        case Success(row) => Success(done + [row])
  }

  /**
   Lines 97-99 of the run: each row whose nuclear cell is missing takes the
   snapshot's value at the same row position; known cells and every other
   column are left alone. Reading the column of a non-empty table that
   lacks it, or a position or column the snapshot lacks, fails.
   */
  function Fallback<V>(t: Table<V>, snapshot: Table<V>): (r: Result<Table<V>, Fault>)
    requires WellFormed(t) && WellFormed(snapshot)
    ensures r.Success? <==>
      |t.rows| == 0 ||
      (NuclearColumn in t.columns && forall i :: 0 <= i < |t.rows| ==> Fillable(t, snapshot, i))
    ensures r.Success? ==>
      && WellFormed(r.value)
      && r.value.columns == t.columns
      && |r.value.rows| == |t.rows|
      && forall i :: 0 <= i < |t.rows| ==>
           && r.value.rows[i].ts == t.rows[i].ts
           && (forall c :: c in t.rows[i].cells && c != NuclearColumn ==> r.value.rows[i].cells[c] == t.rows[i].cells[c])
           && (t.rows[i].cells[NuclearColumn].Some? ==> r.value.rows[i] == t.rows[i])
           && (t.rows[i].cells[NuclearColumn].None? ==>
                 && i < |snapshot.rows| && NuclearColumn in snapshot.columns
                 && r.value.rows[i].cells[NuclearColumn] == snapshot.rows[i].cells[NuclearColumn])
  {
    if |t.rows| == 0 then Success(t)
    else if NuclearColumn !in t.columns then Failure(MissingColumn(NuclearColumn))
    else
      match FillRows(t, snapshot, |t.rows|)
      case Failure(e) => Failure(e)
      case Success(rows) => Success(Table(t.columns, rows))
  }
}
