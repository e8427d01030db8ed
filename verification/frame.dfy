/**
 A data frame as the pipeline sees it: an ordered list of named columns and
 a sequence of rows, each keyed by an hour timestamp (microseconds since the
 Unix epoch) and holding one nullable cell per column. The row label of a
 frame whose index was reset is its position in `rows`.
 */
module Frame {
  import opened Wrappers

  type Column = string

  /** `s.endswith(suffix)`. */
  predicate EndsWith(s: string, suffix: string) {
    |suffix| <= |s| && s[|s| - |suffix|..] == suffix
  }

  datatype Row<V> = Row(ts: int, cells: map<Column, Option<V>>)

  datatype Table<V> = Table(columns: seq<Column>, rows: seq<Row<V>>)

  /** The errors the pipeline raises. */
  datatype Fault =
    | DuplicateLabels          // reindex on an index with repeated timestamps
    | MissingColumn(c: Column) // a column lookup that raises KeyError
    | MissingLabel(i: int)     // a row-label lookup that raises KeyError
    | DuplicateColumns         // a merge whose suffixes would repeat a column name
    | MissingCutoffRow         // `row.index[0]` on an empty selection

  predicate Distinct<T(==)>(s: seq<T>) {
    forall i, j :: 0 <= i < j < |s| ==> s[i] != s[j]
  }

  predicate StrictlyIncreasing(s: seq<int>) {
    forall i, j :: 0 <= i < j < |s| ==> s[i] < s[j]
  }

  function Elems<T>(s: seq<T>): set<T> {
    set x | x in s
  }

  function ColumnSet<V>(t: Table<V>): set<Column> {
    Elems(t.columns)
  }

  /** Every row carries exactly the table's columns, and no column is named twice. */
  predicate WellFormed<V>(t: Table<V>) {
    && Distinct(t.columns)
    && forall i :: 0 <= i < |t.rows| ==> t.rows[i].cells.Keys == ColumnSet(t)
  }

  function Timestamps<V>(rows: seq<Row<V>>): (r: seq<int>)
    ensures |r| == |rows|
    ensures forall i :: 0 <= i < |rows| ==> r[i] == rows[i].ts
  {
    seq(|rows|, i requires 0 <= i < |rows| => rows[i].ts)
  }

  lemma TimestampsAppend<V>(a: seq<Row<V>>, b: seq<Row<V>>)
    ensures Timestamps(a + b) == Timestamps(a) + Timestamps(b)
    ensures Elems(Timestamps(a + b)) == Elems(Timestamps(a)) + Elems(Timestamps(b))
  {
    assert Timestamps(a + b) == Timestamps(a) + Timestamps(b);
    ElemsAppend(Timestamps(a), Timestamps(b));
  }

  lemma TimestampsConstant<V>(rows: seq<Row<V>>, ts: int)
    requires |rows| > 0 && forall k :: 0 <= k < |rows| ==> rows[k].ts == ts
    ensures Elems(Timestamps(rows)) == {ts}
  {
    assert Timestamps(rows)[0] == ts;
  }

  /** The cell of column `c`, or missing when the row has no such column. */
  function CellOr<V>(row: Row<V>, c: Column): Option<V> {
    if c in row.cells then row.cells[c] else None
  }

  /** A row with every cell missing, as pandas creates for a label it adds. */
  function NullRow<V>(columns: seq<Column>, ts: int): (r: Row<V>)
    ensures r.ts == ts && r.cells.Keys == Elems(columns)
    ensures forall c :: c in r.cells ==> r.cells[c] == None
  {
    Row(ts, map c | c in columns :: None)
  }

  /** A row in which no cell is missing. */
  predicate Complete<V>(r: Row<V>) {
    forall c :: c in r.cells ==> r.cells[c].Some?
  }

  /** The position of the first row stamped `ts`, if any. */
  function FindTs<V>(rows: seq<Row<V>>, ts: int): (r: Option<nat>)
    ensures r.Some? ==> r.value < |rows| && rows[r.value].ts == ts
    ensures r.Some? ==> forall j :: 0 <= j < r.value ==> rows[j].ts != ts
    ensures r.None? ==> forall j :: 0 <= j < |rows| ==> rows[j].ts != ts
  {
    IndexOf(Timestamps(rows), ts)
  }

  /** The first position holding `x`, if any. */
  function IndexOf(s: seq<int>, x: int): (r: Option<nat>)
    ensures r.Some? ==> r.value < |s| && s[r.value] == x
    ensures r.Some? ==> forall j :: 0 <= j < r.value ==> s[j] != x
    ensures r.None? ==> forall j :: 0 <= j < |s| ==> s[j] != x
  {
    if |s| == 0 then None
    else if s[0] == x then Some(0)
    else match IndexOf(s[1..], x)
      case None => None
      case Some(j) => Some(j + 1)
  }

  /**
   `t` with column `c` present: unchanged when it already is, otherwise with
   `c` appended to the column list and missing in every row (pandas' column
   enlargement on assignment).
   */
  function WithColumn<V>(t: Table<V>, c: Column): (r: Table<V>)
    requires WellFormed(t)
    ensures WellFormed(r) && c in r.columns
    ensures c in t.columns ==> r == t
    ensures c !in t.columns ==> r.columns == t.columns + [c]
    ensures |r.rows| == |t.rows|
    ensures forall i :: 0 <= i < |t.rows| ==>
      && r.rows[i].ts == t.rows[i].ts
      && (forall d :: d in t.rows[i].cells ==> r.rows[i].cells[d] == t.rows[i].cells[d])
      && (c !in t.columns ==> r.rows[i].cells[c] == None)
  {
    if c in t.columns then t
    else
      var rows := seq(|t.rows|, i requires 0 <= i < |t.rows| =>
        Row(t.rows[i].ts, t.rows[i].cells[c := None]));
      Table(t.columns + [c], rows)
  }

  lemma ElemsCons<T>(x: T, s: seq<T>)
    ensures Elems([x] + s) == {x} + Elems(s)
  {
    var xs := [x] + s;
    forall y | y in Elems(xs) ensures y in {x} + Elems(s) {
      var k :| 0 <= k < |xs| && xs[k] == y;
      if k > 0 { assert s[k - 1] == y; }
    }
    forall y | y in Elems(s) ensures y in Elems(xs) {
      var k :| 0 <= k < |s| && s[k] == y;
      assert xs[k + 1] == y;
    }
  }

  lemma ElemsAppend<T>(a: seq<T>, b: seq<T>)
    ensures Elems(a + b) == Elems(a) + Elems(b)
  {
    forall x ensures x in Elems(a + b) <==> x in Elems(a) || x in Elems(b) {
      if x in Elems(a + b) {
        var k :| 0 <= k < |a + b| && (a + b)[k] == x;
        if k >= |a| { assert b[k - |a|] == x; }
      }
      if x in Elems(b) {
        var k :| 0 <= k < |b| && b[k] == x;
        assert (a + b)[|a| + k] == x;
      }
    }
  }

  lemma DistinctCons<T>(x: T, s: seq<T>)
    ensures Distinct([x] + s) <==> x !in s && Distinct(s)
  {
    var xs := [x] + s;
    if Distinct(xs) {
      forall i, j | 0 <= i < j < |s| ensures s[i] != s[j] {
        assert xs[i + 1] == s[i] && xs[j + 1] == s[j];
      }
      forall k | 0 <= k < |s| ensures s[k] != x {
        assert xs[k + 1] == s[k] && xs[0] == x && 0 < k + 1;
      }
    }
  }

  /** The columns of `cols` not in `drop`, in their original order. */
  function Without(cols: seq<Column>, drop: set<Column>): (r: seq<Column>)
    ensures Elems(r) == Elems(cols) - drop
    ensures Distinct(cols) ==> Distinct(r)
  {
    if |cols| == 0 then []
    else
      var rest := Without(cols[1..], drop);
      assert cols == [cols[0]] + cols[1..];
      ElemsCons(cols[0], cols[1..]);
      DistinctCons(cols[0], cols[1..]);
      if cols[0] in drop then rest
      else
        ElemsCons(cols[0], rest);
        DistinctCons(cols[0], rest);
        [cols[0]] + rest
  }

  /** `df.drop(columns=drop)` for columns that are all present. */
  function DropColumns<V>(t: Table<V>, drop: set<Column>): (r: Table<V>)
    requires WellFormed(t)
    ensures WellFormed(r)
    ensures ColumnSet(r) == ColumnSet(t) - drop
    ensures |r.rows| == |t.rows|
    ensures forall i :: 0 <= i < |t.rows| ==>
      && r.rows[i].ts == t.rows[i].ts
      && forall c :: c in r.rows[i].cells ==> r.rows[i].cells[c] == t.rows[i].cells[c]
  {
    var rows := seq(|t.rows|, i requires 0 <= i < |t.rows| =>
      Row(t.rows[i].ts, t.rows[i].cells - drop));
    Table(Without(t.columns, drop), rows)
  }

  /** `df[c] = vals`: overwrite column `c`, appending it when it is new. */
  function AssignColumn<V>(t: Table<V>, c: Column, vals: seq<Option<V>>): (r: Table<V>)
    requires WellFormed(t) && |vals| == |t.rows|
    ensures WellFormed(r)
    ensures r.columns == if c in t.columns then t.columns else t.columns + [c]
    ensures |r.rows| == |t.rows|
    ensures forall i :: 0 <= i < |t.rows| ==>
      r.rows[i].ts == t.rows[i].ts && r.rows[i].cells == t.rows[i].cells[c := vals[i]]
  {
    var rows := seq(|t.rows|, i requires 0 <= i < |t.rows| =>
      Row(t.rows[i].ts, t.rows[i].cells[c := vals[i]]));
    if c in t.columns then Table(t.columns, rows)
    else
      DistinctCons(c, []);
      assert Distinct(t.columns + [c]);
      Table(t.columns + [c], rows)
  }
}
