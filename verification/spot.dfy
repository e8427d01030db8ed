/**
 `update_spot`: left-join the fetched day-ahead prices onto the table by
 timestamp and collapse the `true_spot_price_x` / `true_spot_price_y`
 siblings the join leaves when the table already had a price column.
 */
module Spot {
  import opened Wrappers
  import opened Frame
  import opened Coalesce
  import Nordpool

  type Price<V> = Nordpool.Price<V>

  const SpotColumn: Column := "true_spot_price"
  const SpotX: Column := "true_spot_price_x"
  const SpotY: Column := "true_spot_price_y"

  lemma SpotNames()
    ensures SpotX == SpotColumn + "_x" && SpotY == SpotColumn + "_y"
    ensures !IsX(SpotColumn) && !IsY(SpotColumn)
    ensures IsX(SpotX) && !IsY(SpotX) && IsY(SpotY) && !IsX(SpotY)
    ensures Stem(SpotX) == SpotColumn && Stem(SpotY) == SpotColumn
  {
    SuffixFacts(SpotColumn);
  }

  function PriceStamps<V>(prices: seq<Price<V>>): (r: seq<int>)
    ensures |r| == |prices| && forall k :: 0 <= k < |prices| ==> r[k] == prices[k].ts
  {
    seq(|prices|, k requires 0 <= k < |prices| => prices[k].ts)
  }

  /** The fetched value at instant `ts`: the first price row stamped `ts`, or missing when none is. */
  function PriceAt<V>(prices: seq<Price<V>>, ts: int): (r: Option<V>)
    ensures (forall k :: 0 <= k < |prices| ==> prices[k].ts != ts) ==> r == None
    ensures forall k :: 0 <= k < |prices| && prices[k].ts == ts && (forall j :: 0 <= j < k ==> prices[j].ts != ts) ==>
      r == prices[k].value
  {
    match IndexOf(PriceStamps(prices), ts)
    case None => None
    case Some(k) => prices[k].value
  }

  /** The positions of the price rows stamped `ts`, ascending. */
  function MatchPositions<V>(prices: seq<Price<V>>, ts: int): (r: seq<int>)
    ensures StrictlyIncreasing(r)
    ensures forall m :: 0 <= m < |r| ==> 0 <= r[m] < |prices|
    ensures forall k :: 0 <= k < |prices| ==> (prices[k].ts == ts <==> k in r)
  {
    if |prices| == 0 then []
    else
      var prefix := prices[..|prices| - 1];
      var rest := MatchPositions(prefix, ts);
      assert forall k :: 0 <= k < |prefix| ==> prefix[k] == prices[k];
      if prices[|prices| - 1].ts == ts then rest + [|prices| - 1] else rest
  }

  /**
   The values of the price rows stamped `ts`, in price order: the `m`-th is
   the value of the `m`-th such row.
   */
  function Matches<V>(prices: seq<Price<V>>, ts: int): (r: seq<Option<V>>)
    ensures |r| == |MatchPositions(prices, ts)|
  {
    var pos := MatchPositions(prices, ts);
    seq(|pos|, m requires 0 <= m < |pos| => prices[pos[m]].value)
  }

  /**
   There is a matching value exactly when some price row is stamped `ts`;
   with unique price timestamps there is at most one, the fetched value
   at `ts`.
   */
  lemma MatchesOf<V>(prices: seq<Price<V>>, ts: int)
    ensures var ms := Matches(prices, ts);
      && (|ms| == 0 <==> forall k :: 0 <= k < |prices| ==> prices[k].ts != ts)
      && (Distinct(PriceStamps(prices)) ==> |ms| <= 1)
      && (Distinct(PriceStamps(prices)) && |ms| == 1 ==> ms[0] == PriceAt(prices, ts))
  {
    var pos := MatchPositions(prices, ts);
    if |pos| > 0 {
      assert pos[0] in pos;
      assert forall j :: 0 <= j < pos[0] ==> prices[j].ts != ts;
    }
    MatchesOfDistinct(prices, ts);
  }

  /** With unique price timestamps at most one price row matches. */
  lemma MatchesOfDistinct<V>(prices: seq<Price<V>>, ts: int)
    ensures Distinct(PriceStamps(prices)) ==> |MatchPositions(prices, ts)| <= 1
  {
    var pos := MatchPositions(prices, ts);
    if |pos| >= 2 {
      assert pos[0] in pos && pos[1] in pos;
      assert !Distinct(PriceStamps(prices)) by {
        assert PriceStamps(prices)[pos[0]] == PriceStamps(prices)[pos[1]];
      }
    }
  }

  /** The matching values are those of the matching price rows, in price order. */
  lemma MatchesSelect<V>(prices: seq<Price<V>>, ts: int)
    ensures var ms := Matches(prices, ts); var pos := MatchPositions(prices, ts);
      && |ms| == |pos|
      && forall m :: 0 <= m < |ms| ==> ms[m] == prices[pos[m]].value
  {
  }

  /** The number of joined rows one table row at instant `ts` yields: one per match, and at least one. */
  function BlockSize<V>(prices: seq<Price<V>>, ts: int): (r: nat)
    ensures r >= 1
  {
    if |Matches(prices, ts)| == 0 then 1 else |Matches(prices, ts)|
  }

  /** The fetched value the `k`-th joined row of a table row at instant `ts` carries. */
  function MatchOr<V>(prices: seq<Price<V>>, ts: int, k: nat): Option<V>
    requires k < BlockSize(prices, ts)
  {
    if |Matches(prices, ts)| == 0 then None else Matches(prices, ts)[k]
  }

  /** The `k`-th joined row of a table row. */
  function BlockRow<V>(row: Row<V>, prices: seq<Price<V>>, clash: bool, k: nat): Row<V>
    requires clash ==> SpotColumn in row.cells
    requires k < BlockSize(prices, row.ts)
  {
    Row(row.ts, JoinedCells(row.cells, clash, MatchOr(prices, row.ts, k)))
  }

  /** The position in the joined rows where the rows of table row `i` begin. */
  function BlockStart<V>(rows: seq<Row<V>>, prices: seq<Price<V>>, i: nat): nat
    requires i <= |rows|
  {
    if i == 0 then 0 else BlockSize(prices, rows[0].ts) + BlockStart(rows[1..], prices, i - 1)
  }

  /** The cells of one joined row; with a clash the table's price column becomes `_x` and the fetched one `_y`. */
  function JoinedCells<V>(cells: map<Column, Option<V>>, clash: bool, v: Option<V>): map<Column, Option<V>>
    requires clash ==> SpotColumn in cells
  {
    if clash then (cells - {SpotColumn})[SpotX := cells[SpotColumn]][SpotY := v]
    else cells[SpotColumn := v]
  }

  /** The columns of a joined row. */
  function JoinedKeys(keys: set<Column>, clash: bool): set<Column> {
    if clash then keys - {SpotColumn} + {SpotX, SpotY} else keys + {SpotColumn}
  }

  /** The joined rows of one table row: one per matching price row, or one with a missing price. */
  function JoinRow<V>(row: Row<V>, prices: seq<Price<V>>, clash: bool): (r: seq<Row<V>>)
    requires clash ==> SpotColumn in row.cells
    ensures |r| == BlockSize(prices, row.ts)
  {
    seq(BlockSize(prices, row.ts), k requires 0 <= k < BlockSize(prices, row.ts) => BlockRow(row, prices, clash, k))
  }

  /**
   Every joined row of a table row keeps its timestamp and has the joined
   columns; with unique price timestamps there is exactly one, carrying the
   fetched value at that timestamp.
   */
  lemma JoinRowFacts<V>(row: Row<V>, prices: seq<Price<V>>, clash: bool)
    requires clash ==> SpotColumn in row.cells
    ensures var r := JoinRow(row, prices, clash);
      && (forall k :: 0 <= k < |r| ==> r[k].ts == row.ts)
      && (forall k :: 0 <= k < |r| ==> r[k].cells.Keys == JoinedKeys(row.cells.Keys, clash))
      && (Distinct(PriceStamps(prices)) ==> r == [Row(row.ts, JoinedCells(row.cells, clash, PriceAt(prices, row.ts)))])
  {
    MatchesOf(prices, row.ts);
  }

  lemma ConcatKeys<V>(a: seq<Row<V>>, b: seq<Row<V>>, keys: set<Column>)
    requires forall k :: 0 <= k < |a| ==> a[k].cells.Keys == keys
    requires forall k :: 0 <= k < |b| ==> b[k].cells.Keys == keys
    ensures forall k :: 0 <= k < |a + b| ==> (a + b)[k].cells.Keys == keys
  {
    forall k | 0 <= k < |a + b| ensures (a + b)[k].cells.Keys == keys {
      if k >= |a| { assert (a + b)[k] == b[k - |a|]; }
    }
  }

  /** On a clash every table row has a price cell to rename. */
  predicate Clashes<V>(rows: seq<Row<V>>, clash: bool) {
    forall i :: 0 <= i < |rows| ==> (clash ==> SpotColumn in rows[i].cells)
  }

  /** The joined rows of a table, in table order. */
  function JoinRows<V>(rows: seq<Row<V>>, prices: seq<Price<V>>, clash: bool): (r: seq<Row<V>>)
    requires Clashes(rows, clash)
    ensures |r| >= |rows|
  {
    if |rows| == 0 then []
    else JoinRow(rows[0], prices, clash) + JoinRows(rows[1..], prices, clash)
  }

  /** Joined rows of rows that all have the columns `keys` all have the joined columns. */
  lemma {:induction false} JoinRowsKeys<V>(rows: seq<Row<V>>, prices: seq<Price<V>>, clash: bool, keys: set<Column>)
    requires forall i :: 0 <= i < |rows| ==> rows[i].cells.Keys == keys
    requires clash ==> SpotColumn in keys
    ensures forall k :: 0 <= k < |JoinRows(rows, prices, clash)| ==>
      JoinRows(rows, prices, clash)[k].cells.Keys == JoinedKeys(keys, clash)
  {
    if |rows| > 0 {
      JoinRowsKeys(rows[1..], prices, clash, keys);
      JoinRowFacts(rows[0], prices, clash);
      ConcatKeys(JoinRow(rows[0], prices, clash), JoinRows(rows[1..], prices, clash), JoinedKeys(keys, clash));
    }
  }

  /** The blocks laid end to end. */
  function Concat<T>(blocks: seq<seq<T>>): (r: seq<T>) {
    if |blocks| == 0 then [] else blocks[0] + Concat(blocks[1..])
  }

  /** Where block `i` begins in `Concat(blocks)`. */
  function Offset<T>(blocks: seq<seq<T>>, i: nat): nat
    requires i <= |blocks|
  {
    if i == 0 then 0 else |blocks[0]| + Offset(blocks[1..], i - 1)
  }

  lemma {:induction false} ConcatLength<T>(blocks: seq<seq<T>>)
    ensures |Concat(blocks)| == Offset(blocks, |blocks|)
  {
    if |blocks| > 0 {
      ConcatLength(blocks[1..]);
    }
  }

  /** Element `k` of block `i` sits at `Offset(blocks, i) + k`. */
  lemma {:induction false} ConcatAt<T>(blocks: seq<seq<T>>, i: nat, k: nat)
    requires i < |blocks| && k < |blocks[i]|
    ensures Offset(blocks, i) + k < |Concat(blocks)|
    ensures Concat(blocks)[Offset(blocks, i) + k] == blocks[i][k]
  {
    ConcatLength(blocks);
    if i > 0 {
      assert blocks[1..][i - 1] == blocks[i];
      ConcatAt(blocks[1..], i - 1, k);
      ConcatLength(blocks[1..]);
    }
  }

  /**
   `joined` is the left join of `rows`: table row `i` yields a block of
   `BlockSize` joined rows, one per matching price row in price order, or a
   single row with a missing price; the blocks follow the table order and
   nothing else is produced.
   */
  ghost predicate JoinedBlocks<V>(rows: seq<Row<V>>, prices: seq<Price<V>>, clash: bool, joined: seq<Row<V>>)
    requires Clashes(rows, clash)
  {
    && |joined| == BlockStart(rows, prices, |rows|)
    && forall i, k :: 0 <= i < |rows| && 0 <= k < BlockSize(prices, rows[i].ts) ==> BlockAt(rows, prices, clash, joined, i, k)
  }

  /** The `k`-th row of table row `i`'s block is in its place in `joined`. */
  ghost predicate BlockAt<V>(rows: seq<Row<V>>, prices: seq<Price<V>>, clash: bool, joined: seq<Row<V>>, i: nat, k: nat)
    requires Clashes(rows, clash) && i < |rows| && k < BlockSize(prices, rows[i].ts)
  {
    && BlockStart(rows, prices, i) + k < |joined|
    && joined[BlockStart(rows, prices, i) + k] == BlockRow(rows[i], prices, clash, k)
  }

  lemma JoinRowsBlocks<V>(rows: seq<Row<V>>, prices: seq<Price<V>>, clash: bool)
    requires Clashes(rows, clash)
    ensures JoinedBlocks(rows, prices, clash, JoinRows(rows, prices, clash))
  {
    var joined := JoinRows(rows, prices, clash);
    JoinRowsLength(rows, prices, clash);
    forall i, k | 0 <= i < |rows| && 0 <= k < BlockSize(prices, rows[i].ts)
      ensures BlockAt(rows, prices, clash, joined, i, k)
    {
      JoinRowsAt(rows, prices, clash, i, k);
    }
  }

  lemma JoinRowsLength<V>(rows: seq<Row<V>>, prices: seq<Price<V>>, clash: bool)
    requires Clashes(rows, clash)
    ensures |JoinRows(rows, prices, clash)| == BlockStart(rows, prices, |rows|)
  {
    JoinRowsConcat(rows, prices, clash);
    BlockStartOffset(rows, prices, clash, |rows|);
    ConcatLength(Blocks(rows, prices, clash));
  }

  /** The `k`-th joined row of table row `i`. */
  lemma JoinRowsAt<V>(rows: seq<Row<V>>, prices: seq<Price<V>>, clash: bool, i: nat, k: nat)
    requires Clashes(rows, clash)
    requires i < |rows| && k < BlockSize(prices, rows[i].ts)
    ensures BlockStart(rows, prices, i) + k < |JoinRows(rows, prices, clash)|
    ensures JoinRows(rows, prices, clash)[BlockStart(rows, prices, i) + k] == BlockRow(rows[i], prices, clash, k)
  {
    var blocks := Blocks(rows, prices, clash);
    JoinRowsConcat(rows, prices, clash);
    BlockStartOffset(rows, prices, clash, i);
    ConcatAt(blocks, i, k);
  }

  /** The joined rows of each table row, one block per row. */
  function Blocks<V>(rows: seq<Row<V>>, prices: seq<Price<V>>, clash: bool): (r: seq<seq<Row<V>>>)
    requires Clashes(rows, clash)
    ensures |r| == |rows|
    ensures forall i :: 0 <= i < |rows| ==> r[i] == JoinRow(rows[i], prices, clash)
  {
    seq(|rows|, i requires 0 <= i < |rows| => JoinRow(rows[i], prices, clash))
  }

  lemma BlocksTail<V>(rows: seq<Row<V>>, prices: seq<Price<V>>, clash: bool)
    requires Clashes(rows, clash) && 0 < |rows|
    ensures Blocks(rows, prices, clash)[1..] == Blocks(rows[1..], prices, clash)
  {
    var a := Blocks(rows, prices, clash)[1..];
    var b := Blocks(rows[1..], prices, clash);
    forall i | 0 <= i < |a| ensures a[i] == b[i] {
      assert rows[1..][i] == rows[i + 1];
    }
  }

  lemma {:induction false} JoinRowsConcat<V>(rows: seq<Row<V>>, prices: seq<Price<V>>, clash: bool)
    requires Clashes(rows, clash)
    ensures JoinRows(rows, prices, clash) == Concat(Blocks(rows, prices, clash))
  {
    if |rows| > 0 {
      JoinRowsConcat(rows[1..], prices, clash);
      BlocksTail(rows, prices, clash);
    }
  }

  lemma {:induction false} BlockStartOffset<V>(rows: seq<Row<V>>, prices: seq<Price<V>>, clash: bool, i: nat)
    requires Clashes(rows, clash) && i <= |rows|
    ensures BlockStart(rows, prices, i) == Offset(Blocks(rows, prices, clash), i)
  {
    if i > 0 {
      BlockStartOffset(rows[1..], prices, clash, i - 1);
      BlocksTail(rows, prices, clash);
    }
  }

  /** With unique price timestamps every table row yields exactly one joined row, in place. */
  lemma JoinRowsUnique<V>(rows: seq<Row<V>>, prices: seq<Price<V>>, clash: bool)
    requires Clashes(rows, clash)
    requires Distinct(PriceStamps(prices))
    ensures var r := JoinRows(rows, prices, clash);
      && |r| == |rows|
      && forall i :: 0 <= i < |rows| ==>
           r[i] == Row(rows[i].ts, JoinedCells(rows[i].cells, clash, PriceAt(prices, rows[i].ts)))
  {
    var r := JoinRows(rows, prices, clash);
    JoinRowsBlocks(rows, prices, clash);
    BlockStartUnique(rows, prices, |rows|);
    forall i | 0 <= i < |rows|
      ensures r[i] == Row(rows[i].ts, JoinedCells(rows[i].cells, clash, PriceAt(prices, rows[i].ts)))
    {
      BlockSizeUnique(prices, rows[i].ts);
      BlockStartUnique(rows, prices, i);
      JoinRowsAt(rows, prices, clash, i, 0);
    }
  }

  /** With unique price timestamps a table row's block is one row carrying the fetched value at its timestamp. */
  lemma BlockSizeUnique<V>(prices: seq<Price<V>>, ts: int)
    requires Distinct(PriceStamps(prices))
    ensures BlockSize(prices, ts) == 1 && MatchOr(prices, ts, 0) == PriceAt(prices, ts)
  {
    MatchesOf(prices, ts);
  }

  /** With unique price timestamps block `i` starts at position `i`. */
  lemma {:induction false} BlockStartUnique<V>(rows: seq<Row<V>>, prices: seq<Price<V>>, i: nat)
    requires Distinct(PriceStamps(prices)) && i <= |rows|
    ensures BlockStart(rows, prices, i) == i
  {
    if i > 0 {
      BlockSizeUnique(prices, rows[0].ts);
      BlockStartUnique(rows[1..], prices, i - 1);
    }
  }

  /** `cols` with `a` renamed to `b` in place. */
  function Rename(cols: seq<Column>, a: Column, b: Column): (r: seq<Column>)
    ensures |r| == |cols|
    ensures forall k :: 0 <= k < |cols| ==> r[k] == if cols[k] == a then b else cols[k]
  {
    seq(|cols|, k requires 0 <= k < |cols| => if cols[k] == a then b else cols[k])
  }

  lemma RenameFacts(cols: seq<Column>, a: Column, b: Column)
    requires Distinct(cols) && a in cols && b !in cols
    ensures Distinct(Rename(cols, a, b))
    ensures Elems(Rename(cols, a, b)) == Elems(cols) - {a} + {b}
  {
    var r := Rename(cols, a, b);
    var k :| 0 <= k < |cols| && cols[k] == a;
    assert r[k] == b;
    forall c | c in Elems(cols) - {a} + {b} ensures c in Elems(r) {
      if c != b {
        var j :| 0 <= j < |cols| && cols[j] == c;
        assert r[j] == c;
      }
    }
  }

  /** The joined column list: the table's columns then the fetched price column, suffixed on a clash. */
  function JoinedColumns(cols: seq<Column>): (r: seq<Column>)
    requires Distinct(cols)
    requires SpotColumn in cols ==> SpotX !in cols && SpotY !in cols
    ensures Distinct(r)
    ensures Elems(r) == JoinedKeys(Elems(cols), SpotColumn in cols)
  {
    SpotNames();
    if SpotColumn in cols then
      RenameFacts(cols, SpotColumn, SpotX);
      ElemsCons(SpotY, []);
      DistinctCons(SpotY, []);
      Rename(cols, SpotColumn, SpotX) + [SpotY]
    else
      ElemsCons(SpotColumn, []);
      DistinctCons(SpotColumn, []);
      cols + [SpotColumn]
  }

  /**
   `pd.merge(df, price_df, on='Timestamp', how='left')`. A clash whose
   suffixed names are already taken is refused: pandas raises MergeError
   for `true_spot_price_x` and would otherwise repeat `true_spot_price_y`.
   */
  function LeftJoin<V>(t: Table<V>, prices: seq<Price<V>>): (r: Result<Table<V>, Fault>)
    requires WellFormed(t)
    ensures r.Failure? <==> SpotColumn in t.columns && (SpotX in t.columns || SpotY in t.columns)
    ensures r.Success? ==>
      && WellFormed(r.value)
      && ColumnSet(r.value) == JoinedKeys(ColumnSet(t), SpotColumn in t.columns)
      && |r.value.rows| >= |t.rows|
      && JoinedBlocks(t.rows, prices, SpotColumn in t.columns, r.value.rows)
  {
    if SpotColumn in t.columns && (SpotX in t.columns || SpotY in t.columns) then Failure(DuplicateColumns)
    else
      JoinRowsBlocks(t.rows, prices, SpotColumn in t.columns);
      JoinRowsKeys(t.rows, prices, SpotColumn in t.columns, ColumnSet(t));
      Success(Table(JoinedColumns(t.columns), JoinRows(t.rows, prices, SpotColumn in t.columns)))
  }

  /** The joined rows of a successful merge, as the recursive join builds them. */
  lemma JoinedRowsAre<V>(t: Table<V>, prices: seq<Price<V>>)
    requires WellFormed(t) && LeftJoin(t, prices).Success?
    ensures LeftJoin(t, prices).value.rows == JoinRows(t.rows, prices, SpotColumn in t.columns)
  {
  }

  /**
   With unique price timestamps the left join keeps every table row, in
   order, and gives each the fetched price at its own timestamp, or a
   missing price; when the table already had a price column that column
   becomes `true_spot_price_x` and the fetched one `true_spot_price_y`.
   */
  lemma LeftJoinUnique<V>(t: Table<V>, prices: seq<Price<V>>)
    requires WellFormed(t) && Distinct(PriceStamps(prices))
    requires LeftJoin(t, prices).Success?
    ensures var r := LeftJoin(t, prices).value;
      && |r.rows| == |t.rows|
      && forall i :: 0 <= i < |t.rows| ==>
           && r.rows[i].ts == t.rows[i].ts
           && (SpotColumn !in t.columns ==> r.rows[i].cells == t.rows[i].cells[SpotColumn := PriceAt(prices, t.rows[i].ts)])
           && (SpotColumn in t.columns ==>
                 && r.rows[i].cells[SpotX] == t.rows[i].cells[SpotColumn]
                 && r.rows[i].cells[SpotY] == PriceAt(prices, t.rows[i].ts)
                 && forall c :: c in t.rows[i].cells && c != SpotColumn ==> r.rows[i].cells[c] == t.rows[i].cells[c])
  {
    SpotNames();
    JoinedRowsAre(t, prices);
    JoinRowsUnique(t.rows, prices, SpotColumn in t.columns);
  }

  /**
   Lines 174-184 of `util/sahkotin.py`: with no fetched prices the table is
   returned as it is; otherwise it is left-joined with the price table and
   cleaned up.
   */
  function UpdateSpot<V>(t: Table<V>, fetched: Option<seq<Nordpool.Triple<V>>>, parse: string -> int): (r: Result<Table<V>, Fault>)
    requires WellFormed(t)
    ensures |Nordpool.PriceTable(fetched, parse)| == 0 ==> r == Success(t)
    ensures r.Failure? <==>
      |Nordpool.PriceTable(fetched, parse)| > 0 && SpotColumn in t.columns && (SpotX in t.columns || SpotY in t.columns)
    ensures r.Success? ==> WellFormed(r.value) && |r.value.rows| >= |t.rows|
  {
    var prices := Nordpool.PriceTable(fetched, parse);
    if |prices| == 0 then Success(t)
    else
      match LeftJoin(t, prices)
      case Failure(e) => Failure(e)
      case Success(joined) => Success(CleanUp(joined))
  }

  /** No column name ends in `_x` or `_y`, as in the persisted table. */
  ghost predicate Plain<V>(t: Table<V>) {
    forall c :: c in t.columns ==> !IsX(c) && !IsY(c)
  }

  /** The joined table of a plain table has `true_spot_price_x` as its only `_x` column. */
  lemma JoinedNoNested<V>(t: Table<V>, prices: seq<Price<V>>)
    requires WellFormed(t) && Plain(t) && LeftJoin(t, prices).Success?
    ensures var m := LeftJoin(t, prices).value;
      && NoNested(ColumnSet(m))
      && (forall c :: c in m.columns && IsX(c) ==> c == SpotX)
  {
    SpotNames();
    var m := LeftJoin(t, prices).value;
    forall c | c in m.columns && IsX(c) ensures c == SpotX {
      assert c in ColumnSet(m);
    }
  }

  /** A fetched price fills the price cell only where it was missing; every other cell is kept. */
  ghost predicate FilledFrom<V>(t: Table<V>, prices: seq<Price<V>>, r: Table<V>)
    requires WellFormed(t) && WellFormed(r) && |r.rows| == |t.rows|
  {
    && ColumnSet(r) == ColumnSet(t) + {SpotColumn}
    && forall i :: 0 <= i < |t.rows| ==>
         && r.rows[i].ts == t.rows[i].ts
         && r.rows[i].cells[SpotColumn] == Fill(CellOr(t.rows[i], SpotColumn), PriceAt(prices, t.rows[i].ts))
         && forall c :: c in t.rows[i].cells && c != SpotColumn ==> r.rows[i].cells[c] == t.rows[i].cells[c]
  }


  /** After the clean-up, the columns are those of the table plus the price column. */
  lemma UpdatedColumn<V>(t: Table<V>, prices: seq<Price<V>>, c: Column)
    requires WellFormed(t) && Plain(t) && LeftJoin(t, prices).Success?
    ensures LeftJoin(t, prices).value.columns == JoinedColumns(t.columns)
    ensures NoNested(ColumnSet(LeftJoin(t, prices).value))
    ensures c in CleanUp(LeftJoin(t, prices).value).columns <==> c in t.columns || c == SpotColumn
  {
    SpotNames();
    var m := LeftJoin(t, prices).value;
    JoinedNoNested(t, prices);
    CoalesceColumns(m, c);
    SuffixFacts(c);
    assert c in m.columns <==> c in ColumnSet(m);
    assert c in t.columns <==> c in ColumnSet(t);
    if c + "_x" in m.columns {
      assert c + "_x" == SpotX;
    }
  }

  /** The cells of a plain column other than the price column pass through the clean-up. */
  lemma PlainCellsPass<V>(m: Table<V>, c: Column)
    requires WellFormed(m) && NoNested(ColumnSet(m))
    requires forall x :: x in m.columns && IsX(x) ==> x == SpotX
    requires c in m.columns && !IsX(c) && !IsY(c) && c != SpotColumn
    ensures var r := CleanUp(m);
      c in r.columns && forall i :: 0 <= i < |r.rows| ==> r.rows[i].cells[c] == m.rows[i].cells[c]
  {
    SpotNames();
    SuffixFacts(c);
    assert c + "_x" != SpotX;
    CoalescePassThrough(m, c);
  }

  /** The price cell after the clean-up, when the table already had a price column. */
  lemma UpdatedSpotCells<V>(t: Table<V>, prices: seq<Price<V>>)
    requires WellFormed(t) && Plain(t) && LeftJoin(t, prices).Success?
    ensures var m := LeftJoin(t, prices).value; var r := CleanUp(m);
      && SpotColumn in r.columns
      && forall i :: 0 <= i < |r.rows| ==>
           r.rows[i].cells[SpotColumn] ==
             (if SpotColumn in t.columns then Fill(m.rows[i].cells[SpotX], m.rows[i].cells[SpotY])
              else m.rows[i].cells[SpotColumn])
  {
    SpotNames();
    var m := LeftJoin(t, prices).value;
    UpdatedColumn(t, prices, SpotColumn);
    UpdatedColumn(t, prices, SpotX);
    if SpotColumn in t.columns {
      assert SpotX in ColumnSet(m) && SpotY in ColumnSet(m);
      CoalescePrecedence(m, SpotColumn);
    } else {
      assert SpotColumn in ColumnSet(m);
      assert SpotX !in ColumnSet(t);
      CoalescePassThrough(m, SpotColumn);
    }
  }

  /** The join followed by the clean-up, for unique price timestamps. */
  lemma JoinFills<V>(t: Table<V>, prices: seq<Price<V>>)
    requires WellFormed(t) && Plain(t) && Distinct(PriceStamps(prices))
    ensures LeftJoin(t, prices).Success?
    ensures var r := CleanUp(LeftJoin(t, prices).value);
      |r.rows| == |t.rows| && FilledFrom(t, prices, r)
  {
    SpotNames();
    assert SpotX !in ColumnSet(t) && SpotY !in ColumnSet(t);
    JoinedColumnSet(t, prices);
    JoinedStamps(t, prices);
    JoinedSpotCell(t, prices);
    var r := CleanUp(LeftJoin(t, prices).value);
    forall i, c | 0 <= i < |t.rows| && c in t.rows[i].cells && c != SpotColumn
      ensures r.rows[i].cells[c] == t.rows[i].cells[c]
    {
      assert c in ColumnSet(t);
      JoinedOtherCell(t, prices, c);
    }
  }

  lemma JoinedColumnSet<V>(t: Table<V>, prices: seq<Price<V>>)
    requires WellFormed(t) && Plain(t) && LeftJoin(t, prices).Success?
    ensures ColumnSet(CleanUp(LeftJoin(t, prices).value)) == ColumnSet(t) + {SpotColumn}
  {
    var r := CleanUp(LeftJoin(t, prices).value);
    forall c ensures c in ColumnSet(r) <==> c in ColumnSet(t) + {SpotColumn} {
      UpdatedColumn(t, prices, c);
    }
  }

  lemma JoinedOtherCell<V>(t: Table<V>, prices: seq<Price<V>>, c: Column)
    requires WellFormed(t) && Plain(t) && Distinct(PriceStamps(prices)) && LeftJoin(t, prices).Success?
    requires c in t.columns && c != SpotColumn
    ensures var r := CleanUp(LeftJoin(t, prices).value);
      && |r.rows| == |t.rows|
      && c in ColumnSet(r)
      && forall i :: 0 <= i < |t.rows| ==> r.rows[i].cells[c] == t.rows[i].cells[c]
  {
    LeftJoinUnique(t, prices);
    JoinedPassCell(t, prices, c);
  }

  lemma JoinedPassCell<V>(t: Table<V>, prices: seq<Price<V>>, c: Column)
    requires WellFormed(t) && Plain(t) && LeftJoin(t, prices).Success?
    requires c in t.columns && c != SpotColumn
    ensures var m := LeftJoin(t, prices).value; var r := CleanUp(m);
      && c in ColumnSet(r)
      && forall i :: 0 <= i < |r.rows| ==> r.rows[i].cells[c] == m.rows[i].cells[c]
  {
    SpotNames();
    var m := LeftJoin(t, prices).value;
    JoinedNoNested(t, prices);
    UpdatedColumn(t, prices, c);
    assert c in ColumnSet(t) && c in ColumnSet(m);
    PlainCellsPass(m, c);
  }

  lemma JoinedStamps<V>(t: Table<V>, prices: seq<Price<V>>)
    requires WellFormed(t) && Distinct(PriceStamps(prices)) && LeftJoin(t, prices).Success?
    ensures var r := CleanUp(LeftJoin(t, prices).value);
      && |r.rows| == |t.rows|
      && forall i :: 0 <= i < |t.rows| ==> r.rows[i].ts == t.rows[i].ts
  {
    LeftJoinUnique(t, prices);
  }

  lemma JoinedSpotCell<V>(t: Table<V>, prices: seq<Price<V>>)
    requires WellFormed(t) && Plain(t) && Distinct(PriceStamps(prices)) && LeftJoin(t, prices).Success?
    ensures var r := CleanUp(LeftJoin(t, prices).value);
      && |r.rows| == |t.rows|
      && SpotColumn in ColumnSet(r)
      && forall i :: 0 <= i < |t.rows| ==>
           r.rows[i].cells[SpotColumn] == Fill(CellOr(t.rows[i], SpotColumn), PriceAt(prices, t.rows[i].ts))
  {
    LeftJoinUnique(t, prices);
    UpdatedSpotCells(t, prices);
    JoinedNoNested(t, prices);
    UpdatedColumn(t, prices, SpotColumn);
  }

  /**
   With unique fetched timestamps and plain column names, the update keeps
   every row in order and leaves every other cell alone; its price cell
   keeps a known price and otherwise takes the fetched price at its
   timestamp, or stays missing.
   */
  lemma UpdateSpotFills<V>(t: Table<V>, fetched: Option<seq<Nordpool.Triple<V>>>, parse: string -> int)
    requires WellFormed(t) && Plain(t)
    requires Distinct(PriceStamps(Nordpool.PriceTable(fetched, parse)))
    requires |Nordpool.PriceTable(fetched, parse)| > 0
    ensures UpdateSpot(t, fetched, parse).Success?
    ensures var r := UpdateSpot(t, fetched, parse).value;
      |r.rows| == |t.rows| && FilledFrom(t, Nordpool.PriceTable(fetched, parse), r)
  {
    JoinFills(t, Nordpool.PriceTable(fetched, parse));
  }

  /** The joined rows carry the same set of timestamps as the table rows. */
  lemma {:induction false} JoinRowsStamps<V>(rows: seq<Row<V>>, prices: seq<Price<V>>, clash: bool)
    requires Clashes(rows, clash)
    ensures Elems(Timestamps(JoinRows(rows, prices, clash))) == Elems(Timestamps(rows))
  {
    if |rows| > 0 {
      var head := JoinRow(rows[0], prices, clash);
      var rest := JoinRows(rows[1..], prices, clash);
      JoinRowsStamps(rows[1..], prices, clash);
      JoinRowFacts(rows[0], prices, clash);
      assert JoinRows(rows, prices, clash) == head + rest;
      ConsStamps(rows, head, rest);
    }
  }

  lemma ConsStamps<V>(rows: seq<Row<V>>, head: seq<Row<V>>, rest: seq<Row<V>>)
    requires |rows| > 0 && |head| > 0 && forall k :: 0 <= k < |head| ==> head[k].ts == rows[0].ts
    requires Elems(Timestamps(rest)) == Elems(Timestamps(rows[1..]))
    ensures Elems(Timestamps(head + rest)) == Elems(Timestamps(rows))
  {
    TimestampsAppend(head, rest);
    TimestampsConstant(head, rows[0].ts);
    assert rows == [rows[0]] + rows[1..];
    TimestampsAppend([rows[0]], rows[1..]);
    TimestampsConstant([rows[0]], rows[0].ts);
  }

  /**
   The price update loses no hour and adds none; with unique fetched
   timestamps it keeps the timestamp column exactly.
   */
  lemma UpdateSpotStamps<V>(t: Table<V>, fetched: Option<seq<Nordpool.Triple<V>>>, parse: string -> int)
    requires WellFormed(t) && UpdateSpot(t, fetched, parse).Success?
    ensures Elems(Timestamps(UpdateSpot(t, fetched, parse).value.rows)) == Elems(Timestamps(t.rows))
    ensures Distinct(PriceStamps(Nordpool.PriceTable(fetched, parse))) ==>
      Timestamps(UpdateSpot(t, fetched, parse).value.rows) == Timestamps(t.rows)
  {
    var prices := Nordpool.PriceTable(fetched, parse);
    if |prices| > 0 {
      var m := LeftJoin(t, prices).value;
      var r := CleanUp(m);
      assert Timestamps(r.rows) == Timestamps(m.rows);
      JoinRowsStamps(t.rows, prices, SpotColumn in t.columns);
      if Distinct(PriceStamps(prices)) {
        LeftJoinUnique(t, prices);
      }
    }
  }

  /** Two price rows at one timestamp duplicate the table row they join: the join multiplies rows. */
  lemma DuplicatePricesRepeatRows()
    ensures var t: Table<int> := Table([], [Row(0, map[])]);
      var prices := [Nordpool.Price(0, Some(1)), Nordpool.Price(0, Some(2))];
      && LeftJoin(t, prices).Success?
      && |LeftJoin(t, prices).value.rows| == 2
      && LeftJoin(t, prices).value.rows[0].cells[SpotColumn] == Some(1)
      && LeftJoin(t, prices).value.rows[1].cells[SpotColumn] == Some(2)
  {
    var t: Table<int> := Table([], [Row(0, map[])]);
    var prices := [Nordpool.Price(0, Some(1)), Nordpool.Price(0, Some(2))];
    assert prices[..1][..0] == [];
    assert MatchPositions(prices[..1], 0) == [0];
    assert MatchPositions(prices, 0) == [0, 1];
    assert BlockSize(prices, 0) == 2;
    assert WellFormed(t);
    assert BlockStart(t.rows, prices, 1) == 2;
    assert BlockRow(t.rows[0], prices, false, 0).cells[SpotColumn] == Some(1);
    assert BlockRow(t.rows[0], prices, false, 1).cells[SpotColumn] == Some(2);
  }
}
