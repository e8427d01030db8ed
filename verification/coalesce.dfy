/**
 `clean_up_df_after_merge`: after a join has split a column into `b_x`
 (left, existing) and `b_y` (right, fetched) siblings, rebuild `b` from them
 and drop the siblings. The loop walks the column list as it was on entry,
 while its membership test sees the columns added so far.
 */
module Coalesce {
  import opened Wrappers
  import opened Frame

  predicate IsX(c: Column) { EndsWith(c, "_x") }
  predicate IsY(c: Column) { EndsWith(c, "_y") }

  /** `c[:-2]`. */
  function Stem(c: Column): Column
    requires |c| >= 2
  {
    c[..|c| - 2]
  }

  lemma SuffixFacts(b: Column)
    ensures IsX(b + "_x") && Stem(b + "_x") == b && !IsY(b + "_x")
    ensures IsY(b + "_y") && Stem(b + "_y") == b && !IsX(b + "_y")
  {
    assert (b + "_x")[|b|..] == "_x";
    assert (b + "_y")[|b|..] == "_y";
    assert (b + "_x")[..|b|] == b;
    assert (b + "_y")[..|b|] == b;
  }

  lemma StemX(c: Column)
    requires IsX(c)
    ensures Stem(c) + "_x" == c && !IsY(c)
  {
    assert c == c[..|c| - 2] + c[|c| - 2..];
  }

  lemma StemY(c: Column)
    requires IsY(c)
    ensures Stem(c) + "_y" == c && !IsX(c)
  {
    assert c == c[..|c| - 2] + c[|c| - 2..];
  }

  /** `x.fillna(y)` on one cell: the left value when known, the right one otherwise. */
  function Fill<V>(x: Option<V>, y: Option<V>): (r: Option<V>)
    ensures x.Some? ==> r == x
    ensures x.None? ==> r == y
  {
    if x.Some? then x else y
  }

  /** The loop state: the table so far and the columns marked for removal. */
  datatype Scan<V> = Scan(table: Table<V>, marked: set<Column>)

  /** One pass of the loop for column `col`. */
  function Step<V>(s: Scan<V>, col: Column): (r: Scan<V>)
    requires WellFormed(s.table) && col in s.table.columns
    ensures WellFormed(r.table) && ColumnSet(s.table) <= ColumnSet(r.table)
    ensures |r.table.rows| == |s.table.rows|
    ensures forall i :: 0 <= i < |s.table.rows| ==> r.table.rows[i].ts == s.table.rows[i].ts
  {
    if !IsX(col) then s
    else
      var dup := Stem(col) + "_y";
      if dup in s.table.columns then
        var rows := s.table.rows;
        var filled := seq(|rows|, i requires 0 <= i < |rows| => Fill(rows[i].cells[col], rows[i].cells[dup]));
        Scan(AssignColumn(s.table, Stem(col), filled), s.marked + {dup, col})
      else
        Scan(s.table, s.marked + {col})
  }

  /** The loop state after its first `k` passes. */
  function ScanPrefix<V>(t: Table<V>, k: nat): (r: Scan<V>)
    requires WellFormed(t) && k <= |t.columns|
    ensures WellFormed(r.table) && ColumnSet(t) <= ColumnSet(r.table)
    ensures |r.table.rows| == |t.rows|
    ensures forall i :: 0 <= i < |t.rows| ==> r.table.rows[i].ts == t.rows[i].ts
  {
    if k == 0 then Scan(t, {})
    else
      var s := ScanPrefix(t, k - 1);
      assert t.columns[k - 1] in ColumnSet(t);
      Step(s, t.columns[k - 1])
  }

  /** Lines 128-156 of `util/sahkotin.py`. */
  function CleanUp<V>(t: Table<V>): (r: Table<V>)
    requires WellFormed(t)
    ensures WellFormed(r)
    ensures |r.rows| == |t.rows|
    ensures forall i :: 0 <= i < |t.rows| ==> r.rows[i].ts == t.rows[i].ts
  {
    var s := ScanPrefix(t, |t.columns|);
    DropColumns(s.table, s.marked)
  }

  /**
   No `_x` column has a stem that itself ends in `_x` or `_y`; then a column
   the loop creates is never one the loop later reads or marks.
   */
  ghost predicate NoNested(cols: set<Column>) {
    forall c :: c in cols && IsX(c) ==> !IsX(Stem(c)) && !IsY(Stem(c))
  }

  /** `b` is rebuilt by one of the first `k` passes. */
  predicate PairedIn<V>(t: Table<V>, k: nat, b: Column)
    requires k <= |t.columns|
  {
    b + "_x" in t.columns[..k] && b + "_y" in t.columns
  }

  /** The expected value of cell `c` of row `i` after the first `k` passes. */
  function Expected<V>(t: Table<V>, k: nat, i: nat, c: Column): Option<V>
    requires WellFormed(t) && k <= |t.columns| && i < |t.rows|
  {
    if PairedIn(t, k, c) then Fill(t.rows[i].cells[c + "_x"], t.rows[i].cells[c + "_y"])
    else if c in t.columns then t.rows[i].cells[c]
    else None
  }

  predicate MarkedIn<V>(t: Table<V>, k: nat, c: Column)
    requires k <= |t.columns|
  {
    (c in t.columns[..k] && IsX(c)) || (IsY(c) && Stem(c) + "_x" in t.columns[..k] && c in t.columns)
  }

  ghost predicate InvColumns<V>(t: Table<V>, k: nat, s: Scan<V>)
    requires k <= |t.columns|
  {
    forall c :: c in s.table.columns <==> c in t.columns || PairedIn(t, k, c)
  }

  ghost predicate InvCells<V>(t: Table<V>, k: nat, s: Scan<V>)
    requires WellFormed(t) && k <= |t.columns| && |s.table.rows| == |t.rows|
  {
    forall i, c :: 0 <= i < |t.rows| && c in s.table.rows[i].cells ==>
      s.table.rows[i].cells[c] == Expected(t, k, i, c)
  }

  ghost predicate InvMarks<V>(t: Table<V>, k: nat, s: Scan<V>)
    requires k <= |t.columns|
  {
    forall c :: c in s.marked <==> MarkedIn(t, k, c)
  }

  ghost predicate ScanInv<V>(t: Table<V>, k: nat, s: Scan<V>)
    requires WellFormed(t) && k <= |t.columns| && |s.table.rows| == |t.rows|
  {
    InvColumns(t, k, s) && InvCells(t, k, s) && InvMarks(t, k, s)
  }

  lemma PairedStep<V>(t: Table<V>, k: nat, c: Column)
    requires 0 < k <= |t.columns|
    ensures PairedIn(t, k, c) <==> PairedIn(t, k - 1, c) || (c + "_x" == t.columns[k - 1] && c + "_y" in t.columns)
  {
    assert t.columns[..k] == t.columns[..k - 1] + [t.columns[k - 1]];
  }

  lemma MarkedStep<V>(t: Table<V>, k: nat, c: Column)
    requires 0 < k <= |t.columns|
    ensures MarkedIn(t, k, c) <==>
      || MarkedIn(t, k - 1, c)
      || (c == t.columns[k - 1] && IsX(c))
      || (IsY(c) && Stem(c) + "_x" == t.columns[k - 1] && c in t.columns)
  {
    assert t.columns[..k] == t.columns[..k - 1] + [t.columns[k - 1]];
  }

  /** A pass over a column that does not end in `_x` changes nothing. */
  lemma StepOther<V>(t: Table<V>, k: nat, s: Scan<V>)
    requires WellFormed(t) && 0 < k <= |t.columns| && |s.table.rows| == |t.rows|
    requires WellFormed(s.table) && t.columns[k - 1] in s.table.columns
    requires ScanInv(t, k - 1, s) && !IsX(t.columns[k - 1])
    ensures ScanInv(t, k, Step(s, t.columns[k - 1]))
  {
    var col := t.columns[k - 1];
    forall c ensures PairedIn(t, k, c) == PairedIn(t, k - 1, c) {
      PairedStep(t, k, c);
      SuffixFacts(c);
    }
    forall c ensures MarkedIn(t, k, c) == MarkedIn(t, k - 1, c) {
      MarkedStep(t, k, c);
      if IsY(c) { StemY(c); SuffixFacts(Stem(c)); }
    }
    forall i, c | 0 <= i < |t.rows| && c in s.table.rows[i].cells
      ensures s.table.rows[i].cells[c] == Expected(t, k, i, c)
    {
      assert Expected(t, k, i, c) == Expected(t, k - 1, i, c);
    }
  }

  /** Under `NoNested`, a `_x` column and its `_y` partner are never rebuilt stems. */
  lemma SiblingsNotRebuilt<V>(t: Table<V>, k: nat, col: Column)
    requires WellFormed(t) && NoNested(ColumnSet(t)) && k <= |t.columns| && IsX(col)
    ensures !PairedIn(t, k, col) && !PairedIn(t, k, Stem(col) + "_y")
  {
    StemX(col);
    var dup := Stem(col) + "_y";
    SuffixFacts(col);
    SuffixFacts(dup);
    SuffixFacts(Stem(col));
  }

  /** A pass over a `_x` column without its `_y` partner only marks it. */
  lemma StepUnpaired<V>(t: Table<V>, k: nat, s: Scan<V>)
    requires WellFormed(t) && NoNested(ColumnSet(t)) && 0 < k <= |t.columns| && |s.table.rows| == |t.rows|
    requires WellFormed(s.table) && t.columns[k - 1] in s.table.columns
    requires ScanInv(t, k - 1, s) && IsX(t.columns[k - 1])
    requires Stem(t.columns[k - 1]) + "_y" !in t.columns
    ensures ScanInv(t, k, Step(s, t.columns[k - 1]))
  {
    var col := t.columns[k - 1];
    SiblingsNotRebuilt(t, k - 1, col);
    StemX(col);
    forall c ensures PairedIn(t, k, c) == PairedIn(t, k - 1, c) {
      PairedStep(t, k, c);
      if c + "_x" == col { SuffixFacts(c); }
    }
    forall c ensures MarkedIn(t, k, c) <==> MarkedIn(t, k - 1, c) || c == col {
      MarkedStep(t, k, c);
      if IsY(c) { StemY(c); SuffixFacts(Stem(c)); }
    }
    forall i, c | 0 <= i < |t.rows| && c in s.table.rows[i].cells
      ensures s.table.rows[i].cells[c] == Expected(t, k, i, c)
    {
      assert Expected(t, k, i, c) == Expected(t, k - 1, i, c);
    }
  }

  /** The stem rebuilt by the `k`-th pass is not rebuilt by an earlier one, as column names are distinct. */
  lemma StemFresh<V>(t: Table<V>, k: nat)
    requires WellFormed(t) && 0 < k <= |t.columns| && IsX(t.columns[k - 1])
    ensures !PairedIn(t, k - 1, Stem(t.columns[k - 1]))
  {
    var col := t.columns[k - 1];
    StemX(col);
    var prefix := t.columns[..k - 1];
    assert forall j :: 0 <= j < |prefix| ==> prefix[j] == t.columns[j] && prefix[j] != col;
  }

  lemma StepPairedColumns<V>(t: Table<V>, k: nat, s: Scan<V>)
    requires WellFormed(t) && NoNested(ColumnSet(t)) && 0 < k <= |t.columns| && |s.table.rows| == |t.rows|
    requires WellFormed(s.table) && t.columns[k - 1] in s.table.columns
    requires InvColumns(t, k - 1, s) && IsX(t.columns[k - 1])
    requires Stem(t.columns[k - 1]) + "_y" in t.columns
    ensures InvColumns(t, k, Step(s, t.columns[k - 1]))
  {
    var col := t.columns[k - 1];
    SiblingsNotRebuilt(t, k - 1, col);
    StemX(col);
    forall c ensures PairedIn(t, k, c) <==> PairedIn(t, k - 1, c) || c == Stem(col) {
      PairedStep(t, k, c);
      if c + "_x" == col { SuffixFacts(c); }
    }
  }

  lemma StepPairedMarks<V>(t: Table<V>, k: nat, s: Scan<V>)
    requires WellFormed(t) && NoNested(ColumnSet(t)) && 0 < k <= |t.columns| && |s.table.rows| == |t.rows|
    requires WellFormed(s.table) && t.columns[k - 1] in s.table.columns
    requires InvColumns(t, k - 1, s) && InvMarks(t, k - 1, s) && IsX(t.columns[k - 1])
    requires Stem(t.columns[k - 1]) + "_y" in t.columns
    ensures InvMarks(t, k, Step(s, t.columns[k - 1]))
  {
    var col := t.columns[k - 1];
    var dup := Stem(col) + "_y";
    assert dup in s.table.columns;
    assert Step(s, col).marked == s.marked + {dup, col};
    forall c ensures MarkedIn(t, k, c) <==> MarkedIn(t, k - 1, c) || c == col || c == dup {
      MarkedPaired(t, k, c);
    }
  }

  /** The `k`-th pass, over a `_x` column with its `_y` partner, marks exactly those two. */
  lemma MarkedPaired<V>(t: Table<V>, k: nat, c: Column)
    requires 0 < k <= |t.columns| && IsX(t.columns[k - 1]) && Stem(t.columns[k - 1]) + "_y" in t.columns
    ensures MarkedIn(t, k, c) <==> MarkedIn(t, k - 1, c) || c == t.columns[k - 1] || c == Stem(t.columns[k - 1]) + "_y"
  {
    var col := t.columns[k - 1];
    StemX(col);
    MarkedStep(t, k, c);
    if IsY(c) { StemY(c); if Stem(c) + "_x" == col { SuffixFacts(Stem(c)); } }
    if c == Stem(col) + "_y" { SuffixFacts(Stem(col)); }
  }

  lemma StepPairedCells<V>(t: Table<V>, k: nat, s: Scan<V>)
    requires WellFormed(t) && NoNested(ColumnSet(t)) && 0 < k <= |t.columns| && |s.table.rows| == |t.rows|
    requires WellFormed(s.table) && t.columns[k - 1] in s.table.columns
    requires InvColumns(t, k - 1, s) && InvCells(t, k - 1, s) && IsX(t.columns[k - 1])
    requires Stem(t.columns[k - 1]) + "_y" in t.columns
    ensures InvCells(t, k, Step(s, t.columns[k - 1]))
  {
    var col := t.columns[k - 1];
    var b := Stem(col);
    SiblingsNotRebuilt(t, k - 1, col);
    StemFresh(t, k);
    StemX(col);
    var r := Step(s, col);
    forall c ensures PairedIn(t, k, c) <==> PairedIn(t, k - 1, c) || c == b {
      PairedStep(t, k, c);
      if c + "_x" == col { SuffixFacts(c); }
    }
    forall i, c | 0 <= i < |t.rows| && c in r.table.rows[i].cells
      ensures r.table.rows[i].cells[c] == Expected(t, k, i, c)
    {
      if c != b {
        assert Expected(t, k, i, c) == Expected(t, k - 1, i, c);
      }
    }
  }

  /** A pass over a `_x` column whose `_y` partner exists rebuilds the stem and marks both. */
  lemma StepPaired<V>(t: Table<V>, k: nat, s: Scan<V>)
    requires WellFormed(t) && NoNested(ColumnSet(t)) && 0 < k <= |t.columns| && |s.table.rows| == |t.rows|
    requires WellFormed(s.table) && t.columns[k - 1] in s.table.columns
    requires ScanInv(t, k - 1, s) && IsX(t.columns[k - 1])
    requires Stem(t.columns[k - 1]) + "_y" in t.columns
    ensures ScanInv(t, k, Step(s, t.columns[k - 1]))
  {
    StepPairedColumns(t, k, s);
    StepPairedMarks(t, k, s);
    StepPairedCells(t, k, s);
  }

  /** The loop invariant: what the table and the marks are after `k` passes. */
  lemma {:induction false} ScanInvariant<V>(t: Table<V>, k: nat)
    requires WellFormed(t) && NoNested(ColumnSet(t)) && k <= |t.columns|
    ensures ScanInv(t, k, ScanPrefix(t, k))
  {
    if k > 0 {
      ScanInvariant(t, k - 1);
      var s := ScanPrefix(t, k - 1);
      var col := t.columns[k - 1];
      assert col in ColumnSet(t);
      if !IsX(col) {
        StepOther(t, k, s);
      } else if Stem(col) + "_y" in t.columns {
        StepPaired(t, k, s);
      } else {
        StepUnpaired(t, k, s);
      }
    }
  }

  /** A column `b` whose `_x` and `_y` siblings are both present. */
  predicate Paired<V>(t: Table<V>, b: Column) {
    b + "_x" in t.columns && b + "_y" in t.columns
  }

  /** The `_y` partner of a present `_x` column. */
  predicate IsPartner<V>(t: Table<V>, c: Column) {
    IsY(c) && Stem(c) + "_x" in t.columns
  }

  lemma CleanUpFacts<V>(t: Table<V>)
    requires WellFormed(t) && NoNested(ColumnSet(t))
    ensures var s := ScanPrefix(t, |t.columns|);
      && InvCells(t, |t.columns|, s)
      && CleanUp(t) == DropColumns(s.table, s.marked)
      && (forall c :: PairedIn(t, |t.columns|, c) == Paired(t, c))
  {
    ScanInvariant(t, |t.columns|);
    assert t.columns[..|t.columns|] == t.columns;
  }

  lemma CleanUpColumnFacts<V>(t: Table<V>)
    requires WellFormed(t) && NoNested(ColumnSet(t))
    ensures var s := ScanPrefix(t, |t.columns|);
      && ColumnSet(CleanUp(t)) == ColumnSet(s.table) - s.marked
      && (forall c :: c in s.table.columns <==> c in t.columns || Paired(t, c))
      && (forall c :: c in s.marked <==> c in t.columns && (IsX(c) || IsPartner(t, c)))
  {
    ScanInvariant(t, |t.columns|);
    assert t.columns[..|t.columns|] == t.columns;
  }

  /**
   The columns after the clean-up: every column that neither ends in `_x`
   nor is the `_y` partner of a present `_x` column, plus every stem whose
   two siblings were both present.
   */
  lemma CoalesceColumns<V>(t: Table<V>, c: Column)
    requires WellFormed(t) && NoNested(ColumnSet(t))
    ensures c in CleanUp(t).columns <==>
      (c in t.columns && !IsX(c) && !IsPartner(t, c)) || Paired(t, c)
  {
    CleanUpColumnFacts(t);
    assert c in CleanUp(t).columns <==> c in ColumnSet(CleanUp(t));
    if Paired(t, c) {
      SuffixFacts(c);
      assert c + "_x" in ColumnSet(t);
      assert !IsX(c) && !IsY(c);
    }
  }

  /**
   For a stem whose siblings are both present, the rebuilt column holds the
   `_x` (existing) value where it is known and the `_y` (fetched) value
   otherwise.
   */
  lemma CoalescePrecedence<V>(t: Table<V>, b: Column)
    requires WellFormed(t) && NoNested(ColumnSet(t)) && Paired(t, b)
    ensures var r := CleanUp(t);
      && b in r.columns
      && forall i :: 0 <= i < |r.rows| ==>
           r.rows[i].cells[b] == Fill(t.rows[i].cells[b + "_x"], t.rows[i].cells[b + "_y"])
  {
    CleanUpFacts(t);
    CoalesceColumns(t, b);
    var r := CleanUp(t);
    var s := ScanPrefix(t, |t.columns|);
    forall i | 0 <= i < |r.rows|
      ensures r.rows[i].cells[b] == Fill(t.rows[i].cells[b + "_x"], t.rows[i].cells[b + "_y"])
    {
      assert b in r.rows[i].cells;
      assert r.rows[i].cells[b] == s.table.rows[i].cells[b];
      assert Expected(t, |t.columns|, i, b) == Fill(t.rows[i].cells[b + "_x"], t.rows[i].cells[b + "_y"]);
    }
  }

  /** Every `_x` column is dropped, and so is its `_y` partner when present. */
  lemma CoalesceDropsSiblings<V>(t: Table<V>, c: Column)
    requires WellFormed(t) && NoNested(ColumnSet(t)) && c in t.columns && IsX(c)
    ensures c !in CleanUp(t).columns
    ensures Stem(c) + "_y" in t.columns ==> Stem(c) + "_y" !in CleanUp(t).columns
  {
    StemX(c);
    var d := Stem(c) + "_y";
    SuffixFacts(Stem(c));
    SuffixFacts(c);
    CoalesceColumns(t, c);
    CoalesceColumns(t, d);
    assert c in ColumnSet(t);
    if Paired(t, d) {
      SuffixFacts(d);
      assert d + "_x" in ColumnSet(t);
    }
  }

  /**
   An `_x` column without its `_y` partner is dropped without creating or
   changing its stem column.
   */
  lemma CoalesceUnpaired<V>(t: Table<V>, b: Column)
    requires WellFormed(t) && NoNested(ColumnSet(t))
    requires b + "_x" in t.columns && b + "_y" !in t.columns
    ensures var r := CleanUp(t);
      && (b in r.columns <==> b in t.columns)
      && (b in t.columns ==> forall i :: 0 <= i < |r.rows| ==> r.rows[i].cells[b] == t.rows[i].cells[b])
  {
    SuffixFacts(b);
    assert b + "_x" in ColumnSet(t);
    assert !IsX(b) && !IsY(b);
    CleanUpFacts(t);
    CoalesceColumns(t, b);
    var r := CleanUp(t);
    var s := ScanPrefix(t, |t.columns|);
    if b in t.columns {
      forall i | 0 <= i < |r.rows| ensures r.rows[i].cells[b] == t.rows[i].cells[b] {
        assert b in r.rows[i].cells;
        assert r.rows[i].cells[b] == s.table.rows[i].cells[b];
      }
    }
  }

  /**
   A column that does not end in `_x`, is not the partner of an `_x`
   column and is not rebuilt passes through unchanged.
   */
  lemma CoalescePassThrough<V>(t: Table<V>, c: Column)
    requires WellFormed(t) && NoNested(ColumnSet(t))
    requires c in t.columns && !IsX(c) && !IsPartner(t, c) && !Paired(t, c)
    ensures var r := CleanUp(t);
      && c in r.columns
      && forall i :: 0 <= i < |r.rows| ==> r.rows[i].cells[c] == t.rows[i].cells[c]
  {
    CleanUpFacts(t);
    CoalesceColumns(t, c);
    var r := CleanUp(t);
    var s := ScanPrefix(t, |t.columns|);
    forall i | 0 <= i < |r.rows| ensures r.rows[i].cells[c] == t.rows[i].cells[c] {
      assert c in r.rows[i].cells;
      assert r.rows[i].cells[c] == s.table.rows[i].cells[c];
    }
  }
}
