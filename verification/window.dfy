/**
 The window manager of the run: the wall-clock instant rounded up to a full
 hour, the 120-hour forward index, and the reindexing of the persisted table
 onto the union of its own timestamps and that forward index.
 */
module Window {
  import opened Wrappers
  import opened Frame

  /** Instants are microseconds since the Unix epoch, UTC. */
  const Second: int := 1_000_000
  const Minute: int := 60_000_000
  const Hour: int := 3_600_000_000
  /** The forecast horizon, in hours after the rounded "now". */
  const HorizonHours: int := 120

  /** The minute, second and microsecond fields of a UTC instant. */
  function MinuteOf(t: int): int { (t % Hour) / Minute }
  function SecondOf(t: int): int { (t % Minute) / Second }
  function MicrosecondOf(t: int): int { t % Second }

  /** The sub-hour fields are all zero exactly when the instant is on a full hour. */
  lemma FieldsZeroIffAligned(t: int)
    ensures (MinuteOf(t) == 0 && SecondOf(t) == 0 && MicrosecondOf(t) == 0) <==> t % Hour == 0
  {
    var m := t % Hour;
    assert t == (t / Hour * 60) * Minute + m;
    ModMinuteShift(t / Hour * 60, m);
    assert t == (t / Hour * 3600) * Second + m;
    ModSecondShift(t / Hour * 3600, m);
    if m != 0 && m / Minute == 0 {
      assert m < Minute && m % Minute == m;
      if m / Second == 0 {
        assert m % Second == m;
      }
    }
  }

  /** Adding whole minutes does not change the remainder modulo a minute. */
  lemma ModMinuteShift(a: int, k: int)
    ensures (a * Minute + k) % Minute == k % Minute
  {
    var x := a * Minute + k;
    assert x == (a + k / Minute) * Minute + k % Minute;
  }

  /** Adding whole seconds does not change the remainder modulo a second. */
  lemma ModSecondShift(a: int, k: int)
    ensures (a * Second + k) % Second == k % Second
  {
    var x := a * Second + k;
    assert x == (a + k / Second) * Second + k % Second;
  }

  /**
   The run's "now": the clock reading rounded up to the next full hour when
   any of its minute, second or microsecond fields is non-zero.
   */
  function CeilHour(clock: int): (r: int)
    ensures r % Hour == 0
    ensures clock <= r < clock + Hour
    ensures clock % Hour == 0 ==> r == clock
  {
    FieldsZeroIffAligned(clock);
    if MinuteOf(clock) > 0 || SecondOf(clock) > 0 || MicrosecondOf(clock) > 0 then
      clock - clock % Hour + Hour
    else
      clock
  }

  /** `pd.date_range(start, end, freq='h')`: every hour from `start` up to and including `end`. */
  function HourlyRange(start: int, end: int): (r: seq<int>)
    ensures |r| == if start <= end then (end - start) / Hour + 1 else 0
    ensures forall k :: 0 <= k < |r| ==> r[k] == start + k * Hour
    decreases end - start
  {
    if start > end then [] else [start] + HourlyRange(start + Hour, end)
  }

  /** The hours `now + 1h` through `now + 120h`. */
  function ForwardIndex(now: int): (r: seq<int>)
    ensures |r| == HorizonHours
    ensures r[0] == now + Hour && r[|r| - 1] == now + HorizonHours * Hour
    ensures forall k :: 0 <= k < |r| ==> r[k] == now + (k + 1) * Hour
    ensures StrictlyIncreasing(r)
  {
    HourlyRange(now + Hour, now + HorizonHours * Hour)
  }

  lemma IncreasingCons(a: int, s: seq<int>)
    requires StrictlyIncreasing(s)
    requires forall y :: y in Elems(s) ==> a < y
    ensures StrictlyIncreasing([a] + s)
  {
    var xs := [a] + s;
    forall i, j | 0 <= i < j < |xs| ensures xs[i] < xs[j] {
      assert xs[j] == s[j - 1] && s[j - 1] in Elems(s);
      if i > 0 { assert xs[i] == s[i - 1]; }
    }
  }

  /** Inserts `x` into a strictly increasing sequence, keeping it strictly increasing. */
  function Insert(s: seq<int>, x: int): (r: seq<int>)
    requires StrictlyIncreasing(s)
    ensures StrictlyIncreasing(r)
    ensures Elems(r) == Elems(s) + {x}
  {
    if |s| == 0 then [x]
    else if x < s[0] then
      InsertFront(s, x);
      [x] + s
    else if x == s[0] then
      assert s[0] in Elems(s);
      s
    else
      var rest := Insert(s[1..], x);
      InsertBehind(s, x, rest);
      [s[0]] + rest
  }

  lemma InsertFront(s: seq<int>, x: int)
    requires StrictlyIncreasing(s) && |s| > 0 && x < s[0]
    ensures StrictlyIncreasing([x] + s) && Elems([x] + s) == Elems(s) + {x}
  {
    ElemsCons(x, s);
    forall y | y in Elems(s) ensures x < y {
      var k :| 0 <= k < |s| && s[k] == y;
    }
    IncreasingCons(x, s);
  }

  lemma InsertBehind(s: seq<int>, x: int, rest: seq<int>)
    requires StrictlyIncreasing(s) && |s| > 0 && s[0] < x
    requires StrictlyIncreasing(rest) && Elems(rest) == Elems(s[1..]) + {x}
    ensures StrictlyIncreasing([s[0]] + rest) && Elems([s[0]] + rest) == Elems(s) + {x}
  {
    assert s == [s[0]] + s[1..];
    ElemsCons(s[0], s[1..]);
    ElemsCons(s[0], rest);
    forall y | y in Elems(rest) ensures s[0] < y {
      if y != x {
        var k :| 0 <= k < |s[1..]| && s[1..][k] == y;
        assert s[k + 1] == y;
      }
    }
    IncreasingCons(s[0], rest);
  }

  function InsertAll(s: seq<int>, xs: seq<int>): (r: seq<int>)
    requires StrictlyIncreasing(s)
    ensures StrictlyIncreasing(r)
    ensures Elems(r) == Elems(s) + Elems(xs)
    decreases |xs|
  {
    if |xs| == 0 then s
    else
      assert xs == [xs[0]] + xs[1..];
      ElemsCons(xs[0], xs[1..]);
      InsertAll(Insert(s, xs[0]), xs[1..])
  }

  /** `a.union(b)` on two indexes: the sorted set of their labels. */
  function SortedUnion(a: seq<int>, b: seq<int>): (r: seq<int>)
    ensures StrictlyIncreasing(r)
    ensures Elems(r) == Elems(a) + Elems(b)
  {
    InsertAll(InsertAll([], a), b)
  }

  /**
   `t.reindex(index)`: for each label of `index`, the row of `t` with that
   timestamp, or a row of missing cells when there is none. Pandas refuses
   to reindex a table whose own timestamps repeat.
   */
  function Reindex<V>(t: Table<V>, index: seq<int>): (r: Result<Table<V>, Fault>)
    requires WellFormed(t)
    ensures r.Success? <==> Distinct(Timestamps(t.rows))
    ensures r.Failure? ==> r.error == DuplicateLabels
    ensures r.Success? ==>
      && WellFormed(r.value)
      && r.value.columns == t.columns
      && Timestamps(r.value.rows) == index
      && (forall i, j :: 0 <= i < |index| && 0 <= j < |t.rows| && index[i] == t.rows[j].ts ==>
            r.value.rows[i] == t.rows[j])
      && (forall i :: 0 <= i < |index| && index[i] !in Timestamps(t.rows) ==>
            r.value.rows[i] == NullRow(t.columns, index[i]))
  {
    if !Distinct(Timestamps(t.rows)) then Failure(DuplicateLabels)
    else
      var rows := seq(|index|, i requires 0 <= i < |index| => RowAt(t, index[i]));
      Success(Table(t.columns, rows))
  }

  /** The row `reindex` puts at label `ts`: the table's row with that timestamp, or a missing one. */
  function RowAt<V>(t: Table<V>, ts: int): (r: Row<V>)
    requires WellFormed(t) && Distinct(Timestamps(t.rows))
    ensures r.ts == ts && r.cells.Keys == ColumnSet(t)
    ensures forall j :: 0 <= j < |t.rows| && t.rows[j].ts == ts ==> r == t.rows[j]
    ensures ts !in Timestamps(t.rows) ==> r == NullRow(t.columns, ts)
  {
    match FindTs(t.rows, ts)
    case Some(j) =>
      assert forall k :: 0 <= k < |t.rows| && t.rows[k].ts == ts ==> Timestamps(t.rows)[k] == Timestamps(t.rows)[j];
      t.rows[j]
    case None =>
      assert forall k :: 0 <= k < |t.rows| ==> Timestamps(t.rows)[k] != ts;
      NullRow(t.columns, ts)
  }

  /**
   Lines 60-71 of the run: round the clock up to "now" and reindex the
   persisted table onto the union of its timestamps with the next 120 hours.
   */
  function Extend<V>(t: Table<V>, clock: int): (r: Result<Table<V>, Fault>)
    requires WellFormed(t)
    ensures r.Success? <==> Distinct(Timestamps(t.rows))
    ensures r.Success? ==>
      var u := r.value;
      && WellFormed(u)
      && u.columns == t.columns
      && StrictlyIncreasing(Timestamps(u.rows))
      && Elems(Timestamps(u.rows)) == Elems(Timestamps(t.rows)) + Elems(ForwardIndex(CeilHour(clock)))
      && (forall i, j :: 0 <= i < |u.rows| && 0 <= j < |t.rows| && u.rows[i].ts == t.rows[j].ts ==>
            u.rows[i] == t.rows[j])
      && (forall i :: 0 <= i < |u.rows| && u.rows[i].ts !in Timestamps(t.rows) ==>
            forall c :: c in u.rows[i].cells ==> u.rows[i].cells[c] == None)
  {
    Reindex(t, SortedUnion(Timestamps(t.rows), ForwardIndex(CeilHour(clock))))
  }

  lemma IncreasingTail(s: seq<int>)
    requires StrictlyIncreasing(s) && |s| > 0
    ensures Elems(s[1..]) == Elems(s) - {s[0]}
  {
    assert s == [s[0]] + s[1..];
    ElemsCons(s[0], s[1..]);
    assert s[0] !in Elems(s[1..]);
  }

  /** A strictly increasing sequence is determined by its set of elements. */
  lemma {:induction false} IncreasingUnique(a: seq<int>, b: seq<int>)
    requires StrictlyIncreasing(a) && StrictlyIncreasing(b)
    requires Elems(a) == Elems(b)
    ensures a == b
  {
    if |a| == 0 {
      assert forall k :: 0 <= k < |b| ==> b[k] in Elems(b);
    } else {
      assert a[0] in Elems(b);
      assert |b| > 0;
      assert b[0] in Elems(a);
      var k :| 0 <= k < |b| && b[k] == a[0];
      var m :| 0 <= m < |a| && a[m] == b[0];
      assert a[0] == b[0];
      IncreasingTail(a);
      IncreasingTail(b);
      IncreasingUnique(a[1..], b[1..]);
      assert a == [a[0]] + a[1..] && b == [b[0]] + b[1..];
    }
  }

  /** Extending an already extended table with the same clock reading changes nothing. */
  lemma ExtendIdempotent<V>(t: Table<V>, clock: int)
    requires WellFormed(t)
    ensures Extend(t, clock).Success? ==> Extend(Extend(t, clock).value, clock) == Extend(t, clock)
  {
    if Extend(t, clock).Success? {
      ExtendCovered(Extend(t, clock).value, clock);
    }
  }

  /** A table in time order that already holds every forward hour is its own extension. */
  lemma ExtendCovered<V>(u: Table<V>, clock: int)
    requires WellFormed(u) && StrictlyIncreasing(Timestamps(u.rows))
    requires Elems(ForwardIndex(CeilHour(clock))) <= Elems(Timestamps(u.rows))
    ensures Extend(u, clock) == Success(u)
  {
    var ts := Timestamps(u.rows);
    var index := SortedUnion(ts, ForwardIndex(CeilHour(clock)));
    IncreasingUnique(index, ts);
    assert Distinct(ts);
    var w := Reindex(u, ts).value;
    assert w.rows == u.rows by {
      forall i | 0 <= i < |u.rows| ensures w.rows[i] == u.rows[i] {
        assert ts[i] == u.rows[i].ts;
      }
    }
  }

  /** The elements of `xs` outside `seen`, in their order. */
  function Unseen(xs: seq<int>, seen: set<int>): (r: seq<int>)
    requires StrictlyIncreasing(xs)
    ensures StrictlyIncreasing(r)
    ensures Elems(r) == Elems(xs) - seen
  {
    if |xs| == 0 then []
    else
      var rest := Unseen(xs[1..], seen);
      assert xs == [xs[0]] + xs[1..];
      ElemsCons(xs[0], xs[1..]);
      if xs[0] in seen then rest
      else
        ElemsCons(xs[0], rest);
        assert forall y :: y in Elems(xs[1..]) ==> xs[0] < y;
        IncreasingCons(xs[0], rest);
        [xs[0]] + rest
  }

  /**
   The union index of a sorted list of hours and a sorted list of later
   hours is the first list followed by the later hours it lacks.
   */
  lemma UnionAppends(known: seq<int>, fwd: seq<int>)
    requires StrictlyIncreasing(fwd)
    requires StrictlyIncreasing(known + Unseen(fwd, Elems(known)))
    ensures SortedUnion(known, fwd) == known + Unseen(fwd, Elems(known))
  {
    var extra := Unseen(fwd, Elems(known));
    var u := SortedUnion(known, fwd);
    ElemsAppend(known, extra);
    assert Elems(u) == Elems(known + extra) by {
      assert Elems(extra) == Elems(fwd) - Elems(known);
    }
    IncreasingUnique(u, known + extra);
  }

  lemma AppendIncreasing(known: seq<int>, fwd: seq<int>)
    requires StrictlyIncreasing(known) && StrictlyIncreasing(fwd)
    requires forall j, k :: 0 <= j < |known| && 0 <= k < |fwd| && fwd[k] !in known ==> known[j] < fwd[k]
    ensures StrictlyIncreasing(known + Unseen(fwd, Elems(known)))
  {
    var extra := Unseen(fwd, Elems(known));
    var joined := known + extra;
    forall i, j | 0 <= i < j < |joined| ensures joined[i] < joined[j] {
      if j >= |known| && i < |known| {
        assert joined[j] == extra[j - |known|];
        assert joined[j] in Elems(extra);
        var k :| 0 <= k < |fwd| && fwd[k] == joined[j];
      }
    }
  }

  /**
   When the snapshot is in time order and every forward hour it lacks comes
   after its rows, extending the index keeps each snapshot row at its own
   position. Only then does a lookup of the snapshot by row label, as the
   nuclear fallback does, read the same hour.
   */
  lemma LabelsAlign<V>(t: Table<V>, clock: int)
    requires WellFormed(t) && StrictlyIncreasing(Timestamps(t.rows))
    requires forall j, k ::
      (0 <= j < |t.rows| && 0 <= k < HorizonHours && ForwardIndex(CeilHour(clock))[k] !in Timestamps(t.rows))
      ==> t.rows[j].ts < ForwardIndex(CeilHour(clock))[k]
    ensures Extend(t, clock).Success?
    ensures |Extend(t, clock).value.rows| >= |t.rows|
    ensures forall i :: 0 <= i < |t.rows| ==> Extend(t, clock).value.rows[i] == t.rows[i]
  {
    var known := Timestamps(t.rows);
    var fwd := ForwardIndex(CeilHour(clock));
    assert forall j, k :: 0 <= j < |known| && 0 <= k < |fwd| && fwd[k] !in known ==> known[j] < fwd[k];
    AppendIncreasing(known, fwd);
    UnionKeepsRows(t, fwd);
    ExtendIsReindex(t, clock, SortedUnion(known, fwd));
  }

  lemma UnionKeepsRows<V>(t: Table<V>, fwd: seq<int>)
    requires WellFormed(t) && StrictlyIncreasing(fwd)
    requires StrictlyIncreasing(Timestamps(t.rows) + Unseen(fwd, Elems(Timestamps(t.rows))))
    ensures Reindex(t, SortedUnion(Timestamps(t.rows), fwd)).Success?
    ensures |Reindex(t, SortedUnion(Timestamps(t.rows), fwd)).value.rows| >= |t.rows|
    ensures forall i :: 0 <= i < |t.rows| ==> Reindex(t, SortedUnion(Timestamps(t.rows), fwd)).value.rows[i] == t.rows[i]
  {
    var known := Timestamps(t.rows);
    UnionAppends(known, fwd);
    var index := SortedUnion(known, fwd);
    assert index[..|t.rows|] == known;
    assert Distinct(known) by {
      assert known == (known + Unseen(fwd, Elems(known)))[..|known|];
    }
    ReindexPrefix(t, index);
    assert |Timestamps(Reindex(t, index).value.rows)| == |index|;
  }

  lemma ExtendIsReindex<V>(t: Table<V>, clock: int, index: seq<int>)
    requires WellFormed(t) && index == SortedUnion(Timestamps(t.rows), ForwardIndex(CeilHour(clock)))
    ensures Extend(t, clock) == Reindex(t, index)
  {
  }

  /** Reindexing on an index that starts with the table's own timestamps keeps its rows in place. */
  lemma ReindexPrefix<V>(t: Table<V>, index: seq<int>)
    requires WellFormed(t) && Distinct(Timestamps(t.rows))
    requires |t.rows| <= |index| && index[..|t.rows|] == Timestamps(t.rows)
    ensures Reindex(t, index).Success?
    ensures forall i :: 0 <= i < |t.rows| ==> Reindex(t, index).value.rows[i] == t.rows[i]
  {
    forall i | 0 <= i < |t.rows| ensures Reindex(t, index).value.rows[i] == t.rows[i] {
      assert index[i] == index[..|t.rows|][i] == t.rows[i].ts;
    }
  }

  /**
   A snapshot out of time order is not kept in place: its first row is not
   the first row of the extended table, so a lookup by label reads another
   hour.
   */
  lemma LabelsShift<V>(t: Table<V>, clock: int)
    requires WellFormed(t) && Distinct(Timestamps(t.rows))
    requires |t.rows| >= 2 && t.rows[0].ts > t.rows[1].ts
    ensures Extend(t, clock).Success?
    ensures Extend(t, clock).value.rows[0].ts != t.rows[0].ts
  {
    var u := Extend(t, clock).value;
    var ts := Timestamps(u.rows);
    assert t.rows[1].ts == Timestamps(t.rows)[1];
    assert t.rows[1].ts in Elems(ts);
    var m :| 0 <= m < |ts| && ts[m] == t.rows[1].ts;
    assert ts[0] <= ts[m];
  }
}
