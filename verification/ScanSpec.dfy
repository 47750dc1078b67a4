/**
 * A table scan over the transaction's cache, from rnd_init to rnd_end, while rows are updated in
 * place and deleted.
 */
module ScanSpec {
  import opened Types
  import opened TableSpec
  import opened TxSpec
  import opened TableTx

  /** File offsets are unsigned 64-bit numbers. */
  const OFFSETS: nat := 0x1_0000_0000_0000_0000

  /** The cache in iteration order, the position of the current row, and the deletes that wait. */
  datatype Scan = Scan(rows: seq<Row>, position: nat, pending: seq<Bytes>)

  datatype ScanStep = Next | Update(key: Bytes, value: Bytes) | DeleteRow(key: Bytes)

  /** A scan starts before the first row, at offset -1. */
  function BeginOf(rows: seq<Row>): Scan {
    Scan(rows, OFFSETS - 1, [])
  }

  function Advance(position: nat): nat {
    if position + 1 == OFFSETS then 0 else position + 1
  }

  function Overwrite(rows: seq<Row>, key: Bytes, value: Bytes): (after: seq<Row>)
    requires key in KeysOf(rows)
    ensures |after| == |rows| && forall i :: 0 <= i < |rows| ==> after[i].key == rows[i].key
  {
    rows[PositionOf(rows, key) := Row(key, value)]
  }

  /** Updates of keys that are not cached would insert a row, which is not part of this scan. */
  function StepScan(s: Scan, step: ScanStep): Scan {
    match step
    case Next => s.(position := Advance(s.position))
    case Update(k, v) => if k in KeysOf(s.rows) then s.(rows := Overwrite(s.rows, k, v)) else s
    case DeleteRow(k) => s.(pending := s.pending + [k])
  }

  function ExecScan(rows: seq<Row>, run: seq<ScanStep>): Scan {
    if run == [] then BeginOf(rows) else StepScan(ExecScan(rows, run[..|run| - 1]), run[|run| - 1])
  }

  /** The row at the current position, or the end of the file. */
  function Current(s: Scan): Option<Row> {
    if s.position < |s.rows| then Some(s.rows[s.position]) else None
  }

  function Nexts(run: seq<ScanStep>): nat {
    if run == [] then 0 else Nexts(run[..|run| - 1]) + if run[|run| - 1].Next? then 1 else 0
  }

  function Updates(run: seq<ScanStep>): seq<Row> {
    if run == [] then []
    else
      var earlier, last := Updates(run[..|run| - 1]), run[|run| - 1];
      if last.Update? then earlier + [Row(last.key, last.value)] else earlier
  }

  function Deletes(run: seq<ScanStep>): seq<Bytes> {
    if run == [] then []
    else
      var earlier, last := Deletes(run[..|run| - 1]), run[|run| - 1];
      if last.DeleteRow? then earlier + [last.key] else earlier
  }

  /** The rows that the calls of rnd_next have returned, each as it was then. */
  function Returned(rows: seq<Row>, run: seq<ScanStep>): seq<Row> {
    if run == [] then []
    else
      var earlier, row := Returned(rows, run[..|run| - 1]), Current(ExecScan(rows, run));
      if run[|run| - 1].Next? && row.Some? then earlier + [row.value] else earlier
  }

  /** Only rows of the scan are updated, and no offset repeats. */
  ghost predicate InPlaceRun(rows: seq<Row>, run: seq<ScanStep>) {
    && |run| < OFFSETS && |rows| < OFFSETS
    && forall step :: step in run && step.Update? ==> step.key in KeysOf(rows)
  }

  lemma InPlacePrefix(rows: seq<Row>, run: seq<ScanStep>)
    requires InPlaceRun(rows, run) && run != []
    ensures InPlaceRun(rows, run[..|run| - 1])
  {
    assert forall step :: step in run[..|run| - 1] ==> step in run;
  }

  lemma {:induction false} NextsBound(run: seq<ScanStep>)
    ensures Nexts(run) <= |run|
  {
    if run != [] {
      NextsBound(run[..|run| - 1]);
    }
  }

  lemma StepKeepsOrder(s: Scan, step: ScanStep)
    ensures var t := StepScan(s, step);
            |t.rows| == |s.rows| && forall i :: 0 <= i < |s.rows| ==> t.rows[i].key == s.rows[i].key
  {
  }

  /** Updating in place and deferring deletes keep the rows where they are; only values change. */
  lemma {:induction false} ScanKeepsOrder(rows: seq<Row>, run: seq<ScanStep>)
    ensures var s := ExecScan(rows, run);
            && |s.rows| == |rows|
            && (forall i :: 0 <= i < |rows| ==> s.rows[i].key == rows[i].key)
            && s.pending == Deletes(run)
  {
    if run != [] {
      ScanKeepsOrder(rows, run[..|run| - 1]);
      StepKeepsOrder(ExecScan(rows, run[..|run| - 1]), run[|run| - 1]);
    }
  }

  lemma {:induction false} ScanPosition(rows: seq<Row>, run: seq<ScanStep>)
    requires |run| < OFFSETS
    ensures ExecScan(rows, run).position == if Nexts(run) == 0 then OFFSETS - 1 else Nexts(run) - 1
  {
    if run != [] {
      ScanPosition(rows, run[..|run| - 1]);
      NextsBound(run[..|run| - 1]);
    }
  }

  lemma OneMoreUpdate(m: Contents, rows: seq<Row>, updates: seq<Row>, key: Bytes, value: Bytes)
    requires DistinctKeys(rows) && key in KeysOf(rows)
    requires RowsMap(rows) == Overlay(m, updates, [])
    ensures DistinctKeys(Overwrite(rows, key, value))
    ensures RowsMap(Overwrite(rows, key, value)) == Overlay(m, updates + [Row(key, value)], [])
  {
    InPlace(rows, PositionOf(rows, key), value);
    OverlayAppend(m, updates, key, value);
  }

  lemma NothingToOverlay(m: Contents)
    ensures Overlay(m, [], []) == m
  {
  }

  /** At any moment the cache holds the original rows with the updates made so far laid over them. */
  lemma {:induction false} ScanShowsUpdates(rows: seq<Row>, run: seq<ScanStep>)
    requires DistinctKeys(rows) && InPlaceRun(rows, run)
    ensures DistinctKeys(ExecScan(rows, run).rows)
    ensures RowsMap(ExecScan(rows, run).rows) == Overlay(RowsMap(rows), Updates(run), [])
  {
    if run == [] {
      NothingToOverlay(RowsMap(rows));
    } else {
      var earlier, last := run[..|run| - 1], run[|run| - 1];
      InPlacePrefix(rows, run);
      ScanShowsUpdates(rows, earlier);
      if last.Update? {
        assert last in run;
        ScanKeepsOrder(rows, earlier);
        SameKeys(rows, ExecScan(rows, earlier).rows);
        OneMoreUpdate(RowsMap(rows), ExecScan(rows, earlier).rows, Updates(earlier), last.key, last.value);
      }
    }
  }

  lemma ScannedValue(rows: seq<Row>, run: seq<ScanStep>, i: nat)
    requires DistinctKeys(rows) && InPlaceRun(rows, run) && i < |rows|
    ensures |ExecScan(rows, run).rows| == |rows|
    ensures Lookup(Overlay(RowsMap(rows), Updates(run), []), rows[i].key) == Some(ExecScan(rows, run).rows[i].value)
  {
    ScanKeepsOrder(rows, run);
    ScanShowsUpdates(rows, run);
    RowsMapAt(ExecScan(rows, run).rows, i);
  }

  /**
   * The n-th call of rnd_next returns the n-th row of the scan with its current value, and the end of
   * the file after the last row.
   */
  lemma NextReturnsRow(rows: seq<Row>, run: seq<ScanStep>)
    requires DistinctKeys(rows) && InPlaceRun(rows, run)
    ensures forall i :: 0 <= i < |rows| ==> rows[i].key in Overlay(RowsMap(rows), Updates(run), [])
    ensures var now, n := Overlay(RowsMap(rows), Updates(run), []), Nexts(run);
            Current(StepScan(ExecScan(rows, run), Next))
            == if n < |rows| then Some(Row(rows[n].key, now[rows[n].key])) else None
  {
    ScanKeepsOrder(rows, run);
    ScanPosition(rows, run);
    NextsBound(run);
    forall i | 0 <= i < |rows|
      ensures Lookup(Overlay(RowsMap(rows), Updates(run), []), rows[i].key) == Some(ExecScan(rows, run).rows[i].value)
    {
      ScannedValue(rows, run, i);
    }
  }

  /** After a call of rnd_next the current row is the one with the number of calls so far, if there is one. */
  lemma CurrentRow(rows: seq<Row>, run: seq<ScanStep>)
    requires |run| < OFFSETS && |rows| < OFFSETS && Nexts(run) > 0
    ensures var n, row := Nexts(run), Current(ExecScan(rows, run));
            if n <= |rows| then row.Some? && row.value.key == rows[n - 1].key else row == None
  {
    ScanKeepsOrder(rows, run);
    ScanPosition(rows, run);
    NextsBound(run);
  }

  /** The keys of the first n rows, or of all. */
  ghost predicate SameKeysUpTo(returned: seq<Row>, rows: seq<Row>, n: nat) {
    && |returned| == (if n < |rows| then n else |rows|)
    && forall i :: 0 <= i < |returned| ==> returned[i].key == rows[i].key
  }

  lemma {:induction false} ReturnedPrefix(rows: seq<Row>, run: seq<ScanStep>)
    requires |run| < OFFSETS && |rows| < OFFSETS
    ensures SameKeysUpTo(Returned(rows, run), rows, Nexts(run))
  {
    if run != [] {
      var earlier := run[..|run| - 1];
      ReturnedPrefix(rows, earlier);
      if run[|run| - 1].Next? {
        CurrentRow(rows, run);
        assert Nexts(run) == Nexts(earlier) + 1;
      } else {
        assert Returned(rows, run) == Returned(rows, earlier) && Nexts(run) == Nexts(earlier);
      }
    }
  }

  /** No key is returned twice, and every key is returned once the end is reached. */
  lemma EachKeyOnce(rows: seq<Row>, run: seq<ScanStep>)
    requires DistinctKeys(rows) && |run| < OFFSETS && |rows| < OFFSETS
    ensures DistinctKeys(Returned(rows, run))
    ensures Nexts(run) >= |rows| ==> KeysOf(Returned(rows, run)) == KeysOf(rows)
  {
    ReturnedPrefix(rows, run);
    if Nexts(run) >= |rows| {
      SameKeys(Returned(rows, run), rows);
    }
  }

  /** At the end of the scan exactly the deleted rows go, and the others have their last value. */
  lemma ScanEnds(rows: seq<Row>, run: seq<ScanStep>)
    requires DistinctKeys(rows) && InPlaceRun(rows, run)
    ensures var s := ExecScan(rows, run);
            RowsMap(s.rows) - Keys(s.pending) == Overlay(RowsMap(rows), Updates(run), Deletes(run))
    ensures Overlay(RowsMap(rows), Updates(run), Deletes(run)).Keys == KeysOf(rows) - Keys(Deletes(run))
  {
    ScanKeepsOrder(rows, run);
    ScanShowsUpdates(rows, run);
    SameKeys(rows, ExecScan(rows, run).rows);
    var after := Overlay(RowsMap(rows), Updates(run), []);
    assert after.Keys == KeysOf(rows);
    assert after - Keys(Deletes(run)) == Overlay(RowsMap(rows), Updates(run), Deletes(run));
  }

  lemma ScanAppend(rows: seq<Row>, run: seq<ScanStep>, step: ScanStep)
    ensures ExecScan(rows, run + [step]) == StepScan(ExecScan(rows, run), step)
    ensures Returned(rows, run + [step])
         == var row := Current(ExecScan(rows, run + [step]));
            if step.Next? && row.Some? then Returned(rows, run) + [row.value] else Returned(rows, run)
  {
    assert (run + [step])[..|run|] == run;
  }

  // ---------------------------------------------------------------- rows that come in during a scan

  /** The cache after a new key came in: the rows and the new one, in any order. */
  ghost predicate Inserted(rows: seq<Row>, key: Bytes, value: Bytes, after: seq<Row>) {
    DistinctKeys(after) && RowsMap(after) == RowsMap(rows)[key := value]
  }

  /** A row that was among the first `returned` comes again. */
  ghost predicate RepeatsRow(rows: seq<Row>, returned: nat, after: seq<Row>) {
    exists i, j :: 0 <= i < returned && i < |rows| && returned <= j < |after| && rows[i].key == after[j].key
  }

  /** A row that was not yet returned does not come any more. */
  ghost predicate SkipsRow(rows: seq<Row>, returned: nat, after: seq<Row>) {
    exists j :: returned <= j < |rows| && forall i :: returned <= i < |after| ==> after[i].key != rows[j].key
  }

  lemma Prepended(rows: seq<Row>, key: Bytes, value: Bytes)
    requires DistinctKeys(rows) && key !in KeysOf(rows)
    ensures Inserted(rows, key, value, [Row(key, value)] + rows)
  {
    var after := [Row(key, value)] + rows;
    forall i | 0 <= i < |rows|
      ensures rows[i].key in KeysOf(rows) && Lookup(RowsMap(rows), rows[i].key) == Some(rows[i].value)
    {
      assert rows[i] in rows;
      RowsMapAt(rows, i);
    }
    assert forall r :: r in after <==> r == Row(key, value) || r in rows;
    assert KeysOf(after) == KeysOf(rows) + {key};
    RowsMapIs(after, RowsMap(rows)[key := value]);
  }

  /** The first row and the one at i change places. */
  function Swapped(rows: seq<Row>, i: nat): (after: seq<Row>)
    requires i < |rows|
    ensures |after| == |rows|
  {
    rows[0 := rows[i]][i := rows[0]]
  }

  function SwapIndex(i: nat, j: nat): nat {
    if j == 0 then i else if j == i then 0 else j
  }

  lemma SwappedAt(rows: seq<Row>, i: nat, j: nat)
    requires i < |rows| && j < |rows|
    ensures SwapIndex(i, j) < |rows| && Swapped(rows, i)[j] == rows[SwapIndex(i, j)]
    ensures Swapped(rows, i)[SwapIndex(i, j)] == rows[j]
  {
  }

  lemma SwappedDistinct(rows: seq<Row>, i: nat)
    requires DistinctKeys(rows) && i < |rows|
    ensures DistinctKeys(Swapped(rows, i))
  {
    forall j, k | 0 <= j < k < |rows|
      ensures Swapped(rows, i)[j].key != Swapped(rows, i)[k].key
    {
      SwappedAt(rows, i, j);
      SwappedAt(rows, i, k);
      assert SwapIndex(i, j) != SwapIndex(i, k);
    }
  }

  lemma SwappedKeys(rows: seq<Row>, i: nat, k: Bytes)
    requires i < |rows|
    ensures k in KeysOf(Swapped(rows, i)) <==> k in KeysOf(rows)
  {
    var after := Swapped(rows, i);
    if k in KeysOf(after) {
      var j := PositionOf(after, k);
      SwappedAt(rows, i, j);
      assert rows[SwapIndex(i, j)] in rows;
    }
    if k in KeysOf(rows) {
      var j := PositionOf(rows, k);
      SwappedAt(rows, i, j);
      assert after[SwapIndex(i, j)] in after;
    }
  }

  lemma SwappedIsSame(rows: seq<Row>, i: nat)
    requires DistinctKeys(rows) && i < |rows|
    ensures DistinctKeys(Swapped(rows, i)) && RowsMap(Swapped(rows, i)) == RowsMap(rows)
  {
    var after := Swapped(rows, i);
    SwappedDistinct(rows, i);
    forall k
      ensures k in KeysOf(after) <==> k in KeysOf(rows)
    {
      SwappedKeys(rows, i, k);
    }
    forall j | 0 <= j < |rows|
      ensures Lookup(RowsMap(rows), after[j].key) == Some(after[j].value)
    {
      SwappedAt(rows, i, j);
      RowsMapAt(rows, SwapIndex(i, j));
    }
    assert KeysOf(after) == RowsMap(rows).Keys;
    RowsMapIs(after, RowsMap(rows));
  }

  /**
   * When a new key comes into the cache during a scan, a row can come twice, for some iteration order,
   * exactly if some row was returned before.
   */
  lemma InsertRepeatsIff(rows: seq<Row>, returned: nat, key: Bytes, value: Bytes)
    requires DistinctKeys(rows) && key !in KeysOf(rows) && returned <= |rows|
    ensures (exists after :: Inserted(rows, key, value, after) && RepeatsRow(rows, returned, after)) <==> returned > 0
  {
    if returned > 0 {
      var after := [Row(key, value)] + rows;
      Prepended(rows, key, value);
      assert rows[returned - 1].key == after[returned].key;
      assert RepeatsRow(rows, returned, after);
    }
  }

  lemma NothingSkippedFromStart(rows: seq<Row>, key: Bytes, value: Bytes, after: seq<Row>)
    requires Inserted(rows, key, value, after)
    ensures !SkipsRow(rows, 0, after)
  {
    if SkipsRow(rows, 0, after) {
      var j :| 0 <= j < |rows| && forall i :: 0 <= i < |after| ==> after[i].key != rows[j].key;
      assert rows[j] in rows;
      assert rows[j].key in RowsMap(after).Keys;
      var i := PositionOf(after, rows[j].key);
      assert false;
    }
  }

  /** A row can be left out, for some iteration order, exactly if some row was returned before and some not. */
  lemma InsertSkipsIff(rows: seq<Row>, returned: nat, key: Bytes, value: Bytes)
    requires DistinctKeys(rows) && key !in KeysOf(rows) && returned <= |rows|
    ensures (exists after :: Inserted(rows, key, value, after) && SkipsRow(rows, returned, after))
       <==> 0 < returned < |rows|
  {
    if 0 < returned < |rows| {
      var swapped := Swapped(rows, returned);
      SwappedIsSame(rows, returned);
      assert KeysOf(swapped) == RowsMap(swapped).Keys == KeysOf(rows);
      Added(swapped, key, value);
      var after := swapped + [Row(key, value)];
      assert rows[returned] in rows;
      assert after[0].key == rows[returned].key;
      assert SkipsRow(rows, returned, after);
    } else if returned == 0 {
      forall after | Inserted(rows, key, value, after)
        ensures !SkipsRow(rows, 0, after)
      {
        NothingSkippedFromStart(rows, key, value, after);
      }
    }
  }

  /** Without the cache, an index read that finds its row empties the rows of a scan, which ends there. */
  lemma UncachedReadEndsScan(t: TxState, key: Bytes, chain: Contents, after: Scan)
    requires key in chain && RowsMap(after.rows) == TxRead(t, false, key, chain).cache
    ensures Current(StepScan(after, Next)) == None
  {
    assert KeysOf(after.rows) == RowsMap(after.rows).Keys == {};
    assert forall i :: 0 <= i < |after.rows| ==> after.rows[i] in after.rows && after.rows[i].key in KeysOf(after.rows);
  }
}
