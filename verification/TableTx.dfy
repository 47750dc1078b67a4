/**
 * The engine's transaction object for one table. In immediate mode each operation also starts a
 * worker that stages it on the chain; workers finish in any order.
 */
module TableTx {
  import opened Types
  import opened TableSpec
  import opened TableStorage
  import opened TxSpec

  // ---------------------------------------------------------------- the cache as a hash map

  predicate DistinctKeys(rows: seq<Row>) {
    forall i, j :: 0 <= i < j < |rows| ==> rows[i].key != rows[j].key
  }

  function RowsMap(rows: seq<Row>): Contents {
    map k | k in KeysOf(rows) :: LastValue(rows, k)
  }

  /** What inserting rows one by one gives when a key that is present keeps its value. */
  function FirstMap(rows: seq<Row>): Contents {
    if rows == [] then map[]
    else
      var earlier, last := FirstMap(rows[..|rows| - 1]), rows[|rows| - 1];
      if last.key in earlier then earlier else earlier[last.key := last.value]
  }

  function PositionOf(rows: seq<Row>, k: Bytes): (i: nat)
    requires k in KeysOf(rows)
    ensures i < |rows| && rows[i].key == k
  {
    if rows[0].key == k then 0
    else
      assert forall r :: r in rows ==> r == rows[0] || r in rows[1..];
      1 + PositionOf(rows[1..], k)
  }

  lemma {:induction false} RowsMapAt(rows: seq<Row>, i: nat)
    requires DistinctKeys(rows) && i < |rows|
    ensures Lookup(RowsMap(rows), rows[i].key) == Some(rows[i].value)
  {
    var last := |rows| - 1;
    assert rows[i] in rows;
    if i != last {
      RowsMapAt(rows[..last], i);
    }
  }

  lemma RowsMapIs(rows: seq<Row>, m: Contents)
    requires DistinctKeys(rows) && KeysOf(rows) == m.Keys
    requires forall i :: 0 <= i < |rows| ==> m[rows[i].key] == rows[i].value
    ensures RowsMap(rows) == m
  {
    forall k | k in m
      ensures RowsMap(rows)[k] == m[k]
    {
      RowsMapAt(rows, PositionOf(rows, k));
    }
  }

  lemma SameKeys(a: seq<Row>, b: seq<Row>)
    requires |a| == |b| && forall i :: 0 <= i < |a| ==> a[i].key == b[i].key
    ensures KeysOf(a) == KeysOf(b)
  {
    forall k
      ensures k in KeysOf(a) <==> k in KeysOf(b)
    {
      if k in KeysOf(a) {
        assert b[PositionOf(a, k)] in b;
      }
      if k in KeysOf(b) {
        assert a[PositionOf(b, k)] in a;
      }
    }
  }

  lemma InPlace(rows: seq<Row>, i: nat, value: Bytes)
    requires DistinctKeys(rows) && i < |rows|
    ensures var after := rows[i := Row(rows[i].key, value)];
            DistinctKeys(after) && RowsMap(after) == RowsMap(rows)[rows[i].key := value]
  {
    var after := rows[i := Row(rows[i].key, value)];
    forall j | 0 <= j < |rows|
      ensures Lookup(RowsMap(rows), rows[j].key) == Some(rows[j].value)
    {
      RowsMapAt(rows, j);
    }
    SameKeys(rows, after);
    RowsMapIs(after, RowsMap(rows)[rows[i].key := value]);
  }

  lemma LastKeyIsNew(rows: seq<Row>)
    requires DistinctKeys(rows) && rows != []
    ensures var front, last := rows[..|rows| - 1], rows[|rows| - 1];
            KeysOf(rows) == KeysOf(front) + {last.key} && last.key !in KeysOf(front)
  {
    assert rows == rows[..|rows| - 1] + [rows[|rows| - 1]];
  }

  lemma {:induction false} DistinctKeysCount(rows: seq<Row>)
    requires DistinctKeys(rows)
    ensures |KeysOf(rows)| == |rows|
  {
    if rows != [] {
      var front, last := rows[..|rows| - 1], rows[|rows| - 1];
      DistinctKeysCount(front);
      LastKeyIsNew(rows);
      assert |KeysOf(front) + {last.key}| == |KeysOf(front)| + 1;
    }
  }

  lemma Added(rows: seq<Row>, key: Bytes, value: Bytes)
    requires DistinctKeys(rows) && key !in KeysOf(rows)
    ensures DistinctKeys(rows + [Row(key, value)])
    ensures RowsMap(rows + [Row(key, value)]) == RowsMap(rows)[key := value]
  {
    forall j | 0 <= j < |rows|
      ensures rows[j].key != key
    {
      assert rows[j] in rows;
    }
    PutAppends(rows, key, value);
  }

  lemma DroppedKeys(rows: seq<Row>, i: nat)
    requires DistinctKeys(rows) && i < |rows|
    ensures KeysOf(rows[..i] + rows[i + 1..]) == KeysOf(rows) - {rows[i].key}
  {
    var after := rows[..i] + rows[i + 1..];
    forall k | k in KeysOf(after)
      ensures k in KeysOf(rows) && k != rows[i].key
    {
      var j := PositionOf(after, k);
      assert after[j] == rows[if j < i then j else j + 1];
    }
    forall k | k in KeysOf(rows) && k != rows[i].key
      ensures k in KeysOf(after)
    {
      var j := PositionOf(rows, k);
      assert rows[j] == after[if j < i then j else j - 1];
    }
  }

  lemma Dropped(rows: seq<Row>, i: nat)
    requires DistinctKeys(rows) && i < |rows|
    ensures DistinctKeys(rows[..i] + rows[i + 1..])
    ensures RowsMap(rows[..i] + rows[i + 1..]) == RowsMap(rows) - {rows[i].key}
  {
    var after := rows[..i] + rows[i + 1..];
    DroppedKeys(rows, i);
    forall j | 0 <= j < |after|
      ensures Lookup(RowsMap(rows), after[j].key) == Some(after[j].value)
    {
      RowsMapAt(rows, if j < i then j else j + 1);
    }
    RowsMapIs(after, RowsMap(rows) - {rows[i].key});
  }

  lemma EmplaceOne(rows: seq<Row>, i: nat, before: Contents)
    requires i < |rows|
    ensures var m := FirstMap(rows[..i]) + before;
            FirstMap(rows[..i + 1]) + before
            == if rows[i].key in m then m else m[rows[i].key := rows[i].value]
  {
    assert rows[..i + 1][..i] == rows[..i];
  }

  lemma OverlayAppend(m: Contents, puts: seq<Row>, key: Bytes, value: Bytes)
    ensures Overlay(m, puts + [Row(key, value)], []) == Overlay(m, puts, [])[key := value]
  {
    var more := puts + [Row(key, value)];
    PutAppends(puts, key, value);
    forall k
      ensures Lookup(Overlay(m, more, []), k) == Lookup(Overlay(m, puts, [])[key := value], k)
    {
      OverlayByKey(m, puts, [], k);
      OverlayByKey(m, more, [], k);
    }
    MapsEqualByLookup(Overlay(m, more, []), Overlay(m, puts, [])[key := value]);
  }

  lemma OverlayOnePut(m: Contents, puts: seq<Row>, i: nat)
    requires i < |puts|
    ensures Overlay(m, puts[..i + 1], []) == Overlay(m, puts[..i], [])[puts[i].key := puts[i].value]
  {
    assert puts[..i + 1] == puts[..i] + [Row(puts[i].key, puts[i].value)];
    OverlayAppend(m, puts[..i], puts[i].key, puts[i].value);
  }

  lemma OverlayOneRemove(m: Contents, puts: seq<Row>, removes: seq<Bytes>, i: nat)
    requires i < |removes|
    ensures Overlay(m, puts, removes[..i + 1]) == Overlay(m, puts, removes[..i]) - {removes[i]}
  {
    assert forall k :: k in removes[..i + 1] <==> k in removes[..i] || k == removes[i];
  }

  // ---------------------------------------------------------------- workers

  /** One worker was started for each pending operation. */
  ghost predicate StartedFor(started: seq<Op<Bytes>>, puts: seq<Row>, removes: seq<Bytes>) {
    Permutes(started, BatchOps(puts, removes))
  }

  /**
   * What workers delivered, together with what they still may deliver, is part of what was started,
   * and all of it when nothing failed.
   */
  ghost predicate Accounted(started: seq<Op<Bytes>>, running: seq<Op<Bytes>>, delivered: seq<Op<Bytes>>,
                            nothingLost: bool) {
    forall x ::
      && Count(running, x) + Count(delivered, x) <= Count(started, x)
      && (nothingLost ==> Count(running, x) + Count(delivered, x) == Count(started, x))
  }

  /** Batch mode has no workers; in immediate mode their operations are accounted for. */
  ghost predicate WorkersConsistent(immediately: bool, started: seq<Op<Bytes>>, running: seq<Op<Bytes>>,
                                    delivered: seq<Op<Bytes>>, nothingLost: bool) {
    && (!immediately ==> started == [] && delivered == [] && running == [])
    && Accounted(started, running, delivered, nothingLost)
  }

  lemma StartAccounted(started: seq<Op<Bytes>>, running: seq<Op<Bytes>>, delivered: seq<Op<Bytes>>, nothingLost: bool,
                       op: Op<Bytes>)
    requires Accounted(started, running, delivered, nothingLost)
    ensures Accounted(started + [op], running + [op], delivered, nothingLost)
  {
    forall x
      ensures Count(started + [op], x) - Count(running + [op], x) == Count(started, x) - Count(running, x)
    {
      CountAppend(started, op, x);
      CountAppend(running, op, x);
    }
  }

  lemma FinishAccounted(started: seq<Op<Bytes>>, running: seq<Op<Bytes>>, delivered: seq<Op<Bytes>>, nothingLost: bool,
                        i: nat)
    requires Accounted(started, running, delivered, nothingLost) && i < |running|
    ensures Accounted(started, running[..i] + running[i + 1..], delivered + [running[i]], nothingLost)
    ensures Accounted(started, running[..i] + running[i + 1..], delivered, false)
  {
    var rest := running[..i] + running[i + 1..];
    forall x
      ensures Count(rest, x) + (if running[i] == x then 1 else 0) == Count(running, x)
      ensures Count(delivered + [running[i]], x) == Count(delivered, x) + if running[i] == x then 1 else 0
    {
      assert running == running[..i] + [running[i]] + running[i + 1..];
      CountConcat(running[..i], running[i + 1..], x);
      CountConcat(running[..i] + [running[i]], running[i + 1..], x);
      CountAppend(running[..i], running[i], x);
      CountAppend(delivered, running[i], x);
    }
  }

  // ---------------------------------------------------------------- the object's state as a value

  /** The whole state of a transaction object, as it is owned by exactly one session slot. */
  datatype TxData = TxData(id: TxId,
                           prepareImmediately: bool,
                           putOperations: seq<Row>,
                           removeOperations: seq<Bytes>,
                           pendingRemoveOperations: seq<Bytes>,
                           tableScanData: seq<Row>,
                           tableScanDataFilled: bool,
                           pendingRemoveActivated: bool,
                           commitPrepareWorkers: seq<Op<Bytes>>,
                           running: seq<Op<Bytes>>,
                           commitPrepareSuccess: bool,
                           delivered: seq<Op<Bytes>>,
                           honest: bool)

  datatype Slot = Slot(tx: TxData)

  ghost predicate ValidRecord(r: TxData) {
    && DistinctKeys(r.tableScanData)
    && WorkersConsistent(r.prepareImmediately, r.commitPrepareWorkers, r.running, r.delivered,
                         r.commitPrepareSuccess && r.honest)
    && (r.prepareImmediately ==> StartedFor(r.commitPrepareWorkers, r.putOperations, r.removeOperations))
  }

  function StateOf(r: TxData): TxState {
    TxState(r.putOperations, r.removeOperations, r.pendingRemoveOperations,
            RowsMap(r.tableScanData), r.tableScanDataFilled, r.pendingRemoveActivated)
  }

  function NewRecord(id: TxId, prepareImmediately: bool): (r: TxData)
    ensures ValidRecord(r) && StateOf(r) == EMPTY_TX
  {
    TxData(id, prepareImmediately, [], [], [], [], false, false, [], [], true, [], true)
  }

  function ReadOnlyRecord(r: TxData): bool {
    if r.prepareImmediately then r.commitPrepareWorkers == [] else r.putOperations == [] && r.removeOperations == []
  }

  /** Once all workers have finished, with success and honestly, the chain has got exactly the issued operations. */
  lemma JoinedMeansDelivered(r: TxData)
    requires ValidRecord(r) && r.prepareImmediately
    requires r.running == [] && r.commitPrepareSuccess && r.honest
    ensures Permutes(r.delivered, BatchOps(r.putOperations, r.removeOperations))
  {
    forall x
      ensures Count(r.delivered, x) == Count(BatchOps(r.putOperations, r.removeOperations), x)
    {
      assert Count(r.running, x) == 0;
    }
  }

  /** Nothing gets staged that was not issued. */
  lemma OnlyIssuedDelivered(r: TxData, x: Op<Bytes>)
    requires ValidRecord(r) && r.prepareImmediately
    ensures Count(r.delivered, x) <= Count(BatchOps(r.putOperations, r.removeOperations), x)
  {
    assert Count(r.commitPrepareWorkers, x) == Count(BatchOps(r.putOperations, r.removeOperations), x);
    assert Count(r.running, x) + Count(r.delivered, x) <= Count(r.commitPrepareWorkers, x);
  }

  /** In immediate mode there are as many workers as operations, so both tests for a read-only transaction agree. */
  lemma ReadOnlyMeansNoOperations(r: TxData)
    requires ValidRecord(r)
    ensures r.prepareImmediately ==> |r.commitPrepareWorkers| == |r.putOperations| + |r.removeOperations|
    ensures ReadOnlyRecord(r) <==> r.putOperations == [] && r.removeOperations == []
    ensures ReadOnlyRecord(r) ==> r.delivered == []
  {
    if r.prepareImmediately {
      var batch := BatchOps(r.putOperations, r.removeOperations);
      PermutesLength(r.commitPrepareWorkers, batch);
    }
    if r.delivered != [] {
      CountPositive(r.delivered, r.delivered[0]);
      OnlyIssuedDelivered(r, r.delivered[0]);
    }
  }

  lemma ApplyPendingHead(t: TxState)
    requires t.pending != []
    ensures TxApplyPending(TxRemove(t.(pending := t.pending[1..]), t.pending[0], false)) == TxApplyPending(t)
  {
    var head, rest := t.pending[0], t.pending[1..];
    assert t.removes + [head] + rest == t.removes + t.pending;
    assert Keys(t.pending) == {head} + Keys(rest);
    assert t.cache - {head} - Keys(rest) == t.cache - Keys(t.pending);
  }

  // ---------------------------------------------------------------- the transaction object

  // ---------------------------------------------------------------- joining workers

  /** A worker that is still running, and how its call will end. */
  datatype Worker = Worker(op: Op<Bytes>, rpc: Rpc)

  /** The workers of some operations; the outcome of each goes by its position. */
  function Paired(ops: seq<Op<Bytes>>, rpcs: nat -> Rpc): (workers: seq<Worker>)
    ensures |workers| == |ops|
  {
    seq(|ops|, i requires 0 <= i < |ops| => Worker(ops[i], rpcs(i)))
  }

  function OpsOf(workers: seq<Worker>): (ops: seq<Op<Bytes>>)
    ensures |ops| == |workers|
  {
    seq(|workers|, i requires 0 <= i < |workers| => workers[i].op)
  }

  /** What one worker's call stages. */
  function StagedBy(op: Op<Bytes>, rpc: Rpc): seq<Op<Bytes>> {
    if rpc.applied then [op] else []
  }

  /** The operations whose calls take effect. */
  function AppliedOf(workers: seq<Worker>): seq<Op<Bytes>> {
    if workers == [] then []
    else AppliedOf(workers[..|workers| - 1]) + StagedBy(workers[|workers| - 1].op, workers[|workers| - 1].rpc)
  }

  function AppliedOps(ops: seq<Op<Bytes>>, rpcs: nat -> Rpc): seq<Op<Bytes>> {
    AppliedOf(Paired(ops, rpcs))
  }

  predicate EachReported(workers: seq<Worker>) {
    forall i :: 0 <= i < |workers| ==> workers[i].rpc.reported
  }

  predicate EachHonest(workers: seq<Worker>) {
    forall i :: 0 <= i < |workers| ==> workers[i].rpc.Honest()
  }

  lemma {:induction false} AppliedConcat(a: seq<Worker>, b: seq<Worker>)
    ensures AppliedOf(a + b) == AppliedOf(a) + AppliedOf(b)
  {
    if b == [] {
      assert a + b == a;
    } else {
      assert (a + b)[..|a + b| - 1] == a + b[..|b| - 1];
      AppliedConcat(a, b[..|b| - 1]);
    }
  }

  function Rest<T>(s: seq<T>, i: nat): seq<T>
    requires i < |s|
  {
    s[..i] + s[i + 1..]
  }

  lemma AppliedRest(workers: seq<Worker>, i: nat, x: Op<Bytes>)
    requires i < |workers|
    ensures Count(AppliedOf(workers), x)
         == Count(AppliedOf(Rest(workers, i)), x) + Count(StagedBy(workers[i].op, workers[i].rpc), x)
  {
    var one := [workers[i]];
    assert workers == workers[..i] + one + workers[i + 1..];
    assert one[..0] == [] && AppliedOf(one) == StagedBy(workers[i].op, workers[i].rpc);
    AppliedConcat(workers[..i] + one, workers[i + 1..]);
    AppliedConcat(workers[..i], one);
    AppliedConcat(workers[..i], workers[i + 1..]);
    CountConcat(AppliedOf(workers[..i]) + AppliedOf(one), AppliedOf(workers[i + 1..]), x);
    CountConcat(AppliedOf(workers[..i]), AppliedOf(one), x);
    CountConcat(AppliedOf(workers[..i]), AppliedOf(workers[i + 1..]), x);
  }

  /** What arrived, and what the workers left will stage, is what all workers stage. */
  ghost predicate Joined(all: seq<Worker>, left: seq<Worker>, arrived: seq<Op<Bytes>>) {
    forall x :: Count(arrived, x) + Count(AppliedOf(left), x) == Count(AppliedOf(all), x)
  }

  lemma OneJoined(all: seq<Worker>, left: seq<Worker>, arrived: seq<Op<Bytes>>, i: nat)
    requires Joined(all, left, arrived) && i < |left|
    ensures Joined(all, Rest(left, i), arrived + StagedBy(left[i].op, left[i].rpc))
  {
    forall x
      ensures Count(arrived + StagedBy(left[i].op, left[i].rpc), x) + Count(AppliedOf(Rest(left, i)), x)
           == Count(AppliedOf(all), x)
    {
      AppliedRest(left, i, x);
      CountConcat(arrived, StagedBy(left[i].op, left[i].rpc), x);
    }
  }

  lemma RestReported(workers: seq<Worker>, i: nat)
    requires i < |workers|
    ensures EachReported(workers) <==> workers[i].rpc.reported && EachReported(Rest(workers, i))
    ensures EachHonest(workers) <==> workers[i].rpc.Honest() && EachHonest(Rest(workers, i))
    ensures OpsOf(Rest(workers, i)) == Rest(OpsOf(workers), i)
  {
    var rest := Rest(workers, i);
    assert forall j :: 0 <= j < |workers| && j != i ==> workers[j] == rest[if j < i then j else j - 1];
  }

  class TableTx {
    const id: TxId
    const prepareImmediately: bool
    var putOperations: seq<Row>
    var removeOperations: seq<Bytes>
    var pendingRemoveOperations: seq<Bytes>
    var tableScanData: seq<Row>
    var tableScanDataFilled: bool
    var pendingRemoveActivated: bool
    var commitPrepareWorkers: seq<Op<Bytes>>    // one thread for each operation
    var running: seq<Op<Bytes>>                 // those that have not finished
    var commitPrepareSuccess: bool

    var delivered: seq<Op<Bytes>>               // what finished workers staged, in order
    var honest: bool                            // no worker's call was reported as done but undone

    function Record(): TxData
      reads this
    {
      TxData(id, prepareImmediately, putOperations, removeOperations, pendingRemoveOperations,
             tableScanData, tableScanDataFilled, pendingRemoveActivated,
             commitPrepareWorkers, running, commitPrepareSuccess, delivered, honest)
    }

    ghost predicate Valid()
      reads this
    {
      ValidRecord(Record())
    }

    ghost predicate WorkersValid()
      reads this`commitPrepareWorkers, this`running, this`commitPrepareSuccess, this`delivered, this`honest
    {
      WorkersConsistent(prepareImmediately, commitPrepareWorkers, running, delivered, commitPrepareSuccess && honest)
    }

    function Abs(): TxState
      reads this
    {
      StateOf(Record())
    }

    constructor (id: TxId, prepareImmediately: bool)
      ensures Valid() && Abs() == EMPTY_TX && delivered == [] && IsReadOnly()
      ensures this.id == id && this.prepareImmediately == prepareImmediately
      ensures running == [] && commitPrepareSuccess && Record() == NewRecord(id, prepareImmediately)
    {
      this.id, this.prepareImmediately := id, prepareImmediately;
      putOperations, removeOperations, pendingRemoveOperations := [], [], [];
      tableScanData, tableScanDataFilled, pendingRemoveActivated := [], false, false;
      commitPrepareWorkers, running, commitPrepareSuccess := [], [], true;
      delivered, honest := [], true;
    }

    // -------------------------------------------------------------- the cache

    /** Overwriting keeps the iteration order; inserting may change it in any way. */
    method ApplyPutToCache(key: Bytes, value: Bytes)
      requires DistinctKeys(tableScanData)
      modifies this`tableScanData
      ensures DistinctKeys(tableScanData)
      ensures RowsMap(tableScanData) == old(RowsMap(tableScanData))[key := value]
      ensures key in old(KeysOf(tableScanData)) ==>
                tableScanData == old(tableScanData[PositionOf(tableScanData, key) := Row(key, value)])
    {
      if key in KeysOf(tableScanData) {
        var i := PositionOf(tableScanData, key);
        InPlace(tableScanData, i, value);
        tableScanData := tableScanData[i := Row(key, value)];
      } else {
        var m := RowsMap(tableScanData)[key := value];
        Added(tableScanData, key, value);
        var rehashed: seq<Row> :| DistinctKeys(rehashed) && RowsMap(rehashed) == m;
        tableScanData := rehashed;
      }
    }

    method ApplyRemoveToCache(key: Bytes)
      requires DistinctKeys(tableScanData)
      modifies this`tableScanData
      ensures DistinctKeys(tableScanData)
      ensures RowsMap(tableScanData) == old(RowsMap(tableScanData)) - {key}
    {
      if key in KeysOf(tableScanData) {
        var m := RowsMap(tableScanData) - {key};
        Dropped(tableScanData, PositionOf(tableScanData, key));
        var rehashed: seq<Row> :| DistinctKeys(rehashed) && RowsMap(rehashed) == m;
        tableScanData := rehashed;
      }
    }

    /** The rows of a table scan; a row whose key is already cached is dropped. */
    method Emplace(rows: seq<Row>)
      requires Valid()
      modifies this`tableScanData
      ensures Valid() && Abs() == TxEmplace(old(Abs()), FirstMap(rows))
    {
      ghost var before := Abs().cache;
      for i := 0 to |rows|
        invariant DistinctKeys(tableScanData)
        invariant RowsMap(tableScanData) == FirstMap(rows[..i]) + before
      {
        EmplaceOne(rows, i, before);
        assert KeysOf(tableScanData) == RowsMap(tableScanData).Keys;
        if rows[i].key !in KeysOf(tableScanData) {
          ApplyPutToCache(rows[i].key, rows[i].value);
        }
      }
      assert rows[..|rows|] == rows;
    }

    method ReapplyPendingOperations()
      requires Valid()
      modifies this`tableScanData
      ensures Valid() && Abs() == TxReapply(old(Abs()))
    {
      ghost var before := Abs().cache;
      assert Overlay(before, putOperations[..0], []) == before;
      for i := 0 to |putOperations|
        invariant DistinctKeys(tableScanData)
        invariant RowsMap(tableScanData) == Overlay(before, putOperations[..i], [])
      {
        OverlayOnePut(before, putOperations, i);
        ApplyPutToCache(putOperations[i].key, putOperations[i].value);
      }
      assert putOperations[..|putOperations|] == putOperations;
      for i := 0 to |removeOperations|
        invariant DistinctKeys(tableScanData)
        invariant RowsMap(tableScanData) == Overlay(before, putOperations, removeOperations[..i])
      {
        OverlayOneRemove(before, putOperations, removeOperations, i);
        ApplyRemoveToCache(removeOperations[i]);
      }
      assert removeOperations[..|removeOperations|] == removeOperations;
    }

    // -------------------------------------------------------------- recording operations

    method StartWorker(op: Op<Bytes>)
      requires WorkersValid() && prepareImmediately
      modifies this`commitPrepareWorkers, this`running
      ensures WorkersValid()
      ensures commitPrepareWorkers == old(commitPrepareWorkers) + [op] && running == old(running) + [op]
    {
      StartAccounted(commitPrepareWorkers, running, delivered, commitPrepareSuccess && honest, op);
      commitPrepareWorkers := commitPrepareWorkers + [op];
      running := running + [op];
    }

    method AddPut(key: Bytes, value: Bytes)
      requires Valid()
      modifies this`commitPrepareWorkers, this`running, this`tableScanData, this`putOperations
      ensures Valid() && Abs() == TxPut(old(Abs()), key, value)
      ensures running == if prepareImmediately then old(running) + [PutOp(key, value)] else old(running)
      ensures key in old(KeysOf(tableScanData)) ==>
                tableScanData == old(tableScanData[PositionOf(tableScanData, key) := Row(key, value)])
    {
      if prepareImmediately {
        OnePutMore(commitPrepareWorkers, putOperations, removeOperations, key, value);
        StartWorker(PutOp(key, value));
      }
      ApplyPutToCache(key, value);
      putOperations := putOperations + [Row(key, value)];
    }

    method RecordRemove(key: Bytes)
      requires Valid()
      modifies this`commitPrepareWorkers, this`running, this`tableScanData, this`removeOperations
      ensures Valid() && Abs() == TxRemove(old(Abs()), key, false)
      ensures running == if prepareImmediately then old(running) + [RemoveOp(key)] else old(running)
    {
      if prepareImmediately {
        RemovesMore(commitPrepareWorkers, putOperations, removeOperations, [key]);
        assert RemoveOps([key]) == [RemoveOp(key)];
        StartWorker(RemoveOp(key));
      }
      ApplyRemoveToCache(key);
      removeOperations := removeOperations + [key];
    }

    method AddRemove(key: Bytes, deferrable: bool)
      requires Valid()
      modifies this`commitPrepareWorkers, this`running, this`tableScanData, this`removeOperations,
               this`pendingRemoveOperations
      ensures Valid() && Abs() == TxRemove(old(Abs()), key, deferrable)
      ensures running
           == if prepareImmediately && !(deferrable && pendingRemoveActivated) then old(running) + [RemoveOp(key)]
              else old(running)
      ensures deferrable && old(pendingRemoveActivated) ==> tableScanData == old(tableScanData)
    {
      if deferrable && pendingRemoveActivated {
        pendingRemoveOperations := pendingRemoveOperations + [key];
      } else {
        RecordRemove(key);
      }
    }

    method ApplyPendingRemoveOps()
      requires Valid()
      modifies this`commitPrepareWorkers, this`running, this`tableScanData, this`removeOperations,
               this`pendingRemoveOperations
      ensures Valid() && Abs() == TxApplyPending(old(Abs()))
    {
      while pendingRemoveOperations != []
        invariant Valid() && TxApplyPending(Abs()) == TxApplyPending(old(Abs()))
        decreases |pendingRemoveOperations|
      {
        ghost var t := Abs();
        var key := pendingRemoveOperations[0];
        pendingRemoveOperations := pendingRemoveOperations[1..];
        AddRemove(key, false);
        ApplyPendingHead(t);
      }
      assert TxApplyPending(Abs()) == Abs();
    }

    predicate IsReadOnly()
      reads this
    {
      ReadOnlyRecord(Record())
    }

    // -------------------------------------------------------------- workers

    /** One worker sends its operation to the table's contract and records the outcome. */
    method RunWorker(i: nat, store: Store, rpc: Rpc) returns (after: Store)
      requires WorkersValid() && i < |running|
      modifies this`running, this`commitPrepareSuccess, this`delivered, this`honest
      ensures WorkersValid() && running == old(running[..i] + running[i + 1..])
      ensures rpc.applied ==>
                delivered == old(delivered) + [old(running)[i]] && after == StoreStage(store, id, [old(running)[i]])
      ensures !rpc.applied ==> delivered == old(delivered) && after == store
      ensures commitPrepareSuccess == (old(commitPrepareSuccess) && rpc.reported)
      ensures honest == (old(honest) && rpc.Honest())
    {
      FinishAccounted(commitPrepareWorkers, running, delivered, commitPrepareSuccess && honest, i);
      var op := running[i];
      running := running[..i] + running[i + 1..];
      after := store;
      if rpc.applied {
        after := StoreStage(store, id, [op]);
        delivered := delivered + [op];
      }
      commitPrepareSuccess := commitPrepareSuccess && rpc.reported;
      honest := honest && rpc.Honest();
    }

    /** Some running worker finishes next. */
    method JoinAny(store: Store, staged: Store, before: seq<Op<Bytes>>, workers: seq<Worker>, ghost all: seq<Worker>)
      returns (after: Store, arrived: seq<Op<Bytes>>, left: seq<Worker>)
      requires WorkersValid() && running == OpsOf(workers) && workers != []
      requires staged == StoreStage(store, id, before) && Joined(all, workers, before)
      modifies this`running, this`commitPrepareSuccess, this`delivered, this`honest
      ensures WorkersValid() && running == OpsOf(left) && |left| == |workers| - 1
      ensures before <= arrived && delivered == old(delivered) + arrived[|before|..]
      ensures after == StoreStage(store, id, arrived) && Joined(all, left, arrived)
      ensures commitPrepareSuccess && EachReported(left) <==> old(commitPrepareSuccess) && EachReported(workers)
      ensures honest && EachHonest(left) <==> old(honest) && EachHonest(workers)
    {
      var i :| 0 <= i < |workers|;
      var worker := workers[i];
      RestReported(workers, i);
      OneJoined(all, workers, before, i);
      after := RunWorker(i, staged, worker.rpc);
      left, arrived := Rest(workers, i), before + StagedBy(worker.op, worker.rpc);
      StageTwice(store, id, before, StagedBy(worker.op, worker.rpc));
    }

    /**
     * Joins all workers, which finish in any order. What arrives is a permutation of the operations whose
     * calls take effect, and the join succeeds exactly if the calls of all workers, those that finished
     * earlier included, returned 0.
     */
    method WaitForCommitPrepareWorkers(store: Store, rpcs: nat -> Rpc)
      returns (success: bool, after: Store, arrived: seq<Op<Bytes>>)
      requires Valid()
      modifies this`running, this`commitPrepareSuccess, this`delivered, this`honest
      ensures Valid() && running == []
      ensures delivered == old(delivered) + arrived && Permutes(arrived, AppliedOps(old(running), rpcs))
      ensures after == StoreStage(store, id, arrived)
      ensures success == commitPrepareSuccess
      ensures success <==> old(commitPrepareSuccess) && EachReported(Paired(old(running), rpcs))
      ensures honest <==> old(honest) && EachHonest(Paired(old(running), rpcs))
    {
      after, arrived := store, [];
      var all := Paired(running, rpcs);
      var left := all;
      assert running == OpsOf(left);
      while left != []
        invariant WorkersValid() && running == OpsOf(left)
        invariant delivered == old(delivered) + arrived && Joined(all, left, arrived)
        invariant after == StoreStage(store, id, arrived)
        invariant commitPrepareSuccess && EachReported(left) <==> old(commitPrepareSuccess) && EachReported(all)
        invariant honest && EachHonest(left) <==> old(honest) && EachHonest(all)
        decreases |left|
      {
        after, arrived, left := JoinAny(store, after, arrived, left, all);
      }
      success := commitPrepareSuccess;
    }

    // -------------------------------------------------------------- moving the object

    /** The object in a slot. */
    function InSlot(): (slot: Slot)
      requires Valid()
      reads this
      ensures slot.tx == Record() && StateOf(slot.tx) == Abs() && ValidRecord(slot.tx)
    {
      Slot(Record())
    }

    /** The object moved out of a slot. */
    constructor Moved(slot: Slot)
      requires ValidRecord(slot.tx)
      ensures Valid() && Record() == slot.tx && Abs() == StateOf(slot.tx)
    {
      var r := slot.tx;
      id, prepareImmediately := r.id, r.prepareImmediately;
      putOperations, removeOperations := r.putOperations, r.removeOperations;
      pendingRemoveOperations := r.pendingRemoveOperations;
      tableScanData, tableScanDataFilled := r.tableScanData, r.tableScanDataFilled;
      pendingRemoveActivated := r.pendingRemoveActivated;
      commitPrepareWorkers, running, commitPrepareSuccess := r.commitPrepareWorkers, r.running, r.commitPrepareSuccess;
      delivered, honest := r.delivered, r.honest;
    }
  }
}
