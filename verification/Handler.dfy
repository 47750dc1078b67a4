/**
 * The handler of one table in one session: rows go in and out through byte buffers, reads and writes
 * go through the transaction object, or straight to the contract in auto-commit mode.
 */
module Handler {
  import opened Types
  import opened TableSpec
  import opened TableStorage
  import opened TxSpec
  import opened TableTx
  import opened ScanSpec

  const HA_ERR_WRONG_COMMAND: nat := 131
  const HA_ERR_END_OF_FILE: nat := 137

  function Zeros(n: nat): (zeros: Bytes)
    ensures |zeros| == n && forall i :: 0 <= i < n ==> zeros[i] == 0
  {
    seq(n, i => 0)
  }

  /** Copies data into the buffer at pos. */
  method Memcpy(buf: array<byte>, pos: nat, data: Bytes)
    requires pos + |data| <= buf.Length
    modifies buf
    ensures buf[..] == old(buf[..pos]) + data + old(buf[pos + |data|..])
  {
    for i := 0 to |data|
      invariant buf[..pos] == old(buf[..pos])
      invariant buf[pos..pos + i] == data[..i]
      invariant buf[pos + i..] == old(buf[pos + i..])
    {
      buf[pos + i] := data[i];
      assert buf[pos..pos + i + 1] == buf[pos..pos + i] + [buf[pos + i]];
    }
    assert buf[..][pos..pos + |data|] == buf[pos..pos + |data|] == data;
    assert buf[..][..pos] == buf[..pos] && buf[..][pos + |data|..] == buf[pos + |data|..];
    CutInThree(buf[..], pos, pos + |data|);
  }

  // ---------------------------------------------------------------- row sizes

  ghost predicate Sized(m: Contents, keyLength: nat, valueLength: nat) {
    forall k :: k in m ==> |k| == keyLength && |m[k]| == valueLength
  }

  ghost predicate RowsSized(rows: seq<Row>, keyLength: nat, valueLength: nat) {
    forall r :: r in rows ==> |r.key| == keyLength && |r.value| == valueLength
  }

  ghost predicate TxSized(t: TxState, keyLength: nat, valueLength: nat) {
    Sized(t.cache, keyLength, valueLength) && RowsSized(t.puts, keyLength, valueLength)
  }

  lemma {:induction false} LastValueSized(rows: seq<Row>, k: Bytes, keyLength: nat, valueLength: nat)
    requires RowsSized(rows, keyLength, valueLength) && k in KeysOf(rows)
    ensures |k| == keyLength && |LastValue(rows, k)| == valueLength
  {
    var last := rows[|rows| - 1];
    assert last in rows;
    if last.key != k {
      assert forall r :: r in rows ==> r in rows[..|rows| - 1] || r == last;
      LastValueSized(rows[..|rows| - 1], k, keyLength, valueLength);
    }
  }

  lemma ReapplySized(t: TxState, keyLength: nat, valueLength: nat)
    requires TxSized(t, keyLength, valueLength)
    ensures TxSized(TxReapply(t), keyLength, valueLength)
  {
    forall k | k in TxReapply(t).cache
      ensures |k| == keyLength && |TxReapply(t).cache[k]| == valueLength
    {
      ReapplyAt(t, k);
      if k in KeysOf(t.puts) {
        LastValueSized(t.puts, k, keyLength, valueLength);
      }
    }
  }

  lemma BeginScanSized(t: TxState, useCache: bool, chain: Contents, keyLength: nat, valueLength: nat)
    requires TxSized(t, keyLength, valueLength) && Sized(chain, keyLength, valueLength)
    ensures TxSized(TxBeginScan(t, useCache, chain), keyLength, valueLength)
  {
    ReapplySized(TxEmplace(TxActivateScan(t, useCache), chain), keyLength, valueLength);
  }

  lemma ReadSized(t: TxState, useCache: bool, k: Bytes, chain: Contents, keyLength: nat, valueLength: nat)
    requires TxSized(t, keyLength, valueLength)
    requires k in chain ==> |k| == keyLength && |chain[k]| == valueLength
    ensures TxSized(TxFetch(t, useCache, k, chain), keyLength, valueLength)
    ensures TxSized(TxRead(t, useCache, k, chain), keyLength, valueLength)
  {
    if k in chain {
      ReapplySized(t.(cache := t.cache[k := chain[k]]), keyLength, valueLength);
    }
  }

  lemma {:induction false} FirstMapSized(rows: seq<Row>, keyLength: nat, valueLength: nat)
    requires RowsSized(rows, keyLength, valueLength)
    ensures Sized(FirstMap(rows), keyLength, valueLength)
  {
    if rows != [] {
      assert rows[|rows| - 1] in rows;
      FirstMapSized(rows[..|rows| - 1], keyLength, valueLength);
    }
  }

  // ---------------------------------------------------------------- the handler

  class HaBlockchain {
    const nullBytes: nat
    const keyLength: nat
    const valueLength: nat
    const useTableScanCache: bool
    const store: KVStore
    var tx: TableTx?                    // the session's slot for this table; null in auto-commit mode
    var currentPosition: nat
    var rndTableScanData: seq<Bytes>    // rows of a scan in auto-commit mode, key and value joined

    ghost predicate Valid()
      reads this, tx
    {
      && currentPosition < OFFSETS
      && (forall t :: t in rndTableScanData ==> |t| == keyLength + valueLength)
      && (tx != null ==> tx.Valid() && TxSized(tx.Abs(), keyLength, valueLength))
    }

    constructor (nullBytes: nat, keyLength: nat, valueLength: nat, useTableScanCache: bool, store: KVStore,
                 tx: TableTx?)
      requires tx != null ==> tx.Valid() && TxSized(tx.Abs(), keyLength, valueLength)
      ensures Valid() && this.tx == tx && this.store == store
    {
      this.nullBytes, this.keyLength, this.valueLength := nullBytes, keyLength, valueLength;
      this.useTableScanCache, this.store, this.tx := useTableScanCache, store, tx;
      currentPosition, rndTableScanData := 0, [];
    }

    /** A buffer with room for one row: null bytes, then the key, then the value. */
    predicate RowBuffer(buf: array<byte>) {
      buf.Length == nullBytes + keyLength + valueLength
    }

    function ExtractKey(row: Bytes): Bytes
      requires |row| == nullBytes + keyLength + valueLength
    {
      row[nullBytes..nullBytes + keyLength]
    }

    function ExtractValue(row: Bytes): Bytes
      requires |row| == nullBytes + keyLength + valueLength
    {
      row[nullBytes + keyLength..]
    }

    /** The bytes of a row whose null bits are clear. */
    function RowBytes(row: Row): Bytes {
      Zeros(nullBytes) + row.key + row.value
    }

    ghost function ScanState(): Scan
      requires tx != null
      reads this, tx
    {
      Scan(tx.tableScanData, currentPosition, tx.pendingRemoveOperations)
    }

    // -------------------------------------------------------------- writing

    method PutDirectly(key: Bytes, value: Bytes, block: BlockNumber, rpc: Rpc) returns (rc: nat)
      modifies store
      ensures rc == if rpc.reported then 0 else 1
      ensures store.State()
           == if rpc.applied then StorePut(old(store.State()), block, key, value) else old(store.State())
    {
      if rpc.applied {
        store.Put(block, key, value);
      }
      return if rpc.reported then 0 else 1;
    }

    method WriteRow(buf: array<byte>, block: BlockNumber, rpc: Rpc) returns (rc: nat)
      requires Valid() && RowBuffer(buf)
      modifies tx, store
      ensures Valid()
      ensures tx != null ==>
                && rc == 0 && store.State() == old(store.State())
                && tx.Abs() == TxPut(old(tx.Abs()), ExtractKey(buf[..]), ExtractValue(buf[..]))
                && (ExtractKey(buf[..]) in old(KeysOf(tx.tableScanData)) ==>
                      ScanState() == StepScan(old(ScanState()), Update(ExtractKey(buf[..]), ExtractValue(buf[..]))))
      ensures tx == null ==>
                && rc == (if rpc.reported then 0 else 1)
                && store.State() == if rpc.applied
                     then StorePut(old(store.State()), block, ExtractKey(buf[..]), ExtractValue(buf[..]))
                     else old(store.State())
    {
      var key, value := ExtractKey(buf[..]), ExtractValue(buf[..]);
      if tx != null {
        tx.AddPut(key, value);
        return 0;
      }
      rc := PutDirectly(key, value, block, rpc);
    }

    /** An update may not change the key. */
    method UpdateRow(oldData: array<byte>, newData: array<byte>, block: BlockNumber, rpc: Rpc) returns (rc: nat)
      requires Valid() && RowBuffer(oldData) && RowBuffer(newData)
      modifies tx, store
      ensures Valid()
      ensures ExtractKey(oldData[..]) != ExtractKey(newData[..]) ==>
                && rc == HA_ERR_WRONG_COMMAND && store.State() == old(store.State())
                && (tx != null ==> tx.Abs() == old(tx.Abs()) && ScanState() == old(ScanState()))
      ensures ExtractKey(oldData[..]) == ExtractKey(newData[..]) && tx != null ==>
                && rc == 0 && store.State() == old(store.State())
                && tx.Abs() == TxPut(old(tx.Abs()), ExtractKey(newData[..]), ExtractValue(newData[..]))
                && (ExtractKey(newData[..]) in old(KeysOf(tx.tableScanData)) ==>
                      ScanState() == StepScan(old(ScanState()),
                                              Update(ExtractKey(newData[..]), ExtractValue(newData[..]))))
      ensures ExtractKey(oldData[..]) == ExtractKey(newData[..]) && tx == null ==>
                && rc == (if rpc.reported then 0 else 1)
                && store.State() == if rpc.applied
                     then StorePut(old(store.State()), block, ExtractKey(newData[..]), ExtractValue(newData[..]))
                     else old(store.State())
    {
      if ExtractKey(oldData[..]) != ExtractKey(newData[..]) {
        return HA_ERR_WRONG_COMMAND;
      }
      rc := WriteRow(newData, block, rpc);
    }

    method DeleteRow(buf: array<byte>, block: BlockNumber, rpc: Rpc) returns (rc: nat)
      requires Valid() && RowBuffer(buf)
      modifies tx, store
      ensures Valid()
      ensures tx != null ==>
                && rc == 0 && store.State() == old(store.State())
                && tx.Abs() == TxRemove(old(tx.Abs()), ExtractKey(buf[..]), true)
                && (old(tx.pendingRemoveActivated) ==>
                      ScanState() == StepScan(old(ScanState()), ScanStep.DeleteRow(ExtractKey(buf[..]))))
                && (!old(tx.pendingRemoveActivated) ==>
                      && tx.removeOperations == old(tx.removeOperations) + [ExtractKey(buf[..])]
                      && ExtractKey(buf[..]) !in KeysOf(tx.tableScanData))
      ensures tx == null ==>
                && rc == (if rpc.reported then 0 else 1)
                && store.State() == if rpc.applied
                     then StoreRemove(old(store.State()), ExtractKey(buf[..]))
                     else old(store.State())
    {
      var key := ExtractKey(buf[..]);
      if tx != null {
        tx.AddRemove(key, true);
        assert tx.removeOperations == tx.Abs().removes && KeysOf(tx.tableScanData) == tx.Abs().cache.Keys;
        return 0;
      }
      if rpc.applied {
        store.Remove(key);
      }
      return if rpc.reported then 0 else 1;
    }

    // -------------------------------------------------------------- scanning

    function Tuples(rows: seq<Row>): seq<Bytes> {
      seq(|rows|, i requires 0 <= i < |rows| => rows[i].key + rows[i].value)
    }

    /** Without the table scan cache nothing that was read is kept. */
    method ClearUncached()
      requires tx != null && tx.Valid()
      modifies tx`tableScanData
      ensures tx.Valid()
      ensures tx.Abs() == if useTableScanCache then old(tx.Abs()) else old(tx.Abs()).(cache := map[])
      ensures tx.tableScanData == if useTableScanCache then old(tx.tableScanData) else []
    {
      if !useTableScanCache {
        tx.tableScanData := [];
        assert tx.Abs().cache == map[];
      }
    }

    method ActivateScan()
      requires tx != null && tx.Valid()
      modifies tx`pendingRemoveActivated, tx`tableScanData, tx`tableScanDataFilled
      ensures tx.Valid() && tx.Abs() == TxActivateScan(old(tx.Abs()), useTableScanCache)
      ensures tx.pendingRemoveActivated && (useTableScanCache ==> tx.tableScanData == old(tx.tableScanData))
    {
      tx.pendingRemoveActivated := true;
      ClearUncached();
      if !useTableScanCache {
        tx.tableScanDataFilled := false;
      }
    }

    method FillFrom(rows: seq<Row>)
      requires tx != null && tx.Valid()
      modifies tx`tableScanData, tx`tableScanDataFilled
      ensures tx.Valid() && tx.Abs() == TxReapply(TxEmplace(old(tx.Abs()), FirstMap(rows))).(filled := true)
      ensures tx.tableScanDataFilled
    {
      tx.Emplace(rows);
      tx.ReapplyPendingOperations();
      tx.tableScanDataFilled := true;
    }

    method FillCache(rows: seq<Row>)
      requires tx != null && tx.Valid() && TxSized(tx.Abs(), keyLength, valueLength)
      requires RowsSized(rows, keyLength, valueLength)
      modifies tx
      ensures tx.Valid() && TxSized(tx.Abs(), keyLength, valueLength)
      ensures tx.Abs() == TxBeginScan(old(tx.Abs()), useTableScanCache, FirstMap(rows))
      ensures tx.tableScanDataFilled && tx.pendingRemoveActivated
      ensures useTableScanCache && old(tx.tableScanDataFilled) ==> tx.tableScanData == old(tx.tableScanData)
    {
      FirstMapSized(rows, keyLength, valueLength);
      BeginScanSized(tx.Abs(), useTableScanCache, FirstMap(rows), keyLength, valueLength);
      ActivateScan();
      if !tx.tableScanDataFilled {
        FillFrom(rows);
      }
    }

    method TableScanToVec(rows: seq<Row>)
      requires RowsSized(rows, keyLength, valueLength)
      requires forall t :: t in rndTableScanData ==> |t| == keyLength + valueLength
      modifies this`rndTableScanData
      ensures rndTableScanData == old(rndTableScanData) + Tuples(rows)
      ensures forall t :: t in rndTableScanData ==> |t| == keyLength + valueLength
    {
      for i := 0 to |rows|
        invariant rndTableScanData == old(rndTableScanData) + Tuples(rows[..i])
        invariant forall t :: t in rndTableScanData ==> |t| == keyLength + valueLength
      {
        assert rows[i] in rows;
        assert Tuples(rows[..i + 1]) == Tuples(rows[..i]) + [rows[i].key + rows[i].value];
        rndTableScanData := rndTableScanData + [rows[i].key + rows[i].value];
      }
      assert rows[..|rows|] == rows;
    }

    /** `rows` is what the scan call returned; a call that failed returned none. */
    method RndInit(rows: seq<Row>) returns (rc: nat)
      requires Valid() && RowsSized(rows, keyLength, valueLength)
      modifies this`currentPosition, this`rndTableScanData, tx
      ensures Valid() && rc == 0 && currentPosition == OFFSETS - 1
      ensures tx != null ==>
                && tx.Abs() == TxBeginScan(old(tx.Abs()), useTableScanCache, FirstMap(rows))
                && rndTableScanData == old(rndTableScanData)
                && tx.tableScanDataFilled && tx.pendingRemoveActivated
                && (useTableScanCache && old(tx.tableScanDataFilled) ==> tx.tableScanData == old(tx.tableScanData))
      ensures tx == null ==> rndTableScanData == old(rndTableScanData) + Tuples(rows)
    {
      currentPosition := OFFSETS - 1;
      if tx != null {
        FillCache(rows);
      } else {
        TableScanToVec(rows);
      }
      return 0;
    }

    /** The deletes that waited for the end of the scan are issued now. */
    method EndScan()
      requires tx != null && tx.Valid() && TxSized(tx.Abs(), keyLength, valueLength)
      modifies tx
      ensures tx.Valid() && TxSized(tx.Abs(), keyLength, valueLength)
      ensures tx.Abs() == TxEndScan(old(tx.Abs()), useTableScanCache)
      ensures !tx.pendingRemoveActivated && (!useTableScanCache ==> tx.tableScanData == [])
    {
      tx.ApplyPendingRemoveOps();
      tx.pendingRemoveActivated := false;
      ClearUncached();
    }

    method RndEnd() returns (rc: nat)
      requires Valid()
      modifies this`rndTableScanData, tx
      ensures Valid() && rc == 0
      ensures tx != null ==>
                && tx.Abs() == TxEndScan(old(tx.Abs()), useTableScanCache)
                && rndTableScanData == old(rndTableScanData)
                && !tx.pendingRemoveActivated && tx.pendingRemoveOperations == []
                && (!useTableScanCache ==> tx.tableScanData == [])
      ensures tx == null ==> rndTableScanData == []
    {
      if tx == null {
        rndTableScanData := [];
      } else {
        EndScan();
        assert tx.pendingRemoveOperations == tx.Abs().pending;
      }
      return 0;
    }

    method CopyRow(buf: array<byte>, key: Bytes, value: Bytes)
      requires RowBuffer(buf) && |key| == keyLength && |value| == valueLength
      requires buf[..nullBytes] == Zeros(nullBytes)
      modifies buf
      ensures buf[..] == RowBytes(Row(key, value))
    {
      Memcpy(buf, nullBytes, key);
      assert buf[..nullBytes + |key|] == Zeros(nullBytes) + key;
      Memcpy(buf, nullBytes + |key|, value);
    }

    /** Fills the buffer with the row at an offset, or reports the end of the file. */
    method FindRow(index: nat, buf: array<byte>) returns (rc: nat)
      requires Valid() && RowBuffer(buf)
      modifies buf
      ensures Valid()
      ensures tx != null && index < |tx.tableScanData| ==> rc == 0 && buf[..] == RowBytes(tx.tableScanData[index])
      ensures tx == null && index < |rndTableScanData| ==>
                rc == 0 && buf[..] == Zeros(nullBytes) + rndTableScanData[index]
      ensures index >= (if tx != null then |tx.tableScanData| else |rndTableScanData|) ==> rc == HA_ERR_END_OF_FILE
    {
      Memcpy(buf, 0, Zeros(nullBytes));
      if tx != null {
        if index >= |tx.tableScanData| {
          return HA_ERR_END_OF_FILE;
        }
        RowsMapAt(tx.tableScanData, index);
        CopyRow(buf, tx.tableScanData[index].key, tx.tableScanData[index].value);
        return 0;
      }
      if index >= |rndTableScanData| {
        return HA_ERR_END_OF_FILE;
      }
      Memcpy(buf, nullBytes, rndTableScanData[index]);
      return 0;
    }

    method RndNext(buf: array<byte>) returns (rc: nat)
      requires Valid() && RowBuffer(buf)
      modifies this`currentPosition, buf
      ensures Valid()
      ensures tx != null ==>
                && ScanState() == StepScan(old(ScanState()), Next)
                && match Current(ScanState())
                   case Some(row) => rc == 0 && buf[..] == RowBytes(row)
                   case None => rc == HA_ERR_END_OF_FILE
      ensures tx == null ==>
                && currentPosition == Advance(old(currentPosition))
                && if currentPosition < |rndTableScanData|
                   then rc == 0 && buf[..] == Zeros(nullBytes) + rndTableScanData[currentPosition]
                   else rc == HA_ERR_END_OF_FILE
    {
      currentPosition := Advance(currentPosition);
      rc := FindRow(currentPosition, buf);
    }

    // -------------------------------------------------------------- index reads

    method FillRow(buf: array<byte>, key: Bytes, found: Option<Bytes>)
      requires RowBuffer(buf) && |key| == keyLength && (found.Some? ==> |found.value| == valueLength)
      modifies buf
      ensures buf[..] == if found.Some? then RowBytes(Row(key, found.value)) else Zeros(buf.Length)
    {
      Memcpy(buf, 0, Zeros(buf.Length));
      if found.Some? {
        CopyRow(buf, key, found.value);
      }
    }

    /** Gets the row into the cache if it has to be fetched; fails if it is not there. */
    method Fetch(key: Bytes, chain: Contents) returns (ok: bool)
      requires tx != null && tx.Valid() && TxSized(tx.Abs(), keyLength, valueLength)
      requires |key| == keyLength && (key in chain ==> |chain[key]| == valueLength)
      modifies tx`tableScanData
      ensures tx.Valid() && tx.Abs() == TxFetch(old(tx.Abs()), useTableScanCache, key, chain)
      ensures ok <==> !Misses(old(tx.Abs()), useTableScanCache, key) || key in chain
      ensures useTableScanCache && key in old(KeysOf(tx.tableScanData)) ==> tx.tableScanData == old(tx.tableScanData)
    {
      assert forall k :: k in RowsMap(tx.tableScanData) <==> k in KeysOf(tx.tableScanData);
      if !useTableScanCache || key !in KeysOf(tx.tableScanData) {
        if key !in chain {
          return false;
        }
        tx.ApplyPutToCache(key, chain[key]);
        tx.ReapplyPendingOperations();
      }
      ok := true;
    }

    method IndexLookup(key: Bytes, chain: Contents) returns (found: Option<Bytes>)
      requires tx != null && tx.Valid() && TxSized(tx.Abs(), keyLength, valueLength)
      requires |key| == keyLength && (key in chain ==> |chain[key]| == valueLength)
      modifies tx
      ensures tx.Valid() && TxSized(tx.Abs(), keyLength, valueLength)
      ensures tx.Abs() == TxRead(old(tx.Abs()), useTableScanCache, key, chain)
      ensures found == ReadResult(old(tx.Abs()), useTableScanCache, key, chain)
      ensures found.Some? ==> |found.value| == valueLength
      ensures useTableScanCache && key in old(KeysOf(tx.tableScanData)) ==> tx.tableScanData == old(tx.tableScanData)
    {
      ReadSized(tx.Abs(), useTableScanCache, key, chain, keyLength, valueLength);
      var ok := Fetch(key, chain);
      if !ok {
        return None;
      }
      found := Lookup(RowsMap(tx.tableScanData), key);
      ClearUncached();
    }

    /**
     * `chain` is what the get call can see: a key that is absent there, or cannot be fetched, makes
     * the call fail. A row that is not found leaves a buffer of zeros and still returns 0.
     */
    method IndexRead(buf: array<byte>, key: Bytes, exact: bool, firstColumn: bool, chain: Contents) returns (rc: nat)
      requires Valid() && RowBuffer(buf) && |key| == keyLength
      requires key in chain ==> |chain[key]| == valueLength
      modifies tx, buf
      ensures Valid()
      ensures !exact || !firstColumn ==>
                rc == HA_ERR_WRONG_COMMAND && buf[..] == old(buf[..]) && (tx != null ==> tx.Abs() == old(tx.Abs()))
      ensures exact && firstColumn ==> rc == 0
      ensures exact && firstColumn && tx != null ==>
                && tx.Abs() == TxRead(old(tx.Abs()), useTableScanCache, key, chain)
                && match ReadResult(old(tx.Abs()), useTableScanCache, key, chain)
                   case Some(value) => buf[..] == RowBytes(Row(key, value))
                   case None => buf[..] == Zeros(buf.Length)
      ensures exact && firstColumn && tx != null && useTableScanCache && key in old(KeysOf(tx.tableScanData)) ==>
                && buf[..] == RowBytes(Row(key, old(RowsMap(tx.tableScanData)[key])))
                && tx.tableScanData == old(tx.tableScanData)
      ensures exact && firstColumn && tx == null ==>
                buf[..] == if key in chain then RowBytes(Row(key, chain[key])) else Zeros(buf.Length)
    {
      if !exact || !firstColumn {
        return HA_ERR_WRONG_COMMAND;
      }
      var found := if key in chain then Some(chain[key]) else None;
      if tx != null {
        found := IndexLookup(key, chain);
      }
      FillRow(buf, key, found);
      return 0;
    }

    // -------------------------------------------------------------- a whole scan

    /** A row whose key and value have the lengths of the table's fields. */
    predicate Fits(step: ScanStep) {
      match step
      case Next => true
      case Update(k, v) => |k| == keyLength && |v| == valueLength
      case DeleteRow(k) => |k| == keyLength
    }

    /** The transaction is in a scan of `rows`, after the steps of `run`, and has recorded no remove since `removes`. */
    ghost predicate Scanning(rows: seq<Row>, run: seq<ScanStep>, removes: seq<Bytes>)
      reads this, tx
    {
      tx != null && tx.pendingRemoveActivated && ScanState() == ExecScan(rows, run) && tx.removeOperations == removes
    }

    method RowArray(row: Row) returns (buf: array<byte>)
      requires |row.key| == keyLength && |row.value| == valueLength
      ensures fresh(buf) && RowBuffer(buf) && buf[..] == RowBytes(row)
      ensures ExtractKey(buf[..]) == row.key && ExtractValue(buf[..]) == row.value
    {
      var bytes := RowBytes(row);
      buf := new byte[|bytes|](i requires 0 <= i < |bytes| => bytes[i]);
      assert buf[..] == bytes;
    }

    method UpdateInScan(key: Bytes, value: Bytes, block: BlockNumber, ghost rows: seq<Row>, ghost run: seq<ScanStep>,
                        ghost removes: seq<Bytes>)
      requires Valid() && Scanning(rows, run, removes) && |key| == keyLength && |value| == valueLength
      requires key in KeysOf(rows)
      modifies tx, store
      ensures Valid() && Scanning(rows, run + [Update(key, value)], removes) && store.State() == old(store.State())
    {
      var buf := RowArray(Row(key, value));
      ScanKeepsOrder(rows, run);
      SameKeys(rows, tx.tableScanData);
      ScanAppend(rows, run, Update(key, value));
      var _ := UpdateRow(buf, buf, block, Rpc(false, false));
      assert tx.removeOperations == tx.Abs().removes;
    }

    method DeleteInScan(key: Bytes, block: BlockNumber, ghost rows: seq<Row>, ghost run: seq<ScanStep>,
                        ghost removes: seq<Bytes>)
      requires Valid() && Scanning(rows, run, removes) && |key| == keyLength
      modifies tx, store
      ensures Valid() && Scanning(rows, run + [ScanStep.DeleteRow(key)], removes) && store.State() == old(store.State())
    {
      var buf := RowArray(Row(key, Zeros(valueLength)));
      ScanAppend(rows, run, ScanStep.DeleteRow(key));
      var _ := DeleteRow(buf, block, Rpc(false, false));
      assert tx.removeOperations == tx.Abs().removes;
    }

    method NextInScan(ghost rows: seq<Row>, ghost run: seq<ScanStep>, ghost removes: seq<Bytes>)
      returns (out: Option<Bytes>)
      requires Valid() && Scanning(rows, run, removes)
      modifies this`currentPosition
      ensures Valid() && Scanning(rows, run + [Next], removes)
      ensures match Current(ExecScan(rows, run + [Next]))
              case Some(row) => out == Some(RowBytes(row))
              case None => out == None
    {
      var buf := new byte[nullBytes + keyLength + valueLength];
      ScanAppend(rows, run, Next);
      var rc := RndNext(buf);
      out := if rc == 0 then Some(buf[..]) else None;
    }

    function AllBytes(rows: seq<Row>): seq<Bytes> {
      seq(|rows|, i requires 0 <= i < |rows| => RowBytes(rows[i]))
    }

    lemma AllBytesAppend(rows: seq<Row>, row: Row)
      ensures AllBytes(rows + [row]) == AllBytes(rows) + [RowBytes(row)]
    {
    }

    /** What rnd_next returns is appended to `before`. */
    method AppendNext(before: seq<Bytes>, ghost rows: seq<Row>, ghost run: seq<ScanStep>, ghost removes: seq<Bytes>)
      returns (out: seq<Bytes>)
      requires Valid() && Scanning(rows, run, removes) && before == AllBytes(Returned(rows, run))
      modifies this`currentPosition
      ensures Valid() && Scanning(rows, run + [Next], removes)
      ensures out == AllBytes(Returned(rows, run + [Next]))
    {
      ScanAppend(rows, run, Next);
      var row := NextInScan(rows, run, removes);
      ghost var current := Current(ExecScan(rows, run + [Next]));
      if row.Some? {
        AllBytesAppend(Returned(rows, run), current.value);
        out := before + [row.value];
      } else {
        out := before;
      }
    }

    /** One step of a scan; what rnd_next returns is appended to `before`. */
    method ScanOne(step: ScanStep, before: seq<Bytes>, block: BlockNumber, ghost rows: seq<Row>,
                   ghost run: seq<ScanStep>, ghost removes: seq<Bytes>)
      returns (out: seq<Bytes>)
      requires Valid() && Scanning(rows, run, removes) && Fits(step) && (step.Update? ==> step.key in KeysOf(rows))
      requires before == AllBytes(Returned(rows, run))
      modifies this`currentPosition, tx, store
      ensures Valid() && Scanning(rows, run + [step], removes) && store.State() == old(store.State())
      ensures out == AllBytes(Returned(rows, run + [step]))
    {
      match step
      case Next => out := AppendNext(before, rows, run, removes);
      case Update(key, value) =>
        ScanAppend(rows, run, step);
        UpdateInScan(key, value, block, rows, run, removes);
        out := before;
      case DeleteRow(key) =>
        ScanAppend(rows, run, step);
        DeleteInScan(key, block, rows, run, removes);
        out := before;
    }

    lemma ScanFacts(order: seq<Row>, steps: seq<ScanStep>)
      requires DistinctKeys(order) && |steps| < OFFSETS && |order| < OFFSETS
      requires forall i :: 0 <= i < |steps| && steps[i].Update? ==> steps[i].key in KeysOf(order)
      ensures DistinctKeys(Returned(order, steps))
      ensures Nexts(steps) >= |order| ==> KeysOf(Returned(order, steps)) == KeysOf(order)
      ensures ExecScan(order, steps).pending == Deletes(steps)
      ensures RowsMap(ExecScan(order, steps).rows) - Keys(Deletes(steps))
           == Overlay(RowsMap(order), Updates(steps), Deletes(steps))
    {
      EachKeyOnce(order, steps);
      ScanKeepsOrder(order, steps);
      ScanEnds(order, steps);
    }

    method StartScan(chainRows: seq<Row>) returns (ghost order: seq<Row>)
      requires Valid() && tx != null && tx.pendingRemoveOperations == [] && RowsSized(chainRows, keyLength, valueLength)
      modifies this`currentPosition, this`rndTableScanData, tx
      ensures Valid() && Scanning(order, [], old(tx.Abs()).removes)
      ensures DistinctKeys(order)
      ensures RowsMap(order) == TxBeginScan(old(tx.Abs()), useTableScanCache, FirstMap(chainRows)).cache
      ensures |order| == |TxBeginScan(old(tx.Abs()), useTableScanCache, FirstMap(chainRows)).cache|
    {
      var _ := RndInit(chainRows);
      order := tx.tableScanData;
      DistinctKeysCount(order);
      assert RowsMap(order).Keys == KeysOf(order);
      assert tx.removeOperations == tx.Abs().removes && tx.pendingRemoveOperations == tx.Abs().pending;
      assert tx.pendingRemoveActivated == tx.Abs().scanning;
    }

    /** All steps fit the table, and updates are of scanned rows. */
    ghost predicate AllFit(steps: seq<ScanStep>, order: seq<Row>) {
      forall i :: 0 <= i < |steps| ==> Fits(steps[i]) && (steps[i].Update? ==> steps[i].key in KeysOf(order))
    }

    /** The first i steps were taken, and `out` is what they returned. */
    ghost predicate ScannedTo(steps: seq<ScanStep>, i: nat, out: seq<Bytes>, order: seq<Row>, removes: seq<Bytes>)
      reads this, tx
    {
      && i <= |steps| && Valid() && Scanning(order, steps[..i], removes)
      && out == AllBytes(Returned(order, steps[..i]))
    }

    method ScanNext(steps: seq<ScanStep>, i: nat, before: seq<Bytes>, block: BlockNumber, ghost order: seq<Row>,
                    ghost removes: seq<Bytes>)
      returns (out: seq<Bytes>)
      requires AllFit(steps, order) && i < |steps| && ScannedTo(steps, i, before, order, removes)
      modifies this`currentPosition, tx, store
      ensures ScannedTo(steps, i + 1, out, order, removes) && store.State() == old(store.State())
    {
      assert steps[..i + 1] == steps[..i] + [steps[i]];
      out := ScanOne(steps[i], before, block, order, steps[..i], removes);
    }

    lemma StartsScanned(steps: seq<ScanStep>, order: seq<Row>, removes: seq<Bytes>)
      requires Valid() && Scanning(order, [], removes)
      ensures ScannedTo(steps, 0, [], order, removes)
    {
      assert steps[..0] == [];
    }

    lemma EndsScanned(steps: seq<ScanStep>, out: seq<Bytes>, order: seq<Row>, removes: seq<Bytes>)
      requires ScannedTo(steps, |steps|, out, order, removes)
      ensures Valid() && Scanning(order, steps, removes) && out == AllBytes(Returned(order, steps))
    {
      assert steps[..|steps|] == steps;
    }

    method ScanAll(steps: seq<ScanStep>, block: BlockNumber, ghost order: seq<Row>, ghost removes: seq<Bytes>)
      returns (out: seq<Bytes>)
      requires Valid() && Scanning(order, [], removes) && AllFit(steps, order)
      modifies this`currentPosition, tx, store
      ensures Valid() && Scanning(order, steps, removes) && store.State() == old(store.State())
      ensures out == AllBytes(Returned(order, steps))
    {
      out := [];
      var i: nat := 0;
      StartsScanned(steps, order, removes);
      while i < |steps|
        invariant ScannedTo(steps, i, out, order, removes) && store.State() == old(store.State())
      {
        out := ScanNext(steps, i, out, block, order, removes);
        i := i + 1;
      }
      EndsScanned(steps, out, order, removes);
    }

    method FinishScan(steps: seq<ScanStep>, ghost order: seq<Row>, ghost removes: seq<Bytes>)
      requires Valid() && Scanning(order, steps, removes)
      requires DistinctKeys(order) && |steps| < OFFSETS && |order| < OFFSETS
      requires forall i :: 0 <= i < |steps| && steps[i].Update? ==> steps[i].key in KeysOf(order)
      modifies this`rndTableScanData, tx
      ensures Valid()
      ensures tx.Abs().cache
           == if useTableScanCache then Overlay(RowsMap(order), Updates(steps), Deletes(steps)) else map[]
      ensures tx.Abs().removes == removes + Deletes(steps) && tx.Abs().pending == []
    {
      ScanFacts(order, steps);
      assert tx.Abs().cache == RowsMap(tx.tableScanData);
      assert tx.Abs().pending == Deletes(steps) && tx.Abs().removes == removes;
      var _ := RndEnd();
    }

    /**
     * A table scan from rnd_init to rnd_end, with updates of scanned rows and deletes in between.
     * `order` is the cache in iteration order: it holds the chain's rows with the pending operations
     * laid over them, unless the cache was filled before. What rnd_next returns are its rows, as they
     * are at the time; afterwards the updates show, and exactly the deleted rows are gone.
     */
    method TableScan(chainRows: seq<Row>, steps: seq<ScanStep>, block: BlockNumber)
      returns (out: seq<Bytes>, ghost order: seq<Row>)
      requires Valid() && tx != null && tx.pendingRemoveOperations == [] && RowsSized(chainRows, keyLength, valueLength)
      requires |steps| < OFFSETS
      requires var cached := TxBeginScan(tx.Abs(), useTableScanCache, FirstMap(chainRows)).cache;
               |cached| < OFFSETS
               && forall i :: 0 <= i < |steps| ==> Fits(steps[i]) && (steps[i].Update? ==> steps[i].key in cached)
      modifies this`currentPosition, this`rndTableScanData, tx, store
      ensures Valid() && store.State() == old(store.State())
      ensures DistinctKeys(order)
      ensures RowsMap(order) == TxBeginScan(old(tx.Abs()), useTableScanCache, FirstMap(chainRows)).cache
      ensures out == AllBytes(Returned(order, steps)) && DistinctKeys(Returned(order, steps))
      ensures Nexts(steps) >= |order| ==> KeysOf(Returned(order, steps)) == KeysOf(order)
      ensures tx.Abs().cache
           == if useTableScanCache then Overlay(RowsMap(order), Updates(steps), Deletes(steps)) else map[]
      ensures tx.Abs().removes == old(tx.Abs()).removes + Deletes(steps) && tx.Abs().pending == []
    {
      ghost var removes := tx.Abs().removes;
      order := StartScan(chainRows);
      assert KeysOf(order) == RowsMap(order).Keys;
      out := ScanAll(steps, block, order, removes);
      ScanFacts(order, steps);
      FinishScan(steps, order, removes);
    }

    // -------------------------------------------------------------- a whole scan in auto-commit mode

    /** Rows of the scan buffer with their null bytes. */
    function WithNulls(tuples: seq<Bytes>): seq<Bytes> {
      seq(|tuples|, i requires 0 <= i < |tuples| => Zeros(nullBytes) + tuples[i])
    }

    lemma TuplesBecomeRows(before: seq<Bytes>, rows: seq<Row>)
      ensures WithNulls(before + Tuples(rows)) == WithNulls(before) + AllBytes(rows)
    {
      forall i | 0 <= i < |rows|
        ensures Zeros(nullBytes) + Tuples(rows)[i] == RowBytes(rows[i])
      {
        assert Zeros(nullBytes) + (rows[i].key + rows[i].value) == Zeros(nullBytes) + rows[i].key + rows[i].value;
      }
    }

    /** Calls rnd_next until the end of the file. */
    method ReadToEnd() returns (out: seq<Bytes>)
      requires Valid() && tx == null && currentPosition == OFFSETS - 1 && |rndTableScanData| < OFFSETS
      modifies this`currentPosition
      ensures Valid() && out == WithNulls(rndTableScanData)
    {
      out := [];
      var buf := new byte[nullBytes + keyLength + valueLength];
      var rc := RndNext(buf);
      while rc != HA_ERR_END_OF_FILE
        invariant Valid() && currentPosition == |out| <= |rndTableScanData|
        invariant rc == HA_ERR_END_OF_FILE <==> |out| == |rndTableScanData|
        invariant |out| < |rndTableScanData| ==> buf[..] == WithNulls(rndTableScanData)[|out|]
        invariant out == WithNulls(rndTableScanData)[..|out|]
        decreases |rndTableScanData| - |out|
      {
        out := out + [buf[..]];
        rc := RndNext(buf);
      }
    }

    /**
     * A table scan without a transaction, from rnd_init to rnd_end: rnd_next returns the rows of the scan
     * call in their order, after those of a scan that was begun and not ended.
     */
    method AutoCommitScan(rows: seq<Row>) returns (out: seq<Bytes>)
      requires Valid() && tx == null && RowsSized(rows, keyLength, valueLength)
      requires |rndTableScanData| + |rows| < OFFSETS
      modifies this`currentPosition, this`rndTableScanData
      ensures Valid() && rndTableScanData == []
      ensures out == WithNulls(old(rndTableScanData)) + AllBytes(rows)
    {
      TuplesBecomeRows(rndTableScanData, rows);
      var _ := RndInit(rows);
      out := ReadToEnd();
      var _ := RndEnd();
    }

    // -------------------------------------------------------------- whole rows

    /**
     * A row is null bytes, key and value, in this order. One that is written, cached and read again is the
     * row that was written, after its null bytes.
     */
    lemma RowComesBack(row: Bytes)
      requires |row| == nullBytes + keyLength + valueLength
      ensures row == row[..nullBytes] + ExtractKey(row) + ExtractValue(row) && |ExtractKey(row)| == keyLength
      ensures var back := RowBytes(Row(ExtractKey(row), ExtractValue(row)));
              |back| == |row| && back[nullBytes..] == row[nullBytes..] && back[..nullBytes] == Zeros(nullBytes)
    {
      CutInThree(row, nullBytes, nullBytes + keyLength);
      assert row[nullBytes..] == ExtractKey(row) + ExtractValue(row);
    }
  }
}
