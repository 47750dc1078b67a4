/**
 * A transaction's way through the whole engine: its pending operations go out as call data, the
 * contract stages and commits them, and another session's scan reads the table back.
 */
module EndToEnd {
  import opened Types
  import opened TableSpec
  import opened TableStorage
  import opened TableTx
  import opened Abi
  import opened Ethereum
  import opened EthereumScan

  ghost predicate KeyMirrored(words: Contents, table: Contents, k: Bytes, keyLength: nat, valueLength: nat)
    requires keyLength <= 32 && valueLength <= 32
  {
    k in table ==> |k| == keyLength && |table[k]| == valueLength && Lookup(words, Pad(k)) == Some(Pad(table[k]))
  }

  ghost predicate WordMirrored(words: Contents, table: Contents, w: Bytes, keyLength: nat)
    requires keyLength <= 32
  {
    w in words ==> |w| == 32 && w[..keyLength] in table && w == Pad(w[..keyLength])
  }

  /** The contract's words are the table's keys and values, each padded to 32 bytes. */
  ghost predicate Mirrors(words: Contents, table: Contents, keyLength: nat, valueLength: nat) {
    && keyLength <= 32 && valueLength <= 32
    && (forall k :: KeyMirrored(words, table, k, keyLength, valueLength))
    && (forall w :: WordMirrored(words, table, w, keyLength))
  }

  ghost predicate OpFits(op: Op<Bytes>, keyLength: nat, valueLength: nat) {
    |op.key| == keyLength <= 32 && (op.PutOp? ==> |op.value| == valueLength <= 32)
  }

  ghost predicate OpsFit(ops: seq<Op<Bytes>>, keyLength: nat, valueLength: nat) {
    forall i :: 0 <= i < |ops| ==> OpFits(ops[i], keyLength, valueLength)
  }

  /** The operation as the contract receives it. */
  ghost function PadOp(op: Op<Bytes>): Op<Bytes>
    requires |op.key| <= 32 && (op.PutOp? ==> |op.value| <= 32)
  {
    match op
    case PutOp(k, v) => PutOp(Pad(k), Pad(v))
    case RemoveOp(k) => RemoveOp(Pad(k))
  }

  ghost predicate PaddedAs(words: seq<Op<Bytes>>, ops: seq<Op<Bytes>>, keyLength: nat, valueLength: nat) {
    && OpsFit(ops, keyLength, valueLength)
    && |words| == |ops| && forall i :: 0 <= i < |ops| ==> words[i] == PadOp(ops[i])
  }

  lemma MirrorApply(words: Contents, table: Contents, op: Op<Bytes>, keyLength: nat, valueLength: nat)
    requires Mirrors(words, table, keyLength, valueLength) && OpFits(op, keyLength, valueLength)
    ensures Mirrors(Apply(words, PadOp(op)), Apply(table, op), keyLength, valueLength)
  {
    var words', table' := Apply(words, PadOp(op)), Apply(table, op);
    forall k
      ensures KeyMirrored(words', table', k, keyLength, valueLength)
    {
      assert KeyMirrored(words, table, k, keyLength, valueLength);
      if k in table' && k != op.key && Pad(k) == Pad(op.key) {
        PadInjective(k, op.key);
      }
    }
    forall w
      ensures WordMirrored(words', table', w, keyLength)
    {
      assert WordMirrored(words, table, w, keyLength);
      assert Pad(op.key)[..keyLength] == op.key;
    }
  }

  /** Padding commutes with running operations. */
  lemma PaddedPrefix(wordOps: seq<Op<Bytes>>, ops: seq<Op<Bytes>>, keyLength: nat, valueLength: nat)
    requires PaddedAs(wordOps, ops, keyLength, valueLength) && ops != []
    ensures PaddedAs(wordOps[..|ops| - 1], ops[..|ops| - 1], keyLength, valueLength)
    ensures OpFits(ops[|ops| - 1], keyLength, valueLength) && wordOps[|ops| - 1] == PadOp(ops[|ops| - 1])
  {
  }

  lemma {:induction false} MirrorReplay(words: Contents, table: Contents, wordOps: seq<Op<Bytes>>, ops: seq<Op<Bytes>>,
                                        keyLength: nat, valueLength: nat)
    requires Mirrors(words, table, keyLength, valueLength) && PaddedAs(wordOps, ops, keyLength, valueLength)
    ensures Mirrors(Replay(words, wordOps), Replay(table, ops), keyLength, valueLength)
  {
    if ops != [] {
      var last := |ops| - 1;
      PaddedPrefix(wordOps, ops, keyLength, valueLength);
      MirrorReplay(words, table, wordOps[..last], ops[..last], keyLength, valueLength);
      MirrorApply(Replay(words, wordOps[..last]), Replay(table, ops[..last]), ops[last], keyLength, valueLength);
    }
  }

  /** Scanning a mirrored table row by row gives the table. */
  lemma {:induction false} FirstMapOfRows(rows: seq<Row>, table: Contents)
    requires forall i :: 0 <= i < |rows| ==> Lookup(table, rows[i].key) == Some(rows[i].value)
    ensures forall k :: k in FirstMap(rows) ==> Lookup(table, k) == Some(FirstMap(rows)[k])
    ensures forall i :: 0 <= i < |rows| ==> rows[i].key in FirstMap(rows)
  {
    if rows != [] {
      FirstMapOfRows(rows[..|rows| - 1], table);
    }
  }

  lemma MirrorScan(words: Contents, table: Contents, keys: seq<Bytes>, values: seq<Bytes>, keyLength: nat,
                   valueLength: nat)
    requires Mirrors(words, table, keyLength, valueLength) && TableWords(keys, values)
    requires forall k :: k in words <==> k in keys
    requires forall i :: 0 <= i < |keys| ==> keys[i] in words && words[keys[i]] == values[i]
    ensures FirstMap(FrontRows(keys, values, keyLength, valueLength)) == table
  {
    var rows := FrontRows(keys, values, keyLength, valueLength);
    forall i | 0 <= i < |rows|
      ensures Lookup(table, rows[i].key) == Some(rows[i].value)
    {
      var k := keys[i][..keyLength];
      assert WordMirrored(words, table, keys[i], keyLength) && KeyMirrored(words, table, k, keyLength, valueLength);
      assert values[i] == Pad(table[k]);
    }
    FirstMapOfRows(rows, table);
    forall k | k in table
      ensures k in FirstMap(rows)
    {
      assert KeyMirrored(words, table, k, keyLength, valueLength);
      assert Pad(k) in keys;
      var i :| 0 <= i < |keys| && keys[i] == Pad(k);
      assert rows[i].key == k;
    }
    assert FirstMap(rows).Keys == table.Keys;
  }

  /** A mirrored table has words for keys and for values. */
  lemma MirrorIsWords(words: Contents, table: Contents, keys: seq<Bytes>, values: seq<Bytes>, keyLength: nat,
                      valueLength: nat)
    requires Mirrors(words, table, keyLength, valueLength) && |keys| == |values| && 128 + 32 * |keys| < SIZES
    requires forall i :: 0 <= i < |keys| ==> keys[i] in words && words[keys[i]] == values[i]
    ensures TableWords(keys, values)
  {
    forall i | 0 <= i < |keys|
      ensures |keys[i]| == 32 && |values[i]| == 32
    {
      assert WordMirrored(words, table, keys[i], keyLength);
      assert KeyMirrored(words, table, keys[i][..keyLength], keyLength, valueLength);
    }
  }

  lemma {:induction false} KeyListGrowth(s: Store, block: BlockNumber, ops: seq<Op<Bytes>>)
    ensures |StoreReplay(s, block, ops).keyList| <= |s.keyList| + |ops|
  {
    if ops != [] {
      KeyListGrowth(s, block, ops[..|ops| - 1]);
    }
  }

  ghost predicate BatchFits(puts: seq<Row>, removes: seq<Bytes>, keyLength: nat, valueLength: nat) {
    && RowsOfSize(puts, keyLength, valueLength)
    && forall i :: 0 <= i < |removes| ==> |removes[i]| == keyLength
  }

  predicate RowsFitWords(puts: seq<Row>, removes: seq<Bytes>) {
    && (forall i :: 0 <= i < |puts| ==> |puts[i].key| <= 32 && |puts[i].value| <= 32)
    && (forall i :: 0 <= i < |removes| ==> |removes[i]| <= 32)
  }

  /** The operations that the contract stages for a batch. */
  function WordOps(puts: seq<Row>, removes: seq<Bytes>): seq<Op<Bytes>>
    requires RowsFitWords(puts, removes)
  {
    PutOps(ZipRows(PadAll(KeysIn(puts)), PadAll(ValuesIn(puts)))) + RemoveOps(PadAll(removes))
  }

  lemma WordOpsArePadded(puts: seq<Row>, removes: seq<Bytes>, keyLength: nat, valueLength: nat)
    requires BatchFits(puts, removes, keyLength, valueLength)
    ensures RowsFitWords(puts, removes)
    ensures PaddedAs(WordOps(puts, removes), BatchOps(puts, removes), keyLength, valueLength)
  {
  }

  /** One batch through the wire into the contract's buffer: what arrives is what was sent, padded. */
  method SendBatch(store: KVStore, puts: seq<Row>, removes: seq<Bytes>, id: TxId)
    requires RowsFitWords(puts, removes) && id != NilId()
    requires 128 + 32 * |puts| < SIZES && |removes| < SIZES
    modifies store
    ensures store.State() == StoreStage(old(store.State()), id, WordOps(puts, removes))
  {
    if puts != [] {
      var data := PutBatchPayload(puts, id);
      var call := DecodeStagePutBatch(data).value;
      var _ := store.StagePutBatch(call.keys, call.values, call.id);
    }
    if removes != [] {
      var data := RemoveBatchPayload(removes, id);
      var call := DecodeStageRemoveBatch(data).value;
      store.StageRemoveBatch(call.keys, call.id);
    }
    StageTwice(old(store.State()), id, PutOps(ZipRows(PadAll(KeysIn(puts)), PadAll(ValuesIn(puts)))),
               RemoveOps(PadAll(removes)));
  }

  lemma {:induction false} DistinctSize<T>(s: seq<T>)
    requires NoDuplicates(s)
    ensures |set x | x in s| == |s|
  {
    if s != [] {
      var front, last := s[..|s| - 1], s[|s| - 1];
      DistinctSize(front);
      assert (set x | x in s) == (set x | x in front) + {last};
    }
  }

  /** A duplicate-free list of the stored keys is as long as the key list. */
  lemma KeysAreListed(s: Store, keys: seq<Bytes>)
    requires TableStorage.Valid(s) && NoDuplicates(keys) && forall k :: k in View(s) <==> k in keys
    ensures |keys| == |s.keyList|
  {
    DistinctSize(keys);
    DistinctSize(s.keyList);
    assert forall k :: k in keys <==> k in s.keyList;
    assert (set k | k in keys) == (set k | k in s.keyList);
  }

  /** Another session's scan of the table, through the wire. */
  method ScanStore(store: KVStore, keyLength: nat, valueLength: nat, ghost table: Contents) returns (rows: seq<Row>)
    requires TableStorage.Valid(store.State()) && 3 + |store.keyList| < COUNTS
    requires Mirrors(View(store.State()), table, keyLength, valueLength)
    ensures FirstMap(rows) == table
  {
    var keys, values := store.TableScan();
    KeysAreListed(store.State(), keys);
    MirrorIsWords(View(store.State()), table, keys, values, keyLength, valueLength);
    var response := Join(ScanWords(keys, values));
    rows := ScanTable(response, keyLength, valueLength, keys, values);
    MirrorScan(View(store.State()), table, keys, values, keyLength, valueLength);
  }

  /**
   * Staging a transaction's pending operations, committing them and scanning the table gives exactly
   * the table as it was with the pending operations laid over it, byte for byte.
   */
  method CommitThenScan(store: KVStore, block: BlockNumber, puts: seq<Row>, removes: seq<Bytes>, id: TxId,
                        keyLength: nat, valueLength: nat, ghost table: Contents) returns (rows: seq<Row>)
    requires BatchFits(puts, removes, keyLength, valueLength) && id != NilId()
    requires TableStorage.Valid(store.State()) && Mirrors(View(store.State()), table, keyLength, valueLength)
    requires Buffer(store.State(), id) == []
    requires 3 + |store.keyList| + |puts| + |removes| < COUNTS
    modifies store
    ensures FirstMap(rows) == Overlay(table, puts, removes)
    ensures Buffer(store.State(), id) == []
  {
    WordOpsArePadded(puts, removes, keyLength, valueLength);
    ghost var ops := WordOps(puts, removes);
    ghost var s := store.State();
    SendBatch(store, puts, removes, id);
    ghost var staged := store.State();
    assert Buffer(staged, id) == ops;
    CommitMeaning(staged, block, id);
    KeyListGrowth(staged, block, ops);
    store.Commit(block, id);
    MirrorReplay(View(s), table, ops, BatchOps(puts, removes), keyLength, valueLength);
    BatchCommitIsOverlay(table, puts, removes);
    rows := ScanStore(store, keyLength, valueLength, Overlay(table, puts, removes));
  }
}
