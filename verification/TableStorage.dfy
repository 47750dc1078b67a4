/**
 * The key-value contract. A `Store` value is the contract's storage; the functions on it say what
 * each contract call does to it, and class `KVStore` is the contract itself, with its loops.
 */
module TableStorage {
  import opened Types
  import opened TableSpec

  /** Contracts are only called from blocks after the genesis block. */
  type BlockNumber = n: nat | n > 0 witness 1

  datatype Entry = Entry(blockNumber: nat, value: Bytes)

  datatype Store = Store(keyList: seq<Bytes>,
                         data: map<Bytes, Entry>,
                         txBuffer: map<TxId, seq<Op<Bytes>>>)

  const EMPTY_STORE := Store([], map[], map[])

  /** A `bytes32` that was never written. */
  function ZeroWord(): Bytes { seq(32, i => 0) }

  // A Solidity mapping is total: absent entries read as zero.

  function BlockOf(data: map<Bytes, Entry>, key: Bytes): nat {
    if key in data then data[key].blockNumber else 0
  }

  function ValueOf(data: map<Bytes, Entry>, key: Bytes): Bytes {
    if key in data then data[key].value else ZeroWord()
  }

  function Buffer(s: Store, id: TxId): seq<Op<Bytes>> {
    if id in s.txBuffer then s.txBuffer[id] else []
  }

  /** The table as its readers see it. */
  function View(s: Store): Contents {
    map k | k in s.data && s.data[k].blockNumber > 0 :: s.data[k].value
  }

  /** The key list holds each key with a nonzero block number once, and no other key. */
  ghost predicate Valid(s: Store) {
    && NoDuplicates(s.keyList)
    && (forall k :: k in s.keyList <==> BlockOf(s.data, k) != 0)
    && (forall k :: k in s.data ==> s.data[k].blockNumber != 0)
  }

  // ---------------------------------------------------------------- what each call does

  function StorePut(s: Store, block: BlockNumber, key: Bytes, value: Bytes): Store {
    s.(keyList := if BlockOf(s.data, key) == 0 then s.keyList + [key] else s.keyList,
       data := s.data[key := Entry(block, value)])
  }

  function IndexOf(keys: seq<Bytes>, key: Bytes): (i: nat)
    requires key in keys
    ensures i < |keys| && keys[i] == key
    ensures forall j :: 0 <= j < i ==> keys[j] != key
  {
    if keys[0] == key then 0 else 1 + IndexOf(keys[1..], key)
  }

  /** The last key takes the place of the removed one. */
  function SwapAndPop(keys: seq<Bytes>, key: Bytes): seq<Bytes> {
    if key !in keys then keys
    else keys[IndexOf(keys, key) := keys[|keys| - 1]][..|keys| - 1]
  }

  function StoreRemove(s: Store, key: Bytes): Store {
    if key !in s.keyList then s
    else s.(keyList := SwapAndPop(s.keyList, key), data := s.data - {key})
  }

  function StoreApply(s: Store, block: BlockNumber, op: Op<Bytes>): Store {
    match op
    case PutOp(k, v) => StorePut(s, block, k, v)
    case RemoveOp(k) => StoreRemove(s, k)
  }

  function StoreReplay(s: Store, block: BlockNumber, ops: seq<Op<Bytes>>): Store {
    if ops == [] then s else StoreApply(StoreReplay(s, block, ops[..|ops| - 1]), block, ops[|ops| - 1])
  }

  function StoreStage(s: Store, id: TxId, ops: seq<Op<Bytes>>): Store {
    if ops == [] then s else s.(txBuffer := s.txBuffer[id := Buffer(s, id) + ops])
  }

  function StoreClean(s: Store, id: TxId): Store {
    s.(txBuffer := s.txBuffer - {id})
  }

  function StoreCommit(s: Store, block: BlockNumber, id: TxId): Store {
    StoreClean(StoreReplay(s, block, Buffer(s, id)), id)
  }

  function ZipRows(keys: seq<Bytes>, values: seq<Bytes>): seq<Row>
    requires |keys| <= |values|
  {
    seq(|keys|, i requires 0 <= i < |keys| => Row(keys[i], values[i]))
  }

  /** A write together with the block in which it takes effect. */
  function StampOp(block: BlockNumber, op: Op<Bytes>): Op<Entry> {
    match op
    case PutOp(k, v) => PutOp(k, Entry(block, v))
    case RemoveOp(k) => RemoveOp(k)
  }

  function Stamp(block: BlockNumber, ops: seq<Op<Bytes>>): (stamped: seq<Op<Entry>>)
    ensures |stamped| == |ops|
  {
    seq(|ops|, i requires 0 <= i < |ops| => StampOp(block, ops[i]))
  }

  lemma StageTwice(s: Store, id: TxId, a: seq<Op<Bytes>>, b: seq<Op<Bytes>>)
    ensures StoreStage(StoreStage(s, id, a), id, b) == StoreStage(s, id, a + b)
  {
    if a == [] || b == [] {
      assert a + b == if a == [] then b else a;
    } else {
      assert Buffer(s, id) + a + b == Buffer(s, id) + (a + b);
    }
  }

  // ---------------------------------------------------------------- the contract

  lemma {:induction false} StoreReplayKeepsBuffers(s: Store, block: BlockNumber, ops: seq<Op<Bytes>>)
    ensures StoreReplay(s, block, ops).txBuffer == s.txBuffer
  {
    if ops != [] {
      StoreReplayKeepsBuffers(s, block, ops[..|ops| - 1]);
    }
  }

  /** Key list and values are the table that readers see. */
  lemma ListsView(s: Store, values: seq<Bytes>)
    requires Valid(s) && |values| == |s.keyList|
    requires forall i :: 0 <= i < |values| ==> values[i] == ValueOf(s.data, s.keyList[i])
    ensures forall k :: k in View(s) <==> k in s.keyList
    ensures forall i :: 0 <= i < |values| ==> View(s)[s.keyList[i]] == values[i]
  {
    forall i | 0 <= i < |values|
      ensures s.keyList[i] in View(s) && View(s)[s.keyList[i]] == values[i]
    {
      assert s.keyList[i] in s.keyList;
    }
  }

  class KVStore {
    var data: map<Bytes, Entry>
    var keyList: seq<Bytes>
    var txBuffer: map<TxId, seq<Op<Bytes>>>

    function State(): Store
      reads this
    {
      Store(keyList, data, txBuffer)
    }

    constructor ()
      ensures State() == EMPTY_STORE
    {
      data, keyList, txBuffer := map[], [], map[];
    }

    method Put(block: BlockNumber, key: Bytes, value: Bytes)
      modifies this
      ensures State() == StorePut(old(State()), block, key, value)
    {
      var v := Entry(block, value);
      if BlockOf(data, key) == 0 {
        keyList := keyList + [key];
      }
      data := data[key := v];
    }

    method Push(id: TxId, op: Op<Bytes>)
      modifies this`txBuffer
      ensures State() == StoreStage(old(State()), id, [op])
    {
      txBuffer := txBuffer[id := Buffer(State(), id) + [op]];
    }

    method StagePut(key: Bytes, value: Bytes, id: TxId)
      modifies this
      ensures State() == StoreStage(old(State()), id, [PutOp(key, value)])
    {
      Push(id, PutOp(key, value));
    }

    method Clean(id: TxId)
      modifies this`txBuffer
      ensures State() == StoreClean(old(State()), id)
      ensures Buffer(State(), id) == []
    {
      txBuffer := txBuffer - {id};
    }

    method Remove(key: Bytes)
      modifies this
      ensures State() == StoreRemove(old(State()), key)
    {
      var size := |keyList|;
      var index := size;  // not found
      for i := 0 to size
        invariant index == size
        invariant forall j :: 0 <= j < i ==> keyList[j] != key
      {
        if keyList[i] == key {
          index := i;
          break;
        }
      }
      if index == size {
        return;
      }
      assert index == IndexOf(keyList, key);
      keyList := keyList[index := keyList[size - 1]];
      keyList := keyList[..size - 1];
      data := data - {key};
    }

    method Commit(block: BlockNumber, id: TxId)
      modifies this
      ensures State() == StoreCommit(old(State()), block, id)
      ensures Buffer(State(), id) == []
    {
      var values := Buffer(State(), id);
      for i := 0 to |values|
        invariant State() == StoreReplay(old(State()), block, values[..i])
      {
        assert values[..i + 1][..i] == values[..i];
        match values[i]
        case RemoveOp(k) => Remove(k);
        case PutOp(k, v) => Put(block, k, v);
      }
      assert values[..|values|] == values;
      Clean(id);
    }

    /** Fails, and leaves the storage alone, when a key has no value: reading past the end reverts. */
    method PutBatch(block: BlockNumber, keys: seq<Bytes>, values: seq<Bytes>) returns (ok: bool)
      modifies this
      ensures ok <==> |keys| <= |values|
      ensures ok ==> State() == StoreReplay(old(State()), block, PutOps(ZipRows(keys, values)))
      ensures !ok ==> State() == old(State())
    {
      var savedData, savedKeys := data, keyList;
      for i := 0 to |keys|
        invariant i <= |values|
        invariant State() == StoreReplay(old(State()), block, PutOps(ZipRows(keys[..i], values)))
      {
        if i >= |values| {
          data, keyList := savedData, savedKeys;
          StoreReplayKeepsBuffers(old(State()), block, PutOps(ZipRows(keys[..i], values)));
          return false;
        }
        assert PutOps(ZipRows(keys[..i + 1], values))[..i] == PutOps(ZipRows(keys[..i], values));
        Put(block, keys[i], values[i]);
      }
      assert keys[..|keys|] == keys;
      return true;
    }

    method StagePutBatch(keys: seq<Bytes>, values: seq<Bytes>, id: TxId) returns (ok: bool)
      modifies this
      ensures ok <==> |keys| <= |values|
      ensures ok ==> State() == StoreStage(old(State()), id, PutOps(ZipRows(keys, values)))
      ensures !ok ==> State() == old(State())
    {
      var saved := txBuffer;
      for i := 0 to |keys|
        invariant i <= |values|
        invariant State() == StoreStage(old(State()), id, PutOps(ZipRows(keys[..i], values)))
      {
        if i >= |values| {
          txBuffer := saved;
          return false;
        }
        assert PutOps(ZipRows(keys[..i + 1], values))
            == PutOps(ZipRows(keys[..i], values)) + [PutOp(keys[i], values[i])];
        StageTwice(old(State()), id, PutOps(ZipRows(keys[..i], values)), [PutOp(keys[i], values[i])]);
        Push(id, PutOp(keys[i], values[i]));
      }
      assert keys[..|keys|] == keys;
      return true;
    }

    method StageRemove(key: Bytes, id: TxId)
      modifies this
      ensures State() == StoreStage(old(State()), id, [RemoveOp(key)])
    {
      Push(id, RemoveOp(key));
    }

    method RemoveBatch(block: BlockNumber, keys: seq<Bytes>)
      modifies this
      ensures State() == StoreReplay(old(State()), block, RemoveOps(keys))
    {
      for i := 0 to |keys|
        invariant State() == StoreReplay(old(State()), block, RemoveOps(keys[..i]))
      {
        assert RemoveOps(keys[..i + 1])[..i] == RemoveOps(keys[..i]);
        Remove(keys[i]);
      }
      assert keys[..|keys|] == keys;
    }

    method StageRemoveBatch(keys: seq<Bytes>, id: TxId)
      modifies this
      ensures State() == StoreStage(old(State()), id, RemoveOps(keys))
    {
      for i := 0 to |keys|
        invariant State() == StoreStage(old(State()), id, RemoveOps(keys[..i]))
      {
        assert RemoveOps(keys[..i + 1]) == RemoveOps(keys[..i]) + [RemoveOp(keys[i])];
        StageTwice(old(State()), id, RemoveOps(keys[..i]), [RemoveOp(keys[i])]);
        Push(id, RemoveOp(keys[i]));
      }
      assert keys[..|keys|] == keys;
    }

    /** Under the store invariant the scan lists every row of the table once. */
    method TableScan() returns (keys: seq<Bytes>, values: seq<Bytes>)
      ensures keys == keyList && |values| == |keys|
      ensures forall i :: 0 <= i < |keys| ==> values[i] == ValueOf(data, keys[i])
      ensures Valid(State()) ==>
                && NoDuplicates(keys)
                && (forall k :: k in View(State()) <==> k in keys)
                && (forall i :: 0 <= i < |keys| ==> View(State())[keys[i]] == values[i])
    {
      var size := |keyList|;
      keys, values := [], [];
      for i := 0 to size
        invariant keys == keyList[..i]
        invariant |values| == i
        invariant forall j :: 0 <= j < i ==> values[j] == ValueOf(data, keyList[j])
      {
        keys := keys + [keyList[i]];
        values := values + [ValueOf(data, keyList[i])];
      }
      assert keys == keyList;
      if Valid(State()) {
        ListsView(State(), values);
      }
    }

    /** Reading a key that is not in the table reverts. */
    method Get(key: Bytes) returns (r: Option<Entry>)
      ensures r.None? <==> key !in View(State())
      ensures r.Some? ==> r.value.value == View(State())[key] && r.value.blockNumber == BlockOf(data, key) > 0
    {
      var v := Entry(BlockOf(data, key), ValueOf(data, key));
      if v.blockNumber == 0 {
        return None;
      }
      return Some(v);
    }
  }

  // ---------------------------------------------------------------- the store invariant

  lemma LastReplaces<T>(s: seq<T>, i: nat)
    requires i < |s|
    ensures multiset(s[i := s[|s| - 1]][..|s| - 1]) == multiset(s) - multiset{s[i]}
  {
    var last := |s| - 1;
    assert s == s[..last] + [s[last]];
    if i == last {
      assert s[i := s[last]][..last] == s[..last];
    } else {
      assert s[i := s[last]][..last] == s[..last][i := s[last]];
    }
  }

  /** Swap-and-pop removes one key and permutes the rest. */
  lemma SwapAndPopRemovesOne(keys: seq<Bytes>, key: Bytes)
    requires key in keys
    ensures multiset(SwapAndPop(keys, key)) == multiset(keys) - multiset{key}
  {
    LastReplaces(keys, IndexOf(keys, key));
  }

  lemma SwapAndPopMembers(keys: seq<Bytes>, key: Bytes)
    requires NoDuplicates(keys) && key in keys
    ensures NoDuplicates(SwapAndPop(keys, key))
    ensures forall k :: k in SwapAndPop(keys, key) <==> k in keys && k != key
  {
    var i, last := IndexOf(keys, key), |keys| - 1;
    var rest := SwapAndPop(keys, key);
    assert forall j :: 0 <= j < last ==> rest[j] == if j == i then keys[last] else keys[j];
    forall k | k in keys && k != key
      ensures k in rest
    {
      var j :| 0 <= j < |keys| && keys[j] == k;
      assert k == if j == last then rest[i] else rest[j];
    }
  }

  /** Where each key goes: the last one takes the place of the first occurrence, and the others stay. */
  lemma SwapAndPopPlaces(keys: seq<Bytes>, i: nat)
    requires i < |keys| && forall j :: 0 <= j < i ==> keys[j] != keys[i]
    ensures var rest := SwapAndPop(keys, keys[i]);
            && |rest| == |keys| - 1
            && forall j :: 0 <= j < |rest| ==> rest[j] == if j == i then keys[|keys| - 1] else keys[j]
  {
    assert IndexOf(keys, keys[i]) == i;
  }

  lemma RemoveKeepsValid(s: Store, key: Bytes)
    requires Valid(s)
    ensures Valid(StoreRemove(s, key))
    ensures StoreRemove(s, key).data == s.data - {key}
  {
    if key in s.keyList {
      SwapAndPopMembers(s.keyList, key);
    } else {
      assert BlockOf(s.data, key) == 0;
    }
  }

  lemma PutKeepsValid(s: Store, block: BlockNumber, key: Bytes, value: Bytes)
    requires Valid(s)
    ensures Valid(StorePut(s, block, key, value))
  {
    var t := StorePut(s, block, key, value);
    assert forall k :: k in t.keyList <==> k in s.keyList || k == key;
  }

  /**
   * Replaying operations keeps the invariant, leaves all buffers alone, and changes the data exactly
   * as the operations, stamped with the block, say.
   */
  lemma {:induction false} StoreReplayMeaning(s: Store, block: BlockNumber, ops: seq<Op<Bytes>>)
    requires Valid(s)
    ensures Valid(StoreReplay(s, block, ops))
    ensures StoreReplay(s, block, ops).data == Replay(s.data, Stamp(block, ops))
  {
    if ops != [] {
      var front, last := ops[..|ops| - 1], ops[|ops| - 1];
      var before := StoreReplay(s, block, front);
      StoreReplayMeaning(s, block, front);
      assert Stamp(block, ops)[..|ops| - 1] == Stamp(block, front);
      match last
      case PutOp(k, v) => PutKeepsValid(before, block, k, v);
      case RemoveOp(k) => RemoveKeepsValid(before, k);
    }
  }

  // ---------------------------------------------------------------- what readers see

  lemma StoreApplyView(s: Store, block: BlockNumber, op: Op<Bytes>)
    requires Valid(s)
    ensures View(StoreApply(s, block, op)) == Apply(View(s), op)
  {
    if op.RemoveOp? {
      RemoveKeepsValid(s, op.key);
    }
  }

  /** Readers see the operations of a replay applied in order, whatever the block. */
  lemma {:induction false} StoreReplayView(s: Store, block: BlockNumber, ops: seq<Op<Bytes>>)
    requires Valid(s)
    ensures View(StoreReplay(s, block, ops)) == Replay(View(s), ops)
  {
    if ops != [] {
      var front, last := ops[..|ops| - 1], ops[|ops| - 1];
      var before := StoreReplay(s, block, front);
      StoreReplayView(s, block, front);
      StoreReplayMeaning(s, block, front);
      StoreApplyView(before, block, last);
    }
  }

  /** A commit shows the staged operations and empties its own buffer, and no other. */
  lemma CommitMeaning(s: Store, block: BlockNumber, id: TxId)
    requires Valid(s)
    ensures Valid(StoreCommit(s, block, id))
    ensures View(StoreCommit(s, block, id)) == Replay(View(s), Buffer(s, id))
    ensures StoreCommit(s, block, id).data == Replay(s.data, Stamp(block, Buffer(s, id)))
    ensures StoreCommit(s, block, id).txBuffer == s.txBuffer - {id}
  {
    StoreReplayMeaning(s, block, Buffer(s, id));
    StoreReplayView(s, block, Buffer(s, id));
    StoreReplayKeepsBuffers(s, block, Buffer(s, id));
  }
}
