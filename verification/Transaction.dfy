/** The contract that commits one transaction id in several stores within one EVM transaction. */
module Transaction {
  import opened Types
  import opened TableStorage

  /** The EVM's undo: every store gets back the state it had before the transaction. */
  method Revert(stores: seq<KVStore?>, saved: seq<Store>, ghost before: map<KVStore, Store>)
    requires |saved| == |stores|
    requires forall s: KVStore :: s in stores ==> s in before
    requires forall j :: 0 <= j < |stores| && stores[j] != null ==> saved[j] == before[stores[j]]
    modifies set s: KVStore | s in stores
    ensures forall s: KVStore :: s in stores ==> s.State() == before[s]
  {
    for i := 0 to |stores|
      invariant forall s: KVStore :: s in stores[..i] ==> s.State() == before[s]
    {
      var kv := stores[i];
      if kv != null {
        kv.data, kv.keyList, kv.txBuffer := saved[i].data, saved[i].keyList, saved[i].txBuffer;
      }
    }
  }

  /** The first commit of an id empties its buffer, so a second one changes nothing. */
  lemma CommitTwice(s: Store, block: BlockNumber, id: TxId)
    ensures StoreCommit(StoreCommit(s, block, id), block, id) == StoreCommit(s, block, id)
  {
    var once := StoreCommit(s, block, id);
    assert Buffer(once, id) == [];
    assert once.txBuffer - {id} == once.txBuffer;
  }

  method Save(stores: seq<KVStore?>, ghost before: map<KVStore, Store>) returns (saved: seq<Store>)
    requires forall s: KVStore :: s in stores ==> s in before && s.State() == before[s]
    ensures |saved| == |stores|
    ensures forall j :: 0 <= j < |stores| && stores[j] != null ==> saved[j] == before[stores[j]]
  {
    saved := [];
    for i := 0 to |stores|
      invariant |saved| == i
      invariant forall j :: 0 <= j < i && stores[j] != null ==> saved[j] == before[stores[j]]
    {
      var kv := stores[i];
      saved := saved + [if kv == null then EMPTY_STORE else kv.State()];
    }
  }

  /** The stores up to i are committed, the others as they were. */
  ghost predicate CommittedTo(stores: seq<KVStore?>, i: nat, block: BlockNumber, id: TxId, before: map<KVStore, Store>)
    reads set s: KVStore | s in stores
  {
    && i <= |stores|
    && forall s: KVStore :: s in stores ==>
         s in before && s.State() == if s in stores[..i] then StoreCommit(before[s], block, id) else before[s]
  }

  method CommitNext(stores: seq<KVStore?>, i: nat, block: BlockNumber, id: TxId, ghost before: map<KVStore, Store>)
    requires i < |stores| && stores[i] != null && CommittedTo(stores, i, block, id, before)
    modifies stores[i]
    ensures CommittedTo(stores, i + 1, block, id, before)
  {
    var kv := stores[i];
    assert forall s: KVStore :: s in stores[..i + 1] <==> s in stores[..i] || s == kv;
    CommitTwice(before[kv], block, id);
    kv.Commit(block, id);
  }

  /** The loop over the stores; it stops where there is no contract. */
  method CommitListed(block: BlockNumber, id: TxId, stores: seq<KVStore?>, ghost before: map<KVStore, Store>)
    returns (ok: bool)
    requires CommittedTo(stores, 0, block, id, before)
    modifies set s: KVStore | s in stores
    ensures ok <==> null !in stores
    ensures ok ==> CommittedTo(stores, |stores|, block, id, before)
  {
    for i := 0 to |stores|
      invariant null !in stores[..i]
      invariant CommittedTo(stores, i, block, id, before)
    {
      if stores[i] == null {
        return false;
      }
      CommitNext(stores, i, block, id, before);
    }
    return true;
  }

  /**
   * Commits id in each store in turn. A null entry is an address without a contract: calling it
   * reverts the whole EVM transaction, including the commits already made.
   */
  method CommitAll(block: BlockNumber, id: TxId, stores: seq<KVStore?>) returns (ok: bool)
    modifies set s: KVStore | s in stores
    ensures ok <==> null !in stores
    ensures ok ==> forall s: KVStore :: s in stores ==> s.State() == StoreCommit(old(s.State()), block, id)
    ensures !ok ==> forall s: KVStore :: s in stores ==> s.State() == old(s.State())
  {
    ghost var before := map s: KVStore | s in stores :: s.State();
    var saved := Save(stores, before);
    ok := CommitListed(block, id, stores, before);
    if !ok {
      Revert(stores, saved, before);
    } else {
      assert stores[..|stores|] == stores;
    }
  }

  // ---------------------------------------------------------------- order and repetition

  /** The same loop on the stores of a chain as values, found by their address. */
  function CommitEach<A>(w: map<A, Store>, block: BlockNumber, id: TxId, addresses: seq<A>): map<A, Store>
    requires forall i :: 0 <= i < |addresses| ==> addresses[i] in w
    ensures CommitEach(w, block, id, addresses).Keys == w.Keys
  {
    if addresses == [] then w
    else
      var a := addresses[0];
      CommitEach(w[a := StoreCommit(w[a], block, id)], block, id, addresses[1..])
  }

  lemma {:induction false} CommitEachAt<A>(w: map<A, Store>, block: BlockNumber, id: TxId, addresses: seq<A>, a: A)
    requires forall i :: 0 <= i < |addresses| ==> addresses[i] in w
    requires a in w
    ensures CommitEach(w, block, id, addresses)[a] == if a in addresses then StoreCommit(w[a], block, id) else w[a]
  {
    if addresses != [] {
      var first := addresses[0];
      CommitTwice(w[first], block, id);
      CommitEachAt(w[first := StoreCommit(w[first], block, id)], block, id, addresses[1..], a);
    }
  }

  /** Lists naming the same stores, in any order and with any repetition, have the same effect. */
  lemma CommitAllOrderAndRepetition<A>(w: map<A, Store>, block: BlockNumber, id: TxId, xs: seq<A>, ys: seq<A>)
    requires forall a :: a in xs ==> a in w
    requires forall a :: a in xs <==> a in ys
    ensures CommitEach(w, block, id, xs) == CommitEach(w, block, id, ys)
  {
    forall a | a in w
      ensures CommitEach(w, block, id, xs)[a] == CommitEach(w, block, id, ys)[a]
    {
      CommitEachAt(w, block, id, xs, a);
      CommitEachAt(w, block, id, ys, a);
    }
  }
}
