/**
 * One session as the server runs it: the handler calls on its transactions, and the loops of commit
 * and rollback over all its tables.
 */
module Session {
  import opened Types
  import opened TableSpec
  import opened TableStorage
  import opened TxSpec
  import opened TableTx
  import opened SessionSpec
  import Transaction
  import Abi
  import Wire = Ethereum

  // ---------------------------------------------------------------- the steps of one transaction

  /** The first use of a table creates its transaction, under the id of those that exist, or a fresh one. */
  method WithTransaction(ghost chain: Chain, slots: Slots, id: TxId, immediately: bool, inTransaction: bool, name: Name,
                         newId: TxId)
    returns (after: Slots, txId: TxId)
    requires Consistent(chain, slots, id, immediately) && name in chain
    requires slots == map[] ==> newId != NilId() && NoStaging(chain, newId)
    ensures Consistent(chain, after, txId, immediately)
    ensures after
         == if inTransaction && name !in slots then slots[name := Slot(NewRecord(txId, immediately))] else slots
    ensures txId == if slots == map[] && inTransaction then newId else id
  {
    if !inTransaction || name in slots {
      return slots, id;
    }
    txId := newId;
    if slots != map[] {
      var other :| other in slots;
      txId := slots[other].tx.id;
    }
    var tx := new TableTx(txId, immediately);
    var slot := tx.InSlot();
    SlotStarted(chain, slots, id, txId, immediately, name, slot);
    after := slots[name := slot];
  }

  method PutInto(ghost chain: Chain, slots: Slots, ghost id: TxId, ghost immediately: bool, name: Name, key: Bytes,
                 value: Bytes)
    returns (after: Slots)
    requires Consistent(chain, slots, id, immediately) && name in slots
    ensures Consistent(chain, after, id, immediately) && name in after && after == slots[name := after[name]]
    ensures StateOf(after[name].tx) == TxPut(StateOf(slots[name].tx), key, value)
    ensures SameStaging(slots[name].tx, after[name].tx) && StartedOne(slots[name].tx, after[name].tx, PutOp(key, value))
  {
    var tx := new TableTx.Moved(slots[name]);
    tx.AddPut(key, value);
    var slot := tx.InSlot();
    SlotReplaced(chain, slots, id, immediately, name, slot);
    after := slots[name := slot];
  }

  method RemoveFrom(ghost chain: Chain, slots: Slots, ghost id: TxId, ghost immediately: bool, name: Name, key: Bytes,
                    deferrable: bool)
    returns (after: Slots)
    requires Consistent(chain, slots, id, immediately) && name in slots
    ensures Consistent(chain, after, id, immediately) && name in after && after == slots[name := after[name]]
    ensures StateOf(after[name].tx) == TxRemove(StateOf(slots[name].tx), key, deferrable)
    ensures SameStaging(slots[name].tx, after[name].tx)
    ensures !(deferrable && slots[name].tx.pendingRemoveActivated) ==>
              StartedOne(slots[name].tx, after[name].tx, RemoveOp(key))
  {
    var tx := new TableTx.Moved(slots[name]);
    tx.AddRemove(key, deferrable);
    var slot := tx.InSlot();
    SlotReplaced(chain, slots, id, immediately, name, slot);
    after := slots[name := slot];
  }

  method EndScanOf(ghost chain: Chain, slots: Slots, ghost id: TxId, ghost immediately: bool, name: Name)
    returns (after: Slots)
    requires Consistent(chain, slots, id, immediately) && name in slots
    ensures Consistent(chain, after, id, immediately) && name in after && after == slots[name := after[name]]
    ensures StateOf(after[name].tx) == TxApplyPending(StateOf(slots[name].tx))
    ensures SameStaging(slots[name].tx, after[name].tx)
  {
    var tx := new TableTx.Moved(slots[name]);
    tx.ApplyPendingRemoveOps();
    var slot := tx.InSlot();
    SlotReplaced(chain, slots, id, immediately, name, slot);
    after := slots[name := slot];
  }

  method RunSomeWorker(slot: Slot, store: Store, rpc: Rpc) returns (after: Slot, stored: Store, ghost op: Op<Bytes>)
    requires ValidRecord(slot.tx) && slot.tx.running != []
    ensures ValidRecord(after.tx) && FinishedOne(slot.tx, after.tx, op, rpc)
    ensures stored == StoreStage(store, slot.tx.id, StagedBy(op, rpc))
  {
    var tx := new TableTx.Moved(slot);
    var i :| 0 <= i < |tx.running|;
    op := tx.running[i];
    stored := tx.RunWorker(i, store, rpc);
    after := tx.InSlot();
  }

  method FinishWorker(chain: Chain, slots: Slots, ghost id: TxId, ghost immediately: bool, name: Name, rpc: Rpc)
    returns (stored: Chain, after: Slots, ghost op: Op<Bytes>)
    requires Consistent(chain, slots, id, immediately) && name in slots && slots[name].tx.running != []
    ensures Consistent(stored, after, id, immediately) && name in after && after == slots[name := after[name]]
    ensures SameTables(chain, stored)
    ensures stored == chain[name := StoreStage(chain[name], id, StagedBy(op, rpc))]
    ensures FinishedOne(slots[name].tx, after[name].tx, op, rpc)
  {
    var slot, store;
    slot, store, op := RunSomeWorker(slots[name], chain[name], rpc);
    SlotStaged(chain, slots, id, immediately, name, slot, StagedBy(op, rpc));
    stored, after := chain[name := store], slots[name := slot];
  }

  // ---------------------------------------------------------------- preparing one table, and rolling it back

  /** Sends the pending operations of one table: all puts in one call, then all removes in another. */
  method StageBatch(store: Store, tx: TableTx, puts: Rpc, removes: Rpc)
    returns (ok: bool, after: Store, ops: seq<Op<Bytes>>)
    requires tx.Valid() && !tx.prepareImmediately
    modifies tx`putOperations, tx`removeOperations
    ensures after == StoreStage(store, tx.id, ops)
    ensures ops == StagedPart(old(tx.putOperations), old(tx.removeOperations), puts.applied, removes.applied)
    ensures ok <==> BatchReported(old(tx.Record()), puts, removes)
  {
    ok := true;
    var first: seq<Op<Bytes>>, second: seq<Op<Bytes>> := [], [];
    if tx.putOperations != [] {
      if puts.applied {
        first := PutOps(tx.putOperations);
      }
      ok := ok && puts.reported;
      tx.putOperations := [];
    }
    if tx.removeOperations != [] {
      if removes.applied {
        second := RemoveOps(tx.removeOperations);
      }
      ok := ok && removes.reported;
      tx.removeOperations := [];
    }
    after := StoreStage(StoreStage(store, tx.id, first), tx.id, second);
    StageTwice(store, tx.id, first, second);
    ops := first + second;
  }

  /** Waits for the workers in immediate mode; otherwise sends the batches now. */
  method PrepareTable(store: Store, slot: Slot, name: Name, o: Outcomes)
    returns (ok: bool, after: Store, ops: seq<Op<Bytes>>)
    requires ValidRecord(slot.tx)
    ensures after == StoreStage(store, slot.tx.id, ops)
    ensures ok <==> PrepareReported(slot.tx, o, name)
    ensures Prepared(slot.tx, o, name, ops)
  {
    var tx := new TableTx.Moved(slot);
    if tx.prepareImmediately {
      ok, after, ops := tx.WaitForCommitPrepareWorkers(store, WorkersOf(o, name));
      JoinedPrepares(slot.tx, o, name, tx.Record(), ops);
    } else {
      ok, after, ops := StageBatch(store, tx, o.puts(name), o.removes(name));
      BatchPrepares(slot.tx, o, name);
    }
  }

  lemma StagingRollsBack(s: Store, id: TxId, ops: seq<Op<Bytes>>)
    ensures StoreClean(StoreStage(s, id, ops), id) == StoreClean(s, id)
    ensures StoreClean(StoreClean(s, id), id) == StoreClean(s, id)
  {
  }

  /**
   * Waits for the workers in immediate mode and then cleans up; a batch has staged nothing yet.
   * `arrived` is what the workers staged meanwhile.
   */
  method RollBackTable(store: Store, slot: Slot, name: Name, o: Outcomes)
    returns (after: Store, ghost arrived: seq<Op<Bytes>>)
    requires ValidRecord(slot.tx)
    ensures Permutes(arrived,
                     if slot.tx.prepareImmediately then AppliedOps(slot.tx.running, WorkersOf(o, name)) else [])
    ensures after == var staged := StoreStage(store, slot.tx.id, arrived);
                     if slot.tx.prepareImmediately && o.clears(name).applied then StoreClean(staged, slot.tx.id)
                     else staged
    ensures RolledBack(store, after, slot.tx.id, slot.tx.prepareImmediately, o.clears(name).applied)
  {
    var tx := new TableTx.Moved(slot);
    after, arrived := store, [];
    if tx.prepareImmediately {
      var _, joined, ops := tx.WaitForCommitPrepareWorkers(store, WorkersOf(o, name));
      arrived := ops;
      StagingRollsBack(store, tx.id, arrived);
      after := if o.clears(name).applied then StoreClean(joined, tx.id) else joined;
    }
  }

  // ---------------------------------------------------------------- dropping all transactions

  lemma NothingRolledBack(chain: Chain, slots: Slots, id: TxId, immediately: bool, o: Outcomes)
    ensures AllRolledBack(chain, chain, id, immediately, slots.Keys - slots.Keys, o)
  {
  }

  lemma RolledBackOneMore(before: Chain, after: Chain, id: TxId, immediately: bool, names: set<Name>, o: Outcomes,
                          name: Name, s: Store)
    requires AllRolledBack(before, after, id, immediately, names, o) && name in after && name !in names
    requires RolledBack(after[name], s, id, immediately, o.clears(name).applied)
    ensures AllRolledBack(before, after[name := s], id, immediately, names + {name}, o)
  {
    assert after[name] == before[name];
  }

  method DropOne(ghost chain0: Chain, before: Chain, slots: Slots, ghost id: TxId, ghost immediately: bool, o: Outcomes,
                 todo: set<Name>)
    returns (chain: Chain, rest: set<Name>)
    requires todo != {} && todo <= slots.Keys && slots.Keys <= chain0.Keys && SlotsValid(slots, id, immediately)
    requires AllRolledBack(chain0, before, id, immediately, slots.Keys - todo, o)
    ensures rest <= slots.Keys && |rest| < |todo|
    ensures AllRolledBack(chain0, chain, id, immediately, slots.Keys - rest, o)
  {
    var name :| name in todo;
    var after, _ := RollBackTable(before[name], slots[name], name, o);
    RolledBackOneMore(chain0, before, id, immediately, slots.Keys - todo, o, name, after);
    chain, rest := before[name := after], todo - {name};
    assert slots.Keys - todo + {name} == slots.Keys - rest;
  }

  /** Takes every transaction out of its slot and drops it, with what it staged in immediate mode. */
  method DropAll(chain0: Chain, slots: Slots, ghost id: TxId, ghost immediately: bool, o: Outcomes)
    returns (chain: Chain)
    requires slots.Keys <= chain0.Keys && SlotsValid(slots, id, immediately)
    ensures AllRolledBack(chain0, chain, id, immediately, slots.Keys, o)
  {
    chain := chain0;
    var todo := slots.Keys;
    NothingRolledBack(chain, slots, id, immediately, o);
    while todo != {}
      invariant todo <= slots.Keys
      invariant AllRolledBack(chain0, chain, id, immediately, slots.Keys - todo, o)
      decreases |todo|
    {
      chain, todo := DropOne(chain0, chain, slots, id, immediately, o, todo);
    }
    assert slots.Keys - todo == slots.Keys;
  }

  // ---------------------------------------------------------------- preparing all tables

  ghost predicate Lists(names: seq<Name>, s: set<Name>) {
    && |names| == |s|
    && forall n :: n in names <==> n in s
  }

  lemma ListsOneMore(names: seq<Name>, s: set<Name>, n: Name)
    requires Lists(names, s) && n !in s
    ensures Lists(names + [n], s + {n})
  {
  }

  lemma ListsEmpty(names: seq<Name>, s: set<Name>)
    requires Lists(names, s)
    ensures names == [] <==> s == {}
  {
  }

  lemma SubsetSize(s: set<Name>, t: set<Name>)
    requires s <= t
    ensures |s| <= |t|
  {
    assert t == s + (t - s);
  }

  lemma ListsSame(names: seq<Name>, s: set<Name>, tables: set<Name>, o: Outcomes)
    requires Lists(names, s) && s <= tables
    ensures |names| <= |tables| && forall i :: 0 <= i < |names| ==> names[i] in tables
    ensures (set n | n in names) == s && (set n | n in names && o.clears(n).applied) == Cleared(s, o)
  {
    SubsetSize(s, tables);
    assert forall i :: 0 <= i < |names| ==> names[i] in s;
  }

  lemma StagedOneMore(chain: Chain, id: TxId, staged: Staging, n: Name, ops: seq<Op<Bytes>>)
    requires n in chain && n !in staged
    ensures StagedChain(chain, id, staged)[n] == chain[n]
    ensures StagedChain(chain, id, staged)[n := StoreStage(chain[n], id, ops)]
         == StagedChain(chain, id, staged[n := ops])
  {
  }

  lemma PreparedOneMore(slots: Slots, staged: Staging, o: Outcomes, name: Name, ok: bool, ops: seq<Op<Bytes>>)
    requires name in slots && Prepared(slots[name].tx, o, name, ops)
    requires ok ==> PrepareReported(slots[name].tx, o, name)
    ensures ok && AllPrepared(slots, staged, o) ==> AllPrepared(slots, staged[name := ops], o)
  {
  }

  lemma NextStaged(slots: Slots, chain: Chain, id: TxId, rest: set<Name>, name: Name,
                   names: seq<Name>, before: Staging, ops: seq<Op<Bytes>>)
    requires name in rest && name in Affected(slots) && name in chain
    requires Lists(names, before.Keys) && before.Keys == Affected(slots) - rest
    ensures name in StagedChain(chain, id, before)
    ensures StagedChain(chain, id, before)[name := StoreStage(StagedChain(chain, id, before)[name], id, ops)]
         == StagedChain(chain, id, before[name := ops])
    ensures Lists(names + [name], before[name := ops].Keys)
    ensures before[name := ops].Keys == Affected(slots) - (rest - {name})
  {
    StagedOneMore(chain, id, before, name, ops);
    assert before[name := ops].Keys == before.Keys + {name};
    ListsOneMore(names, before.Keys, name);
  }

  /** How far the prepares have come. */
  ghost predicate Progress(chain0: Chain, slots: Slots, id: TxId, o: Outcomes, ok: bool,
                           chain: Chain, affected: seq<Name>, txId: TxId, rest: set<Name>, staged: Staging)
  {
    && rest <= slots.Keys
    && chain == StagedChain(chain0, id, staged)
    && staged.Keys == Affected(slots) - rest
    && Lists(affected, staged.Keys)
    && (affected != [] ==> txId == id)
    && (if ok then AllPrepared(slots, staged, o) else affected != [] && !AllReported(slots, o))
  }

  /** Takes some table's transaction out of its slot and prepares it, unless it only read. */
  method PrepareNext(ghost chain0: Chain, slots: Slots, ghost id: TxId, ghost immediately: bool, o: Outcomes,
                     before: Chain, names: seq<Name>, someId: TxId, todo: set<Name>, ghost earlier: Staging)
    returns (ok: bool, chain: Chain, affected: seq<Name>, txId: TxId, rest: set<Name>, ghost staged: Staging)
    requires slots.Keys <= chain0.Keys && SlotsValid(slots, id, immediately) && todo != {}
    requires Progress(chain0, slots, id, o, true, before, names, someId, todo, earlier)
    ensures Progress(chain0, slots, id, o, ok, chain, affected, txId, rest, staged)
    ensures |rest| < |todo|
  {
    var name :| name in todo;
    ok, chain, affected, txId, rest, staged := true, before, names, someId, todo - {name}, earlier;
    var slot := slots[name];
    if ReadOnlyRecord(slot.tx) {
      assert Affected(slots) - rest == Affected(slots) - todo;
      return;
    }
    var after, ops;
    ok, after, ops := PrepareTable(before[name], slot, name, o);
    NextStaged(slots, chain0, id, todo, name, names, earlier, ops);
    PreparedOneMore(slots, earlier, o, name, ok, ops);
    chain, affected, txId, staged := before[name := after], names + [name], slot.tx.id, earlier[name := ops];
  }

  lemma ProgressMovesOn(chain0: Chain, slots: Slots, id: TxId, o: Outcomes, ok: bool, chain: Chain, affected: seq<Name>,
                        txId: TxId, rest: set<Name>, staged: Staging, others: seq<ForeignStep>, done: nat, now: nat)
    requires done <= now <= |others| && AllForeign(others, chain0, id)
    requires Progress(AfterForeign(chain0, others[..done]), slots, id, o, ok, chain, affected, txId, rest, staged)
    ensures Progress(AfterForeign(chain0, others[..now]), slots, id, o, ok, AfterForeign(chain, others[done..now]),
                     affected, txId, rest, staged)
    ensures AfterForeign(chain0, others[..now]).Keys == chain0.Keys
  {
    ForeignParts(chain0, others, id, done, now);
    OthersCommuteWithPrepares(AfterForeign(chain0, others[..done]), id, staged, others[done..now]);
  }

  /** Others make some of their calls, and then one more table is prepared. */
  method OthersThenPrepareNext(ghost chain0: Chain, slots: Slots, ghost id: TxId, ghost immediately: bool, o: Outcomes,
                               others: seq<ForeignStep>, done: nat, before: Chain, names: seq<Name>, someId: TxId,
                               todo: set<Name>, ghost earlier: Staging)
    returns (now: nat, ok: bool, chain: Chain, affected: seq<Name>, txId: TxId, rest: set<Name>, ghost staged: Staging)
    requires slots.Keys <= chain0.Keys && SlotsValid(slots, id, immediately) && todo != {}
    requires done <= |others| && AllForeign(others, chain0, id)
    requires Progress(AfterForeign(chain0, others[..done]), slots, id, o, true, before, names, someId, todo, earlier)
    ensures now <= |others| && |rest| < |todo|
    ensures Progress(AfterForeign(chain0, others[..now]), slots, id, o, ok, chain, affected, txId, rest, staged)
  {
    now :| done <= now <= |others|;
    ProgressMovesOn(chain0, slots, id, o, true, before, names, someId, todo, earlier, others, done, now);
    var between := AfterForeign(before, others[done..now]);
    ok, chain, affected, txId, rest, staged :=
      PrepareNext(AfterForeign(chain0, others[..now]), slots, id, immediately, o, between, names, someId, todo,
                  earlier);
  }

  lemma NoProgress(chain: Chain, slots: Slots, id: TxId, o: Outcomes, staged: Staging)
    requires staged == map[]
    ensures Progress(chain, slots, id, o, true, chain, [], NilId(), slots.Keys, staged)
  {
    NothingStaged(chain, slots, id);
    assert staged.Keys == {};
  }

  lemma ProgressStarts(chain0: Chain, slots: Slots, id: TxId, o: Outcomes, others: seq<ForeignStep>)
    ensures Progress(AfterForeign(chain0, others[..0]), slots, id, o, true, chain0, [], NilId(), slots.Keys, map[])
  {
    assert others[..0] == [];
    NoProgress(chain0, slots, id, o, map[]);
  }

  lemma OthersAreDone(others: seq<ForeignStep>, done: nat)
    requires done <= |others|
    ensures others[..|others|] == others && others[done..|others|] == others[done..]
  {
  }

  /**
   * Prepares the affected tables in any order, and stops at the first that fails; `rest` was not looked
   * at. Others make their calls in between.
   */
  method PrepareAll(chain0: Chain, slots: Slots, ghost id: TxId, ghost immediately: bool, o: Outcomes,
                    others: seq<ForeignStep>)
    returns (ok: bool, chain: Chain, affected: seq<Name>, txId: TxId, rest: set<Name>, ghost staged: Staging)
    requires slots.Keys <= chain0.Keys && SlotsValid(slots, id, immediately)
    requires AllForeign(others, chain0, id)
    ensures Progress(AfterForeign(chain0, others), slots, id, o, ok, chain, affected, txId, rest, staged)
    ensures ok ==> rest == {}
  {
    ok, chain, affected, txId, rest, staged := true, chain0, [], NilId(), slots.Keys, map[];
    var done: nat := 0;
    ProgressStarts(chain0, slots, id, o, others);
    while ok && rest != {}
      invariant done <= |others|
      invariant Progress(AfterForeign(chain0, others[..done]), slots, id, o, ok, chain, affected, txId, rest, staged)
      decreases |rest|
    {
      done, ok, chain, affected, txId, rest, staged :=
        OthersThenPrepareNext(chain0, slots, id, immediately, o, others, done, chain, affected, txId, rest, staged);
    }
    ProgressMovesOn(chain0, slots, id, o, ok, chain, affected, txId, rest, staged, others, done, |others|);
    chain := AfterForeign(chain, others[done..]);
    OthersAreDone(others, done);
  }

  // ---------------------------------------------------------------- committing

  /** Every table has a well-formed address, and the contract at that address is the table's. */
  ghost predicate Configured(tables: set<Name>, addresses: map<Name, string>, deployed: map<nat, Name>) {
    && |tables| < Wire.SIZES
    && forall n :: n in tables ==>
         n in addresses && Wire.IsAddress(addresses[n])
         && Wire.AddressValue(addresses[n]) in deployed && deployed[Wire.AddressValue(addresses[n])] == n
  }

  lemma CommitEachIsCommitted(chain: Chain, block: BlockNumber, id: TxId, names: seq<Name>)
    requires forall i :: 0 <= i < |names| ==> names[i] in chain
    ensures Transaction.CommitEach(chain, block, id, names) == CommittedChain(chain, block, id, set n | n in names)
  {
    forall n | n in chain
      ensures Transaction.CommitEach(chain, block, id, names)[n]
           == CommittedChain(chain, block, id, set n | n in names)[n]
    {
      Transaction.CommitEachAt(chain, block, id, names, n);
    }
  }

  /**
   * What the commit contract does with the data of a call: it commits the decoded id in the contracts at
   * the decoded addresses, or reverts when it cannot decode the data or finds no contract.
   */
  function Received(chain: Chain, deployed: map<nat, Name>, data: string, block: BlockNumber): Chain {
    match Abi.DecodeCommitAll(data)
    case Some(CommitAll(id, stores)) =>
      if forall i :: 0 <= i < |stores| ==> stores[i] in deployed && deployed[stores[i]] in chain then
        Transaction.CommitEach(chain, block, id, seq(|stores|, i requires 0 <= i < |stores| => deployed[stores[i]]))
      else chain
    case _ => chain
  }

  lemma ReceivedDecoded(chain: Chain, deployed: map<nat, Name>, data: string, block: BlockNumber, id: TxId,
                        stores: seq<nat>, names: seq<Name>)
    requires Abi.DecodeCommitAll(data) == Some(Abi.CommitAll(id, stores)) && |stores| == |names|
    requires forall i :: 0 <= i < |names| ==>
               stores[i] in deployed && deployed[stores[i]] == names[i] && names[i] in chain
    ensures Received(chain, deployed, data, block) == Transaction.CommitEach(chain, block, id, names)
  {
    assert seq(|stores|, i requires 0 <= i < |stores| => deployed[stores[i]]) == names;
  }

  lemma ReceivedCommits(chain: Chain, addresses: map<Name, string>, deployed: map<nat, Name>, names: seq<Name>,
                        list: seq<string>, txId: TxId, block: BlockNumber)
    requires Configured(chain.Keys, addresses, deployed) && |names| <= |chain|
    requires |list| == |names| && forall i :: 0 <= i < |names| ==> names[i] in chain && list[i] == addresses[names[i]]
    ensures Received(chain, deployed, Abi.Join(Wire.CommitAllWords(txId, list)), block)
         == if |names| <= 9 then CommittedChain(chain, block, txId, set n | n in names) else chain
  {
    forall i | 0 <= i < |names|
      ensures Wire.IsAddress(list[i])
      ensures Wire.AddressValues(list)[i] in deployed && deployed[Wire.AddressValues(list)[i]] == names[i]
    {
      assert names[i] in chain.Keys;
    }
    Wire.CommitAllDecodes(txId, list);
    if |names| <= 9 {
      ReceivedDecoded(chain, deployed, Abi.Join(Wire.CommitAllWords(txId, list)), block, txId, Wire.AddressValues(list),
                      names);
      CommitEachIsCommitted(chain, block, txId, names);
    }
  }

  /** Sends one call that commits the id in the contracts at the addresses of all tables listed. */
  method AtomicCommit(chain0: Chain, addresses: map<Name, string>, deployed: map<nat, Name>, names: seq<Name>,
                      txId: TxId, block: BlockNumber, rpc: Rpc)
    returns (rc: nat, chain: Chain)
    requires Configured(chain0.Keys, addresses, deployed)
    requires |names| <= |chain0| && forall i :: 0 <= i < |names| ==> names[i] in chain0
    ensures rc == if rpc.reported then 0 else 1
    ensures chain
         == if rpc.applied && |names| <= 9 then CommittedChain(chain0, block, txId, set n | n in names) else chain0
  {
    chain := chain0;
    var list := seq(|names|, i requires 0 <= i < |names| => addresses[names[i]]);
    var payload := Wire.CommitAllPayload(txId, list);
    ReceivedCommits(chain0, addresses, deployed, names, list, txId, block);
    if rpc.applied {
      chain := Received(chain0, deployed, payload, block);
    }
    rc := if rpc.reported then 0 else 1;
  }

  lemma CleanedOneMore(chain: Chain, id: TxId, names: seq<Name>, i: nat, o: Outcomes)
    requires i < |names| && names[i] in chain
    ensures var before := CleanedChain(chain, id, set n | n in names[..i] && o.clears(n).applied);
            CleanedChain(chain, id, set n | n in names[..i + 1] && o.clears(n).applied)
            == if o.clears(names[i]).applied then before[names[i] := StoreClean(before[names[i]], id)] else before
  {
    assert forall n :: n in names[..i + 1] <==> n in names[..i] || n == names[i];
    assert StoreClean(StoreClean(chain[names[i]], id), id) == StoreClean(chain[names[i]], id);
  }

  /** A prepare failed: cleans up every table that was prepared so far, the failed one included. */
  method ClearAll(chain0: Chain, names: seq<Name>, txId: TxId, o: Outcomes) returns (chain: Chain)
    requires forall i :: 0 <= i < |names| ==> names[i] in chain0
    ensures chain == CleanedChain(chain0, txId, set n | n in names && o.clears(n).applied)
  {
    chain := chain0;
    for i := 0 to |names|
      invariant chain.Keys == chain0.Keys
      invariant chain == CleanedChain(chain0, txId, set n | n in names[..i] && o.clears(n).applied)
    {
      CleanedOneMore(chain0, txId, names, i, o);
      if o.clears(names[i]).applied {
        chain := chain[names[i] := StoreClean(chain[names[i]], txId)];
      }
    }
    assert names[..|names|] == names;
  }

  ghost function ChainAfterPrepares(chain: Chain, id: TxId, block: BlockNumber, o: Outcomes, ending: Ending,
                                    names: set<Name>): Chain {
    match ending
    case PrepareFailed => CleanedChain(chain, id, Cleared(names, o))
    case Committed => CommittedChain(chain, block, id, names)
    case _ => chain
  }

  /** A prepare failed: cleans up every table that was prepared so far, the failed one included. */
  method CleanUp(chain0: Chain, affected: seq<Name>, txId: TxId, o: Outcomes, ghost staged: Staging)
    returns (chain: Chain)
    requires Lists(affected, staged.Keys) && staged.Keys <= chain0.Keys
    ensures chain == CleanedChain(chain0, txId, Cleared(staged.Keys, o))
  {
    ListsSame(affected, staged.Keys, chain0.Keys, o);
    chain := ClearAll(chain0, affected, txId, o);
  }

  method CommitPrepared(chain0: Chain, addresses: map<Name, string>, deployed: map<nat, Name>, affected: seq<Name>,
                        txId: TxId, block: BlockNumber, o: Outcomes, ghost staged: Staging)
    returns (rc: nat, chain: Chain)
    requires Configured(chain0.Keys, addresses, deployed) && Lists(affected, staged.Keys) && staged.Keys <= chain0.Keys
    ensures rc == if o.commit.reported then 0 else 1
    ensures chain
         == if o.commit.applied && |staged.Keys| <= 9 then CommittedChain(chain0, block, txId, staged.Keys)
            else chain0
  {
    ListsSame(affected, staged.Keys, chain0.Keys, o);
    rc, chain := AtomicCommit(chain0, addresses, deployed, affected, txId, block, o.commit);
  }

  /** After the prepares: clean up, do nothing, or commit. */
  method Finish(chain0: Chain, addresses: map<Name, string>, deployed: map<nat, Name>, ok: bool,
                affected: seq<Name>, txId: TxId, block: BlockNumber, o: Outcomes, ghost staged: Staging)
    returns (rc: nat, chain: Chain)
    requires Configured(chain0.Keys, addresses, deployed) && Lists(affected, staged.Keys) && staged.Keys <= chain0.Keys
    requires !ok ==> affected != []
    ensures !ok ==> rc == HA_ERR_INTERNAL_ERROR && chain == CleanedChain(chain0, txId, Cleared(staged.Keys, o))
    ensures ok && affected == [] ==> rc == 0 && chain == chain0
    ensures ok && affected != [] ==>
              && rc == (if o.commit.reported then 0 else 1)
              && chain
                 == if o.commit.applied && |staged.Keys| <= 9 then CommittedChain(chain0, block, txId, staged.Keys)
                    else chain0
  {
    if !ok {
      chain := CleanUp(chain0, affected, txId, o, staged);
      return HA_ERR_INTERNAL_ERROR, chain;
    }
    if affected == [] {
      return 0, chain0;
    }
    rc, chain := CommitPrepared(chain0, addresses, deployed, affected, txId, block, o, staged);
  }

  lemma FinishedAs(chain0: Chain, ok: bool, affected: seq<Name>, names: set<Name>, txId: TxId, block: BlockNumber,
                   o: Outcomes, rc: nat, chain: Chain)
    requires Lists(affected, names)
    requires !ok ==> rc == HA_ERR_INTERNAL_ERROR && chain == CleanedChain(chain0, txId, Cleared(names, o))
    requires ok && affected == [] ==> rc == 0 && chain == chain0
    requires ok && affected != [] ==>
               && rc == (if o.commit.reported then 0 else 1)
               && chain
                  == if o.commit.applied && |names| <= 9 then CommittedChain(chain0, block, txId, names) else chain0
    ensures rc == ReturnCode(EndingAfterPrepares(ok, names, o), o)
    ensures chain == ChainAfterPrepares(chain0, txId, block, o, EndingAfterPrepares(ok, names, o), names)
  {
    ListsEmpty(affected, names);
  }

  lemma EndsAfterPrepares(chain0: Chain, slots0: Slots, id: TxId, block: BlockNumber, o: Outcomes, ok: bool,
                          between: Chain, affected: seq<Name>, txId: TxId, rest: set<Name>, staged: Staging)
    requires Progress(chain0, slots0, id, o, ok, between, affected, txId, rest, staged) && (ok ==> rest == {})
    ensures EndingAfterPrepares(ok, staged.Keys, o) == EndingOfCommit(true, slots0, o)
    ensures var ending := EndingAfterPrepares(ok, staged.Keys, o);
            CommitEnds(chain0, slots0, id, block, o, ending, staged, rest,
                       ChainAfterPrepares(between, txId, block, o, ending, staged.Keys), Remaining(slots0, rest))
  {
    ListsEmpty(affected, staged.Keys);
    if ok {
      assert staged.Keys == Affected(slots0);
      assert AllReported(slots0, o);
    }
    if staged.Keys == {} {
      assert staged == map[];
      NothingStaged(chain0, slots0, id);
    }
  }

  lemma PreparesLeaveKeys(chain0: Chain, slots0: Slots, id: TxId, staged: Staging)
    ensures StagedChain(chain0, id, staged).Keys == chain0.Keys
    ensures Affected(slots0) <= slots0.Keys
  {
  }

  /** Commits if all prepares went well, and otherwise cleans up. */
  method Conclude(ghost chain0: Chain, ghost slots0: Slots, addresses: map<Name, string>, deployed: map<nat, Name>,
                  ghost id: TxId, block: BlockNumber, o: Outcomes, ok: bool, between: Chain,
                  affected: seq<Name>, txId: TxId, ghost rest: set<Name>,
                  ghost staged: Staging)
    returns (rc: nat, chain: Chain)
    requires Configured(chain0.Keys, addresses, deployed) && slots0.Keys <= chain0.Keys
    requires Progress(chain0, slots0, id, o, ok, between, affected, txId, rest, staged) && (ok ==> rest == {})
    ensures ok <==> EndingOfCommit(true, slots0, o) != PrepareFailed
    ensures CommitEnds(chain0, slots0, id, block, o, EndingOfCommit(true, slots0, o), staged, rest, chain,
                       Remaining(slots0, rest))
    ensures rc == ReturnCode(EndingOfCommit(true, slots0, o), o)
  {
    PreparesLeaveKeys(chain0, slots0, id, staged);
    rc, chain := Finish(between, addresses, deployed, ok, affected, txId, block, o, staged);
    FinishedAs(between, ok, affected, staged.Keys, txId, block, o, rc, chain);
    EndsAfterPrepares(chain0, slots0, id, block, o, ok, between, affected, txId, rest, staged);
  }

  /**
   * Prepares the affected tables, and commits them if all went well. What others do meanwhile counts as
   * done before the first prepare.
   */
  method CommitTables(commitTrx: bool, chain0: Chain, slots0: Slots, addresses: map<Name, string>,
                      deployed: map<nat, Name>, ghost id: TxId, ghost immediately: bool, block: BlockNumber,
                      o: Outcomes, others: seq<ForeignStep>)
    returns (rollBack: bool, rc: nat, chain: Chain, slots: Slots, ghost staged: Staging, ghost rest: set<Name>)
    requires Configured(chain0.Keys, addresses, deployed)
    requires slots0.Keys <= chain0.Keys && SlotsValid(slots0, id, immediately)
    requires AllForeign(others, chain0, id)
    ensures rollBack <==> EndingOfCommit(commitTrx, slots0, o) == PrepareFailed
    ensures CommitEnds(AfterForeign(chain0, others), slots0, id, block, o, EndingOfCommit(commitTrx, slots0, o),
                       staged, rest, chain, slots)
    ensures rc == ReturnCode(EndingOfCommit(commitTrx, slots0, o), o)
  {
    if !commitTrx {
      chain := AfterForeign(chain0, others);
      NothingStaged(chain, slots0, id);
      return false, HA_ERR_WRONG_COMMAND, chain, slots0, map[], slots0.Keys;
    }
    var ok, between, affected, txId, left;
    ok, between, affected, txId, left, staged := PrepareAll(chain0, slots0, id, immediately, o, others);
    AfterForeignKeys(chain0, others);
    rollBack, slots, rest := !ok, Remaining(slots0, left), left;
    rc, chain := Conclude(AfterForeign(chain0, others), slots0, addresses, deployed, id, block, o, ok,
                          between, affected, txId, left, staged);
  }

  // ---------------------------------------------------------------- the session

  /** The chain, and what the server keeps for the session. */
  datatype State = State(chain: Chain, slots: Slots, id: TxId, rollbackRequested: bool)

  /** Only the transaction of one table changed. */
  ghost predicate OnlySlot(before: State, after: State, name: Name) {
    && name in after.slots
    && after == before.(slots := before.slots[name := after.slots[name]])
  }

  lemma FailedPrepareKeepsSlotsValid(before: State, immediately: bool, block: BlockNumber, o: Outcomes,
                                     staged: Staging, rest: set<Name>, between: State)
    requires Consistent(before.chain, before.slots, before.id, immediately)
    requires CommitEnds(before.chain, before.slots, before.id, block, o, PrepareFailed, staged, rest, between.chain,
                        between.slots)
    ensures between.slots.Keys <= between.chain.Keys && SlotsValid(between.slots, before.id, immediately)
    ensures StoresValid(between.chain) && between.chain.Keys == before.chain.Keys
  {
    RemainingValid(before.slots, rest, before.id, immediately);
    UncommittedShowsNothing(before.chain, before.slots, before.id, block, o, PrepareFailed, staged, rest,
                            between.chain, between.slots);
    SameTablesKeepValid(before.chain, between.chain);
  }

  /** No call of a commit, and no worker before it, staged an operation for an affected table. */
  predicate StagedNothing(slots: Slots, o: Outcomes) {
    forall n :: n in Affected(slots) ==> !StagesSomething(slots[n].tx, o, n)
  }

  /** A commit, followed by a rollback if its prepare failed, keeps all tables unless it took effect. */
  lemma CommitThenRollBack(before: State, immediately: bool, block: BlockNumber, o: Outcomes, ending: Ending,
                           staged: Staging, rest: set<Name>, between: State, after: State)
    requires Consistent(before.chain, before.slots, before.id, immediately) && before.slots != map[]
    requires ending == EndingOfCommit(true, before.slots, o)
    requires CommitEnds(before.chain, before.slots, before.id, block, o, ending, staged, rest, between.chain,
                        between.slots)
    requires if ending == PrepareFailed
             then
               && AllRolledBack(between.chain, after.chain, before.id, immediately, between.slots.Keys, o)
               && after.slots == map[]
             else after == between
    ensures after.slots == map[]
    ensures ending != Committed ==> SameTables(before.chain, after.chain)
    ensures AllCleared(o) ==>
              (NoStaging(after.chain, before.id) <==> ending != CommitFailed || StagedNothing(before.slots, o))
  {
    var id := before.id;
    SameKeysAfterCommit(before.chain, before.slots, id, block, o, ending, staged, rest, between.chain, between.slots);
    if ending != Committed {
      UncommittedShowsNothing(before.chain, before.slots, id, block, o, ending, staged, rest, between.chain,
                              between.slots);
    }
    if ending == PrepareFailed {
      RolledBackKeepsTables(between.chain, after.chain, id, immediately, between.slots.Keys, o);
      if AllCleared(o) {
        ConsistentAfterFailedPrepare(before.chain, before.slots, id, immediately, block, o, staged, rest,
                                     between.chain, between.slots);
        NoStagingAfterRollback(between.chain, between.slots, id, immediately, o, after.chain);
      }
    } else if ending == CommitFailed {
      StagingAfterFailedCommit(before.chain, before.slots, id, immediately, block, o, staged, rest, between.chain,
                               between.slots);
    } else {
      NoStagingAfterCommit(before.chain, before.slots, id, immediately, block, o, ending, staged, rest,
                           between.chain, between.slots);
    }
  }

  class Session {
    const prepareImmediately: bool
    const addresses: map<Name, string>      // the configured address of each table's contract
    const deployed: map<nat, Name>          // the table of each contract on the chain
    var now: State

    ghost predicate Valid()
      reads this
    {
      Configured(now.chain.Keys, addresses, deployed) && Consistent(now.chain, now.slots, now.id, prepareImmediately)
    }

    constructor (prepareImmediately: bool, addresses: map<Name, string>, deployed: map<nat, Name>, chain: Chain,
                 id: TxId)
      requires Configured(chain.Keys, addresses, deployed) && StoresValid(chain)
      ensures Valid() && now == State(chain, map[], id, false) && this.prepareImmediately == prepareImmediately
    {
      this.prepareImmediately, this.addresses, this.deployed := prepareImmediately, addresses, deployed;
      now := State(chain, map[], id, false);
    }

    // -------------------------------------------------------------- commit and rollback

    /**
     * Prepares the affected tables and commits them in one call, while other sessions make theirs.
     * `staged` is what the prepares staged, table by table, and `rest` the tables that a failed prepare
     * left alone.
     */
    method BcCommit(commitTrx: bool, block: BlockNumber, o: Outcomes, others: seq<ForeignStep>)
      returns (rc: nat, ghost ending: Ending, ghost staged: Staging, ghost rest: set<Name>)
      requires Valid() && AllForeign(others, now.chain, now.id)
      modifies this`now
      ensures ending == EndingOfCommit(commitTrx, old(now).slots, o)
      ensures CommitEnds(AfterForeign(old(now).chain, others), old(now).slots, old(now).id, block, o, ending,
                         staged, rest, now.chain, now.slots)
      ensures rc == ReturnCode(ending, o)
      ensures now.id == old(now).id
      ensures now.rollbackRequested == (old(now).rollbackRequested || ending == PrepareFailed)
      ensures ending != PrepareFailed || AllCleared(o) ==> Valid()
    {
      ghost var before := now;
      ending := EndingOfCommit(commitTrx, now.slots, o);
      var asked, chain, slots;
      asked, rc, chain, slots, staged, rest :=
        CommitTables(commitTrx, now.chain, now.slots, addresses, deployed, now.id, prepareImmediately, block, o,
                     others);
      OthersKeepConsistent(before.chain, before.slots, now.id, prepareImmediately, others);
      now := State(chain, slots, now.id, now.rollbackRequested || asked);
      if ending != PrepareFailed || AllCleared(o) {
        ConsistentAfterCommit(AfterForeign(before.chain, others), before.slots, now.id, prepareImmediately, block, o,
                              ending, staged, rest, chain, slots);
      }
    }

    method BcRollback(all: bool, o: Outcomes) returns (rc: nat)
      requires now.slots.Keys <= now.chain.Keys && SlotsValid(now.slots, now.id, prepareImmediately)
      modifies this`now
      ensures !all ==> rc == HA_ERR_WRONG_COMMAND && now == old(now)
      ensures all ==> rc == 0 && now == old(now).(slots := map[], chain := now.chain)
      ensures all ==> AllRolledBack(old(now).chain, now.chain, now.id, prepareImmediately, old(now).slots.Keys, o)
      ensures all && Configured(now.chain.Keys, addresses, deployed) && StoresValid(old(now).chain) ==> Valid()
    {
      if !all {
        return HA_ERR_WRONG_COMMAND;
      }
      var chain := DropAll(now.chain, now.slots, now.id, prepareImmediately, o);
      RolledBackKeepsTables(now.chain, chain, now.id, prepareImmediately, now.slots.Keys, o);
      if StoresValid(now.chain) {
        SameTablesKeepValid(now.chain, chain);
      }
      now := now.(slots := map[], chain := chain);
      rc := 0;
    }

    /** A commit as the server runs it: when a rollback is requested, the server rolls back. */
    method CommitOrRollBack(block: BlockNumber, o: Outcomes, others: seq<ForeignStep>)
      returns (rc: nat, ghost ending: Ending)
      requires Valid() && now.slots != map[] && !now.rollbackRequested
      requires AllForeign(others, now.chain, now.id)
      modifies this`now
      ensures Valid() && now.slots == map[] && now.id == old(now).id
      ensures ending == EndingOfCommit(true, old(now).slots, o) && rc == ReturnCode(ending, o)
      ensures ending != Committed ==> SameTables(AfterForeign(old(now).chain, others), now.chain)
      ensures AllCleared(o) ==>
                (NoStaging(now.chain, now.id) <==> ending != CommitFailed || StagedNothing(old(now).slots, o))
    {
      ghost var staged, rest;
      ghost var before := now.(chain := AfterForeign(now.chain, others));
      OthersKeepConsistent(now.chain, now.slots, now.id, prepareImmediately, others);
      rc, ending, staged, rest := BcCommit(true, block, o, others);
      ghost var between := now;
      if now.rollbackRequested {
        FailedPrepareKeepsSlotsValid(before, prepareImmediately, block, o, staged, rest, between);
        var _ := BcRollback(true, o);
      }
      CommitThenRollBack(before, prepareImmediately, block, o, ending, staged, rest, between, now);
    }

    // -------------------------------------------------------------- taking part in the transaction

    /** The first use of a table creates its transaction, under the id of those that exist, or a fresh one. */
    method StartTransaction(inTransaction: bool, name: Name, newId: TxId)
      requires Valid() && name in now.chain
      requires now.slots == map[] ==> newId != NilId() && NoStaging(now.chain, newId)
      modifies this`now
      ensures Valid() && now == old(now).(slots := now.slots, id := now.id)
      ensures now.slots == if inTransaction && name !in old(now).slots
                           then old(now).slots[name := Slot(NewRecord(now.id, prepareImmediately))]
                           else old(now).slots
      ensures now.id == if old(now).slots == map[] && inTransaction then newId else old(now).id
    {
      var slots, id := WithTransaction(now.chain, now.slots, now.id, prepareImmediately, inTransaction, name, newId);
      now := now.(slots := slots, id := id);
    }

    method AddPut(name: Name, key: Bytes, value: Bytes)
      requires Valid() && name in now.slots
      modifies this`now
      ensures Valid() && OnlySlot(old(now), now, name)
      ensures StateOf(now.slots[name].tx) == TxPut(StateOf(old(now).slots[name].tx), key, value)
      ensures SameStaging(old(now).slots[name].tx, now.slots[name].tx)
      ensures StartedOne(old(now).slots[name].tx, now.slots[name].tx, PutOp(key, value))
    {
      var slots := PutInto(now.chain, now.slots, now.id, prepareImmediately, name, key, value);
      now := now.(slots := slots);
    }

    method AddRemove(name: Name, key: Bytes, deferrable: bool)
      requires Valid() && name in now.slots
      modifies this`now
      ensures Valid() && OnlySlot(old(now), now, name)
      ensures StateOf(now.slots[name].tx) == TxRemove(StateOf(old(now).slots[name].tx), key, deferrable)
      ensures SameStaging(old(now).slots[name].tx, now.slots[name].tx)
      ensures !(deferrable && old(now).slots[name].tx.pendingRemoveActivated) ==>
                StartedOne(old(now).slots[name].tx, now.slots[name].tx, RemoveOp(key))
    {
      var slots := RemoveFrom(now.chain, now.slots, now.id, prepareImmediately, name, key, deferrable);
      now := now.(slots := slots);
    }

    method ApplyPendingRemoves(name: Name)
      requires Valid() && name in now.slots
      modifies this`now
      ensures Valid() && OnlySlot(old(now), now, name)
      ensures StateOf(now.slots[name].tx) == TxApplyPending(StateOf(old(now).slots[name].tx))
      ensures SameStaging(old(now).slots[name].tx, now.slots[name].tx)
    {
      var slots := EndScanOf(now.chain, now.slots, now.id, prepareImmediately, name);
      now := now.(slots := slots);
    }

    /** Some worker of a table finishes, at any time. Readers of the chain do not notice. */
    method RunWorker(name: Name, rpc: Rpc) returns (ghost op: Op<Bytes>)
      requires Valid() && name in now.slots && now.slots[name].tx.running != []
      modifies this`now
      ensures Valid() && OnlySlot(old(now), now.(chain := old(now).chain), name)
      ensures SameTables(old(now).chain, now.chain)
      ensures now.chain == old(now).chain[name := StoreStage(old(now).chain[name], now.id, StagedBy(op, rpc))]
      ensures FinishedOne(old(now).slots[name].tx, now.slots[name].tx, op, rpc)
    {
      var chain, slots;
      chain, slots, op := FinishWorker(now.chain, now.slots, now.id, prepareImmediately, name, rpc);
      now := now.(chain := chain, slots := slots);
    }
  }

  // ---------------------------------------------------------------- a commit that tears

  const LEFT: Name := "left"
  const RIGHT: Name := "right"
  const KEY: Bytes := [1]
  const VALUE: Bytes := [2]

  /** All calls return 0, but those that prepare the left table were mined and reverted. */
  function TornOutcomes(): Outcomes {
    Outcomes(n => Rpc(n != LEFT, true), n => Rpc(n != LEFT, true),
             (_, _) => Rpc(true, true), _ => Rpc(true, true), Rpc(true, true))
  }

  function EmptyTables(): Chain {
    map[LEFT := EMPTY_STORE, RIGHT := EMPTY_STORE]
  }

  function TwoAddresses(): map<Name, string> {
    map[LEFT := "1", RIGHT := "2"]
  }

  function TwoContracts(): map<nat, Name> {
    map[1 := LEFT, 2 := RIGHT]
  }

  /** A batch transaction with one put in each of the two tables. */
  ghost predicate OnePutEach(chain: Chain, slots: Slots, id: TxId) {
    && Consistent(chain, slots, id, false)
    && chain == EmptyTables() && slots.Keys == {LEFT, RIGHT}
    && forall n :: n in slots ==> slots[n].tx.putOperations == [Row(KEY, VALUE)] && slots[n].tx.removeOperations == []
  }

  lemma OnePutEachCommits(chain: Chain, slots: Slots, id: TxId)
    requires OnePutEach(chain, slots, id)
    ensures Affected(slots) == {LEFT, RIGHT} && EndingOfCommit(true, slots, TornOutcomes()) == Committed
  {
    assert Affected(slots) == {LEFT, RIGHT};
  }

  lemma OnePutShows(r: TxData)
    requires r.putOperations == [Row(KEY, VALUE)] && r.removeOperations == []
    ensures View(EMPTY_STORE) == map[] && !BatchIsIdle(map[], r.putOperations, r.removeOperations)
    ensures Overlay(map[], r.putOperations, r.removeOperations) == map[KEY := VALUE]
  {
    assert r.putOperations[0] in r.putOperations && KEY in KeysOf(r.putOperations);
    assert Overlay(map[], r.putOperations, []).Keys == {KEY};
  }

  lemma TornTables(chain0: Chain, slots0: Slots, id: TxId, block: BlockNumber, staged: Staging, rest: set<Name>,
                   chain: Chain, slots: Slots)
    requires OnePutEach(chain0, slots0, id)
    requires CommitEnds(chain0, slots0, id, block, TornOutcomes(), Committed, staged, rest, chain, slots)
    ensures LEFT in chain && View(chain[LEFT]) == map[] && RIGHT in chain && View(chain[RIGHT]) == map[KEY := VALUE]
  {
    OnePutEachCommits(chain0, slots0, id);
    OnePutShows(slots0[LEFT].tx);
    OnePutShows(slots0[RIGHT].tx);
    RevertedPrepareTearsCommit(chain0, slots0, id, block, TornOutcomes(), staged, rest, chain, slots, LEFT, RIGHT);
  }

  lemma EmptyTablesConfigured()
    ensures Configured(EmptyTables().Keys, TwoAddresses(), TwoContracts())
    ensures StoresValid(EmptyTables())
  {
    assert EmptyTables().Keys == {LEFT, RIGHT};
    assert Wire.StripPrefix("1") == "1" && Wire.StripPrefix("2") == "2";
    assert "1"[..0] == "" && "2"[..0] == "";
    assert Wire.AddressValue("1") == 1 && Wire.AddressValue("2") == 2;
  }

  lemma NothingStagedYet(id: TxId)
    ensures LEFT in EmptyTables() && RIGHT in EmptyTables() && NoStaging(EmptyTables(), id)
  {
  }

  /** Both tables have a transaction without operations. */
  ghost predicate BothStarted(slots: Slots, id: TxId) {
    slots.Keys == {LEFT, RIGHT} && slots[LEFT].tx == NewRecord(id, false) && slots[RIGHT].tx == NewRecord(id, false)
  }

  method TwoTables(id: TxId) returns (s: Session)
    ensures fresh(s) && s.Valid() && !s.prepareImmediately && s.now == State(EmptyTables(), map[], id, false)
  {
    EmptyTablesConfigured();
    s := new Session(false, TwoAddresses(), TwoContracts(), EmptyTables(), id);
  }

  method StartLeft(s: Session, id: TxId)
    requires s.Valid() && !s.prepareImmediately && s.now == State(EmptyTables(), map[], id, false) && id != NilId()
    modifies s
    ensures s.Valid() && s.now == State(EmptyTables(), map[LEFT := Slot(NewRecord(id, false))], id, false)
  {
    NothingStagedYet(id);
    s.StartTransaction(true, LEFT, id);
  }

  method StartRight(s: Session, id: TxId)
    requires s.Valid() && !s.prepareImmediately
    requires s.now == State(EmptyTables(), map[LEFT := Slot(NewRecord(id, false))], id, false) && id != NilId()
    modifies s
    ensures s.Valid() && s.now.chain == EmptyTables() && BothStarted(s.now.slots, s.now.id)
  {
    NothingStagedYet(id);
    s.StartTransaction(true, RIGHT, id);
  }

  /** A put in a transaction that had none. */
  lemma FirstPut(before: TxData, after: TxData)
    requires StateOf(before) == EMPTY_TX && StateOf(after) == TxPut(StateOf(before), KEY, VALUE)
    ensures after.putOperations == [Row(KEY, VALUE)] && after.removeOperations == []
  {
    assert StateOf(after).puts == [] + [Row(KEY, VALUE)];
  }

  lemma BothPut(before: State, between: State, after: State)
    requires before.chain == EmptyTables() && BothStarted(before.slots, before.id)
    requires OnlySlot(before, between, LEFT) && OnlySlot(between, after, RIGHT)
    requires StateOf(between.slots[LEFT].tx) == TxPut(StateOf(before.slots[LEFT].tx), KEY, VALUE)
    requires StateOf(after.slots[RIGHT].tx) == TxPut(StateOf(between.slots[RIGHT].tx), KEY, VALUE)
    requires Consistent(after.chain, after.slots, after.id, false)
    ensures OnePutEach(after.chain, after.slots, after.id)
  {
    FirstPut(before.slots[LEFT].tx, between.slots[LEFT].tx);
    FirstPut(between.slots[RIGHT].tx, after.slots[RIGHT].tx);
    assert after.slots.Keys == {LEFT, RIGHT};
  }

  method PutInBoth(s: Session)
    requires s.Valid() && !s.prepareImmediately && s.now.chain == EmptyTables() && BothStarted(s.now.slots, s.now.id)
    modifies s
    ensures s.Valid() && OnePutEach(s.now.chain, s.now.slots, s.now.id)
  {
    ghost var before := s.now;
    s.AddPut(LEFT, KEY, VALUE);
    ghost var between := s.now;
    s.AddPut(RIGHT, KEY, VALUE);
    BothPut(before, between, s.now);
  }

  /**
   * All calls of the commit return 0, and so does the commit: one of the two tables has its row, the other
   * does not.
   */
  method TornCommit(block: BlockNumber, id: TxId) returns (s: Session, rc: nat)
    requires id != NilId()
    ensures rc == 0
    ensures LEFT in s.now.chain && View(s.now.chain[LEFT]) == map[]
    ensures RIGHT in s.now.chain && View(s.now.chain[RIGHT]) == map[KEY := VALUE]
  {
    s := TwoTables(id);
    StartLeft(s, id);
    StartRight(s, id);
    PutInBoth(s);
    ghost var before := s.now;
    OnePutEachCommits(before.chain, before.slots, before.id);
    ghost var ending, staged, rest;
    rc, ending, staged, rest := s.BcCommit(true, block, TornOutcomes(), []);
    TornTables(before.chain, before.slots, before.id, block, staged, rest, s.now.chain, s.now.slots);
  }
}
