/**
 * What commit and rollback of a session mean, on values: a transaction for each table the session
 * touched, all under one id, the chain with the contract of each table, and the calls of others. The
 * chain changes only through RPCs, whose outcomes are arbitrary.
 */
module SessionSpec {
  import opened Types
  import opened TableSpec
  import opened TableStorage
  import opened TxSpec
  import opened TableTx
  import Others = Serialisability

  type Name = string

  const HA_ERR_INTERNAL_ERROR: nat := 122
  const HA_ERR_WRONG_COMMAND: nat := 131

  /**
   * How each RPC that a commit or rollback may send ends, table by table; that of a worker by its position
   * among those that run.
   */
  datatype Outcomes = Outcomes(puts: Name -> Rpc,
                               removes: Name -> Rpc,
                               workers: (Name, nat) -> Rpc,
                               clears: Name -> Rpc,
                               commit: Rpc)

  ghost predicate AllCleared(o: Outcomes) {
    forall n :: o.clears(n).applied
  }

  // ---------------------------------------------------------------- chain and session as values

  /** The contract of each table; table names map to distinct contracts. */
  type Chain = map<Name, Store>

  /** The transaction of each table the session touched. */
  type Slots = map<Name, Slot>

  /** What a commit stages, table by table. */
  type Staging = map<Name, seq<Op<Bytes>>>

  function Affected(slots: Slots): set<Name> {
    set n | n in slots && !ReadOnlyRecord(slots[n].tx)
  }

  /** Every transaction of the session is consistent and carries the session's id and mode. */
  ghost predicate SlotsValid(slots: Slots, id: TxId, immediately: bool) {
    forall n :: n in slots ==>
      ValidRecord(slots[n].tx) && slots[n].tx.id == id && slots[n].tx.prepareImmediately == immediately
  }

  /** Each buffer for the id holds what was delivered for its table, and nothing without a transaction. */
  ghost predicate BuffersMatch(chain: Chain, id: TxId, slots: Slots) {
    forall n :: n in chain ==> Buffer(chain[n], id) == if n in slots then slots[n].tx.delivered else []
  }

  ghost predicate NoStaging(chain: Chain, id: TxId) {
    forall n :: n in chain ==> Buffer(chain[n], id) == []
  }

  ghost predicate StoresValid(chain: Chain) {
    forall n :: n in chain ==> TableStorage.Valid(chain[n])
  }

  /** Readers of every table see what they saw before. */
  ghost predicate SameTables(before: Chain, after: Chain) {
    && before.Keys == after.Keys
    && forall n :: n in before ==> after[n].keyList == before[n].keyList && after[n].data == before[n].data
  }

  ghost function StagedChain(chain: Chain, id: TxId, staged: Staging): Chain {
    map n | n in chain :: if n in staged then StoreStage(chain[n], id, staged[n]) else chain[n]
  }

  ghost function CommittedChain(chain: Chain, block: BlockNumber, id: TxId, names: set<Name>): Chain {
    map n | n in chain :: if n in names then StoreCommit(chain[n], block, id) else chain[n]
  }

  ghost function CleanedChain(chain: Chain, id: TxId, names: set<Name>): Chain {
    map n | n in chain :: if n in names then StoreClean(chain[n], id) else chain[n]
  }

  /** The call for n in `names` took effect. */
  ghost function Cleared(names: set<Name>, o: Outcomes): set<Name> {
    set n | n in names && o.clears(n).applied
  }

  // ---------------------------------------------------------------- preparing one table

  /** Every call that the batch needs returned 0. */
  predicate BatchReported(r: TxData, puts: Rpc, removes: Rpc) {
    (r.putOperations == [] || puts.reported) && (r.removeOperations == [] || removes.reported)
  }

  function WorkersOf(o: Outcomes, name: Name): nat -> Rpc {
    (i: nat) => o.workers(name, i)
  }

  /** Every call that the table needs to be prepared returned 0. */
  predicate PrepareReported(r: TxData, o: Outcomes, name: Name) {
    if r.prepareImmediately then r.commitPrepareSuccess && EachReported(Paired(r.running, WorkersOf(o, name)))
    else BatchReported(r, o.puts(name), o.removes(name))
  }

  /** None of these calls is reported as done without being done. */
  predicate PrepareHonest(r: TxData, o: Outcomes, name: Name) {
    if r.prepareImmediately then r.honest && EachHonest(Paired(r.running, WorkersOf(o, name)))
    else (r.putOperations == [] || o.puts(name).Honest()) && (r.removeOperations == [] || o.removes(name).Honest())
  }

  /** What the workers of a table have staged once they are joined, up to order. */
  function Delivered(r: TxData, o: Outcomes, name: Name): seq<Op<Bytes>> {
    r.delivered + AppliedOps(r.running, WorkersOf(o, name))
  }

  /** Some of these calls, or of those made before, staged an operation. */
  predicate StagesSomething(r: TxData, o: Outcomes, name: Name) {
    if r.prepareImmediately then Delivered(r, o, name) != []
    else (r.putOperations != [] && o.puts(name).applied) || (r.removeOperations != [] && o.removes(name).applied)
  }

  /** All operations issued for the table are staged, and in batch mode in batch order. */
  ghost predicate Complete(r: TxData, ops: seq<Op<Bytes>>) {
    && Permutes(r.delivered + ops, BatchOps(r.putOperations, r.removeOperations))
    && (!r.prepareImmediately ==> r.delivered + ops == BatchOps(r.putOperations, r.removeOperations))
  }

  ghost predicate OnlyIssued(r: TxData, ops: seq<Op<Bytes>>) {
    forall x :: Count(r.delivered + ops, x) <= Count(BatchOps(r.putOperations, r.removeOperations), x)
  }

  /** What preparing a table stages: never more than was issued, and all of it when nothing fails. */
  ghost predicate Prepared(r: TxData, o: Outcomes, name: Name, ops: seq<Op<Bytes>>) {
    && (PrepareReported(r, o, name) && PrepareHonest(r, o, name) ==> Complete(r, ops))
    && (r.prepareImmediately ==> OnlyIssued(r, ops) && Permutes(ops, AppliedOps(r.running, WorkersOf(o, name))))
    && (!r.prepareImmediately ==>
          && r.delivered == []
          && ops == StagedPart(r.putOperations, r.removeOperations, o.puts(name).applied, o.removes(name).applied))
  }

  lemma JoinedPrepares(r: TxData, o: Outcomes, name: Name, joined: TxData, ops: seq<Op<Bytes>>)
    requires r.prepareImmediately && ValidRecord(joined)
    requires joined == r.(running := [], delivered := joined.delivered, honest := joined.honest,
                          commitPrepareSuccess := PrepareReported(r, o, name))
    requires joined.delivered == r.delivered + ops && Permutes(ops, AppliedOps(r.running, WorkersOf(o, name)))
    requires joined.honest == PrepareHonest(r, o, name)
    ensures Prepared(r, o, name, ops)
  {
    forall x
      ensures Count(r.delivered + ops, x) <= Count(BatchOps(r.putOperations, r.removeOperations), x)
    {
      OnlyIssuedDelivered(joined, x);
    }
    if PrepareReported(r, o, name) && PrepareHonest(r, o, name) {
      JoinedMeansDelivered(joined);
    }
  }

  lemma BatchPrepares(r: TxData, o: Outcomes, name: Name)
    requires ValidRecord(r) && !r.prepareImmediately
    ensures Prepared(r, o, name,
                     StagedPart(r.putOperations, r.removeOperations, o.puts(name).applied, o.removes(name).applied))
  {
    var ops := StagedPart(r.putOperations, r.removeOperations, o.puts(name).applied, o.removes(name).applied);
    assert [] + ops == ops;
    if PrepareReported(r, o, name) && PrepareHonest(r, o, name) {
      assert ops == BatchOps(r.putOperations, r.removeOperations);
    }
  }

  lemma StagesSomethingIff(r: TxData, o: Outcomes, name: Name, ops: seq<Op<Bytes>>)
    requires Prepared(r, o, name, ops)
    ensures r.delivered + ops != [] <==> StagesSomething(r, o, name)
  {
    if r.prepareImmediately {
      PermutesLength(ops, AppliedOps(r.running, WorkersOf(o, name)));
      assert |r.delivered + ops| == |Delivered(r, o, name)|;
    }
  }

  /** A table that is prepared honestly has staged something, because read-only tables are not prepared. */
  lemma HonestPrepareStages(r: TxData, o: Outcomes, name: Name, ops: seq<Op<Bytes>>)
    requires ValidRecord(r) && !ReadOnlyRecord(r) && Prepared(r, o, name, ops)
    requires PrepareReported(r, o, name) && PrepareHonest(r, o, name)
    ensures StagesSomething(r, o, name)
  {
    ReadOnlyMeansNoOperations(r);
    PermutesLength(r.delivered + ops, BatchOps(r.putOperations, r.removeOperations));
    StagesSomethingIff(r, o, name, ops);
  }

  ghost predicate SameStaging(r: TxData, after: TxData) {
    && ValidRecord(after) && after.id == r.id && after.prepareImmediately == r.prepareImmediately
    && after.delivered == r.delivered
    && after.commitPrepareSuccess == r.commitPrepareSuccess && after.honest == r.honest
  }

  /** In immediate mode one worker more was started. */
  ghost predicate StartedOne(before: TxData, after: TxData, op: Op<Bytes>) {
    after.running == if before.prepareImmediately then before.running + [op] else before.running
  }

  /** One worker more has finished, and its operation was delivered if its call took effect. */
  ghost predicate FinishedOne(before: TxData, after: TxData, op: Op<Bytes>, rpc: Rpc) {
    && (exists i :: 0 <= i < |before.running| && op == before.running[i]
         && after.running == before.running[..i] + before.running[i + 1..])
    && after == before.(running := after.running, delivered := before.delivered + StagedBy(op, rpc),
                        commitPrepareSuccess := before.commitPrepareSuccess && rpc.reported,
                        honest := before.honest && rpc.Honest())
  }

  // ---------------------------------------------------------------- the invariant of a session

  /** What holds between any two steps of a session. */
  ghost predicate Consistent(chain: Chain, slots: Slots, id: TxId, immediately: bool) {
    && slots.Keys <= chain.Keys
    && SlotsValid(slots, id, immediately)
    && StoresValid(chain)
    && (slots != map[] ==> id != NilId() && BuffersMatch(chain, id, slots))
  }

  /** A rollback leaves the table alone, and the buffer empty if the cleanup call took effect. */
  ghost predicate RolledBack(before: Store, after: Store, id: TxId, immediately: bool, cleared: bool) {
    && StoreClean(after, id) == StoreClean(before, id)
    && (immediately && cleared ==> after == StoreClean(before, id))
    && (!immediately ==> after == before)
  }

  lemma SameTablesKeepValid(before: Chain, after: Chain)
    requires SameTables(before, after) && StoresValid(before)
    ensures StoresValid(after)
  {
    forall n | n in after
      ensures TableStorage.Valid(after[n])
    {
      assert n in before && TableStorage.Valid(before[n]);
    }
  }

  lemma SlotsStayValid(slots: Slots, id: TxId, immediately: bool, name: Name, slot: Slot)
    requires SlotsValid(slots, id, immediately)
    requires ValidRecord(slot.tx) && slot.tx.id == id && slot.tx.prepareImmediately == immediately
    ensures SlotsValid(slots[name := slot], id, immediately)
  {
  }

  lemma StagedBuffer(s: Store, id: TxId, ops: seq<Op<Bytes>>)
    ensures Buffer(StoreStage(s, id, ops), id) == Buffer(s, id) + ops
  {
    if ops == [] {
      assert Buffer(s, id) + ops == Buffer(s, id);
    }
  }

  lemma StagedBuffersMatch(chain: Chain, slots: Slots, id: TxId, name: Name, slot: Slot, ops: seq<Op<Bytes>>)
    requires BuffersMatch(chain, id, slots) && name in slots && name in chain
    requires slot.tx.delivered == slots[name].tx.delivered + ops
    ensures BuffersMatch(chain[name := StoreStage(chain[name], id, ops)], id, slots[name := slot])
  {
    StagedBuffer(chain[name], id, ops);
  }

  lemma StagingKeepsTables(chain: Chain, id: TxId, name: Name, ops: seq<Op<Bytes>>)
    requires name in chain
    ensures SameTables(chain, chain[name := StoreStage(chain[name], id, ops)])
    ensures StoresValid(chain) ==> StoresValid(chain[name := StoreStage(chain[name], id, ops)])
  {
    if StoresValid(chain) {
      SameTablesKeepValid(chain, chain[name := StoreStage(chain[name], id, ops)]);
    }
  }

  lemma SlotStaged(chain: Chain, slots: Slots, id: TxId, immediately: bool, name: Name, slot: Slot, ops: seq<Op<Bytes>>)
    requires Consistent(chain, slots, id, immediately) && name in slots
    requires ValidRecord(slot.tx) && slot.tx.id == id && slot.tx.prepareImmediately == immediately
    requires slot.tx.delivered == slots[name].tx.delivered + ops
    ensures var after := chain[name := StoreStage(chain[name], id, ops)];
            Consistent(after, slots[name := slot], id, immediately) && SameTables(chain, after)
  {
    SlotsStayValid(slots, id, immediately, name, slot);
    StagedBuffersMatch(chain, slots, id, name, slot, ops);
    StagingKeepsTables(chain, id, name, ops);
  }

  lemma SameBuffersMatch(chain: Chain, slots: Slots, id: TxId, name: Name, slot: Slot)
    requires BuffersMatch(chain, id, slots) && name in slots && slot.tx.delivered == slots[name].tx.delivered
    ensures BuffersMatch(chain, id, slots[name := slot])
  {
  }

  /** A transaction may change as long as it keeps what it delivered. */
  lemma SlotReplaced(chain: Chain, slots: Slots, id: TxId, immediately: bool, name: Name, slot: Slot)
    requires Consistent(chain, slots, id, immediately) && name in slots
    requires SameStaging(slots[name].tx, slot.tx)
    ensures Consistent(chain, slots[name := slot], id, immediately)
  {
    SlotsStayValid(slots, id, immediately, name, slot);
    SameBuffersMatch(chain, slots, id, name, slot);
  }

  lemma StartedBuffersMatch(chain: Chain, slots: Slots, id: TxId, name: Name, slot: Slot)
    requires if slots == map[] then NoStaging(chain, id) else BuffersMatch(chain, id, slots)
    requires name !in slots && slot.tx.delivered == []
    ensures BuffersMatch(chain, id, slots[name := slot])
  {
  }

  lemma SlotStarted(chain: Chain, slots: Slots, id: TxId, newId: TxId, immediately: bool, name: Name, slot: Slot)
    requires Consistent(chain, slots, id, immediately) && name in chain && name !in slots
    requires if slots == map[] then newId != NilId() && NoStaging(chain, newId) else newId == id
    requires slot.tx == NewRecord(newId, immediately)
    ensures Consistent(chain, slots[name := slot], newId, immediately)
  {
    assert SlotsValid(slots, newId, immediately);
    SlotsStayValid(slots, newId, immediately, name, slot);
    StartedBuffersMatch(chain, slots, newId, name, slot);
  }

  ghost predicate AllRolledBack(before: Chain, after: Chain, id: TxId, immediately: bool, names: set<Name>,
                                o: Outcomes) {
    && before.Keys == after.Keys
    && forall n :: n in before ==>
         if n in names then RolledBack(before[n], after[n], id, immediately, o.clears(n).applied)
         else after[n] == before[n]
  }

  // ---------------------------------------------------------------- other sessions

  /** A contract call of somebody else: a direct one, or one under another id. */
  datatype ForeignStep = ForeignStep(name: Name, step: Others.Step)

  ghost predicate IsForeign(f: ForeignStep, chain: Chain, id: TxId) {
    f.name in chain && !Others.Concerns(f.step, id)
  }

  ghost predicate AllForeign(steps: seq<ForeignStep>, chain: Chain, id: TxId) {
    forall i :: 0 <= i < |steps| ==> IsForeign(steps[i], chain, id)
  }

  function AfterForeign(chain: Chain, steps: seq<ForeignStep>): Chain {
    if steps == [] then chain
    else
      var before, last := AfterForeign(chain, steps[..|steps| - 1]), steps[|steps| - 1];
      if last.name in before then before[last.name := Others.StepStore(before[last.name], last.step)] else before
  }

  lemma ForeignStepKeeps(s: Store, step: Others.Step, id: TxId)
    requires TableStorage.Valid(s) && !Others.Concerns(step, id)
    ensures TableStorage.Valid(Others.StepStore(s, step)) && Buffer(Others.StepStore(s, step), id) == Buffer(s, id)
  {
    match step
    case Direct(block, ops) =>
      StoreReplayMeaning(s, block, ops);
      StoreReplayKeepsBuffers(s, block, ops);
    case Commit(block, x) => CommitMeaning(s, block, x);
    case _ =>
  }

  lemma StoreReplaced(chain: Chain, slots: Slots, id: TxId, name: Name, s: Store)
    requires name in chain && StoresValid(chain) && TableStorage.Valid(s) && Buffer(s, id) == Buffer(chain[name], id)
    ensures StoresValid(chain[name := s])
    ensures BuffersMatch(chain, id, slots) ==> BuffersMatch(chain[name := s], id, slots)
  {
  }

  lemma ForeignStepKeepsConsistent(chain: Chain, slots: Slots, id: TxId, immediately: bool, f: ForeignStep)
    requires Consistent(chain, slots, id, immediately) && IsForeign(f, chain, id)
    ensures Consistent(chain[f.name := Others.StepStore(chain[f.name], f.step)], slots, id, immediately)
  {
    ForeignStepKeeps(chain[f.name], f.step, id);
    StoreReplaced(chain, slots, id, f.name, Others.StepStore(chain[f.name], f.step));
  }

  /**
   * Whatever others do at any time, a session stays consistent: its invariant does not need the chain to
   * stand still.
   */
  lemma {:induction false} OthersKeepConsistent(chain: Chain, slots: Slots, id: TxId, immediately: bool,
                                                steps: seq<ForeignStep>)
    requires Consistent(chain, slots, id, immediately)
    requires AllForeign(steps, chain, id)
    ensures AfterForeign(chain, steps).Keys == chain.Keys
    ensures Consistent(AfterForeign(chain, steps), slots, id, immediately)
  {
    if steps != [] {
      var last := |steps| - 1;
      OthersKeepConsistent(chain, slots, id, immediately, steps[..last]);
      assert IsForeign(steps[last], chain, id);
      ForeignStepKeepsConsistent(AfterForeign(chain, steps[..last]), slots, id, immediately, steps[last]);
    }
  }

  lemma {:induction false} AfterForeignKeys(chain: Chain, steps: seq<ForeignStep>)
    ensures AfterForeign(chain, steps).Keys == chain.Keys
  {
    if steps != [] {
      AfterForeignKeys(chain, steps[..|steps| - 1]);
    }
  }

  lemma {:induction false} AfterForeignConcat(chain: Chain, a: seq<ForeignStep>, b: seq<ForeignStep>)
    ensures AfterForeign(chain, a + b) == AfterForeign(AfterForeign(chain, a), b)
  {
    if b == [] {
      assert a + b == a;
    } else {
      assert (a + b)[..|a + b| - 1] == a + b[..|b| - 1];
      AfterForeignConcat(chain, a, b[..|b| - 1]);
    }
  }

  /** The calls of others, cut in two. */
  lemma ForeignParts(chain: Chain, others: seq<ForeignStep>, id: TxId, done: nat, now: nat)
    requires AllForeign(others, chain, id) && done <= now <= |others|
    ensures AfterForeign(chain, others[..now]) == AfterForeign(AfterForeign(chain, others[..done]), others[done..now])
    ensures AllForeign(others[done..now], AfterForeign(chain, others[..done]), id)
    ensures AfterForeign(chain, others[..now]).Keys == chain.Keys
  {
    assert others[..now] == others[..done] + others[done..now];
    AfterForeignConcat(chain, others[..done], others[done..now]);
    AfterForeignKeys(chain, others[..done]);
    AfterForeignKeys(chain, others[..now]);
  }

  lemma {:induction false} ReplayStagedStore(s: Store, block: BlockNumber, id: TxId, mine: seq<Op<Bytes>>,
                                             ops: seq<Op<Bytes>>)
    ensures StoreReplay(StoreStage(s, id, mine), block, ops) == StoreStage(StoreReplay(s, block, ops), id, mine)
  {
    StoreReplayKeepsBuffers(s, block, ops);
    if ops != [] {
      ReplayStagedStore(s, block, id, mine, ops[..|ops| - 1]);
      StoreReplayKeepsBuffers(s, block, ops[..|ops| - 1]);
    }
  }

  lemma StagesCommute(s: Store, a: TxId, mine: seq<Op<Bytes>>, b: TxId, ops: seq<Op<Bytes>>)
    requires a != b
    ensures StoreStage(StoreStage(s, a, mine), b, ops) == StoreStage(StoreStage(s, b, ops), a, mine)
  {
    if mine != [] && ops != [] {
      assert s.txBuffer[a := Buffer(s, a) + mine][b := Buffer(s, b) + ops]
          == s.txBuffer[b := Buffer(s, b) + ops][a := Buffer(s, a) + mine];
    }
  }

  lemma CleanCommutes(s: Store, a: TxId, mine: seq<Op<Bytes>>, b: TxId)
    requires a != b
    ensures StoreClean(StoreStage(s, a, mine), b) == StoreStage(StoreClean(s, b), a, mine)
  {
    if mine != [] {
      assert s.txBuffer[a := Buffer(s, a) + mine] - {b} == (s.txBuffer - {b})[a := Buffer(s, a) + mine];
    }
  }

  /** A call of somebody else and a staging call may change places. */
  lemma ForeignStepCommutes(s: Store, step: Others.Step, id: TxId, mine: seq<Op<Bytes>>)
    requires !Others.Concerns(step, id)
    ensures Others.StepStore(StoreStage(s, id, mine), step) == StoreStage(Others.StepStore(s, step), id, mine)
  {
    match step
    case Direct(block, ops) => ReplayStagedStore(s, block, id, mine, ops);
    case Stage(x, ops) => StagesCommute(s, id, mine, x, ops);
    case Clean(x) => CleanCommutes(s, id, mine, x);
    case Commit(block, x) =>
      ReplayStagedStore(s, block, id, mine, Buffer(s, x));
      CleanCommutes(StoreReplay(s, block, Buffer(s, x)), id, mine, x);
  }

  /** Whatever others do between the prepares of a commit, they might as well have done before the first. */
  lemma {:induction false} OthersCommuteWithPrepares(chain: Chain, id: TxId, staged: Staging, steps: seq<ForeignStep>)
    requires AllForeign(steps, chain, id)
    ensures AfterForeign(StagedChain(chain, id, staged), steps) == StagedChain(AfterForeign(chain, steps), id, staged)
  {
    AfterForeignKeys(chain, steps);
    AfterForeignKeys(StagedChain(chain, id, staged), steps);
    if steps != [] {
      var earlier, last := steps[..|steps| - 1], steps[|steps| - 1];
      AfterForeignKeys(chain, earlier);
      assert IsForeign(last, chain, id);
      OthersCommuteWithPrepares(chain, id, staged, earlier);
      if last.name in staged {
        ForeignStepCommutes(AfterForeign(chain, earlier)[last.name], last.step, id, staged[last.name]);
      }
    }
  }

  // ---------------------------------------------------------------- how a commit ends

  ghost predicate AllPrepared(slots: Slots, staged: Staging, o: Outcomes) {
    forall n :: n in staged ==>
      n in slots && PrepareReported(slots[n].tx, o, n) && Prepared(slots[n].tx, o, n, staged[n])
  }

  /** The transactions of the tables in `rest`. */
  function Remaining(slots: Slots, rest: set<Name>): Slots {
    map n | n in slots && n in rest :: slots[n]
  }

  lemma NothingStaged(chain: Chain, slots: Slots, id: TxId)
    ensures StagedChain(chain, id, map[]) == chain
    ensures Remaining(slots, slots.Keys) == slots && Affected(slots) - slots.Keys == {}
  {
  }

  /** Every affected table can be prepared. */
  ghost predicate AllReported(slots: Slots, o: Outcomes) {
    forall n :: n in Affected(slots) ==> PrepareReported(slots[n].tx, o, n)
  }

  datatype Ending = Refused | NothingToCommit | PrepareFailed | CommitFailed | Committed

  /**
   * The chain and the slots after a commit. A refused commit does nothing; a failed prepare cleans up
   * the tables it got to; otherwise all slots are empty, and the commit took effect or it did not.
   */
  ghost predicate CommitEnds(chain0: Chain, slots0: Slots, id: TxId, block: BlockNumber, o: Outcomes, ending: Ending,
                             staged: Staging, rest: set<Name>, chain: Chain, slots: Slots)
  {
    && slots == Remaining(slots0, rest)
    && staged.Keys == Affected(slots0) - rest
    && match ending
       case Refused => rest == slots0.Keys && chain == chain0
       case PrepareFailed => chain == CleanedChain(StagedChain(chain0, id, staged), id, Cleared(staged.Keys, o))
       case NothingToCommit => rest == {} && staged == map[] && chain == chain0
       case CommitFailed => rest == {} && AllPrepared(slots0, staged, o) && chain == StagedChain(chain0, id, staged)
       case Committed =>
         && rest == {} && AllPrepared(slots0, staged, o)
         && chain == CommittedChain(StagedChain(chain0, id, staged), block, id, staged.Keys)
  }

  function ReturnCode(ending: Ending, o: Outcomes): nat {
    match ending
    case Refused => HA_ERR_WRONG_COMMAND
    case PrepareFailed => HA_ERR_INTERNAL_ERROR
    case NothingToCommit => 0
    case _ => if o.commit.reported then 0 else 1
  }

  /** A commit call takes effect unless it lists ten stores or more. */
  ghost function EndingAfterPrepares(ok: bool, names: set<Name>, o: Outcomes): Ending {
    if !ok then PrepareFailed
    else if names == {} then NothingToCommit
    else if o.commit.applied && |names| <= 9 then Committed
    else CommitFailed
  }

  /** How a commit ends is settled by the outcomes of its calls, whatever the order of the tables. */
  ghost function EndingOfCommit(commitTrx: bool, slots: Slots, o: Outcomes): Ending {
    if commitTrx then EndingAfterPrepares(AllReported(slots, o), Affected(slots), o) else Refused
  }

  // ---------------------------------------------------------------- what a commit shows

  /**
   * The table shows all operations issued for it: in the order in which they arrived, which in batch
   * mode is the overlay of the pending operations.
   */
  ghost predicate ShowsCommit(before: Store, after: Store, r: TxData, ops: seq<Op<Bytes>>) {
    && View(after) == Replay(View(before), r.delivered + ops)
    && Permutes(r.delivered + ops, BatchOps(r.putOperations, r.removeOperations))
    && (!r.prepareImmediately ==> View(after) == Overlay(View(before), r.putOperations, r.removeOperations))
  }

  lemma StageThenCommit(s: Store, block: BlockNumber, id: TxId, ops: seq<Op<Bytes>>)
    requires TableStorage.Valid(s)
    ensures TableStorage.Valid(StoreCommit(StoreStage(s, id, ops), block, id))
    ensures View(StoreCommit(StoreStage(s, id, ops), block, id)) == Replay(View(s), Buffer(s, id) + ops)
    ensures Buffer(StoreCommit(StoreStage(s, id, ops), block, id), id) == []
  {
    CommitMeaning(StoreStage(s, id, ops), block, id);
    if ops == [] {
      assert Buffer(s, id) + ops == Buffer(s, id);
    }
  }

  lemma CommitShows(s: Store, block: BlockNumber, id: TxId, r: TxData, ops: seq<Op<Bytes>>)
    requires TableStorage.Valid(s) && Buffer(s, id) == r.delivered && Complete(r, ops)
    ensures ShowsCommit(s, StoreCommit(StoreStage(s, id, ops), block, id), r, ops)
  {
    StageThenCommit(s, block, id, ops);
    BatchCommitIsOverlay(View(s), r.putOperations, r.removeOperations);
  }

  lemma UncommittedShowsNothing(chain0: Chain, slots0: Slots, id: TxId, block: BlockNumber, o: Outcomes, ending: Ending,
                                staged: Staging, rest: set<Name>, chain: Chain, slots: Slots)
    requires CommitEnds(chain0, slots0, id, block, o, ending, staged, rest, chain, slots)
    requires ending != Committed
    ensures SameTables(chain0, chain)
  {
  }

  /** No prepare call of an affected table is reported as done without being done. */
  ghost predicate PreparesHonest(slots: Slots, o: Outcomes) {
    forall n :: n in Affected(slots) ==> PrepareHonest(slots[n].tx, o, n)
  }

  /**
   * All or nothing: whatever the outcomes, as long as no prepare call is reported as done without being
   * done, a commit leaves either every affected table with its operations applied and the others as
   * they were, or every table as it was.
   */
  lemma AllOrNothing(chain0: Chain, slots0: Slots, id: TxId, immediately: bool, block: BlockNumber, o: Outcomes,
                     ending: Ending, staged: Staging, rest: set<Name>, chain: Chain, slots: Slots)
    requires Consistent(chain0, slots0, id, immediately)
    requires CommitEnds(chain0, slots0, id, block, o, ending, staged, rest, chain, slots)
    requires PreparesHonest(slots0, o)
    ensures chain.Keys == chain0.Keys
    ensures ending != Committed ==> SameTables(chain0, chain)
    ensures ending == Committed ==>
              forall n :: n in chain0 ==>
                if n in Affected(slots0) then n in staged && ShowsCommit(chain0[n], chain[n], slots0[n].tx, staged[n])
                else chain[n] == chain0[n]
  {
    if ending == Committed {
      forall n | n in Affected(slots0)
        ensures n in staged && ShowsCommit(chain0[n], chain[n], slots0[n].tx, staged[n])
      {
        assert n in staged && Prepared(slots0[n].tx, o, n, staged[n]);
        CommitShows(chain0[n], block, id, slots0[n].tx, staged[n]);
      }
    } else {
      UncommittedShowsNothing(chain0, slots0, id, block, o, ending, staged, rest, chain, slots);
    }
  }

  /** The transaction in the slot went through `run`, in which it scanned the table and no other commit showed. */
  ghost predicate ScannedBy(slot: Slot, run: seq<Step>, table: Contents) {
    StateOf(slot.tx) == Exec(run) && HasScan(run) && ChainIs(run, table)
  }

  /**
   * What the session saw and what it committed, with honest prepare calls: in batch mode each table is the
   * cache of its slot without the revived keys. In immediate mode, if the workers' operations arrive in
   * the order of issue, it is the cache, and has the rows that a reapply dropped from the cache as well.
   */
  lemma CommitShowsSlotCache(chain0: Chain, slots0: Slots, id: TxId, immediately: bool, block: BlockNumber, o: Outcomes,
                             staged: Staging, rest: set<Name>, chain: Chain, slots: Slots, n: Name, run: seq<Step>)
    requires Consistent(chain0, slots0, id, immediately)
    requires CommitEnds(chain0, slots0, id, block, o, Committed, staged, rest, chain, slots)
    requires n in Affected(slots0) && PrepareHonest(slots0[n].tx, o, n)
    requires ScannedBy(slots0[n], run, View(chain0[n]))
    ensures n in staged && n in chain
    ensures !immediately ==> View(chain[n]) == RowsMap(slots0[n].tx.tableScanData) - Revived(run)
    ensures immediately && slots0[n].tx.delivered + staged[n] == Issued(run) ==>
              forall k :: Lookup(View(chain[n]), k)
                          == if DroppedByReapply(run, k) then Some(LastValue(slots0[n].tx.putOperations, k))
                             else Lookup(RowsMap(slots0[n].tx.tableScanData), k)
  {
    var r := slots0[n].tx;
    assert n in staged && Prepared(r, o, n, staged[n]);
    CommitShows(chain0[n], block, id, r, staged[n]);
    if immediately {
      StageThenCommit(chain0[n], block, id, staged[n]);
      if r.delivered + staged[n] == Issued(run) {
        forall k
          ensures Lookup(View(chain[n]), k)
               == if DroppedByReapply(run, k) then Some(LastValue(r.putOperations, k))
                  else Lookup(RowsMap(r.tableScanData), k)
        {
          CommitInIssueOrder(run, View(chain0[n]), k);
        }
      }
    } else {
      BatchCommitIsOverlay(View(chain0[n]), r.putOperations, r.removeOperations);
      CommitMatchesLiveCache(run, View(chain0[n]));
    }
  }

  // What a table's prepare lost, and what it staged, next to the table.

  /** Operations that were issued and not staged would have changed nothing. */
  ghost predicate LostNothing(m: Contents, r: TxData, o: Outcomes, name: Name) {
    if r.prepareImmediately then
      forall op :: op in BatchOps(r.putOperations, r.removeOperations) && op !in Delivered(r, o, name) ==> Idle(m, op)
    else MissingIsIdle(m, r.putOperations, r.removeOperations, o.puts(name).applied, o.removes(name).applied)
  }

  /** Operations that were staged change nothing. */
  ghost predicate AddedNothing(m: Contents, r: TxData, o: Outcomes, name: Name) {
    if r.prepareImmediately then forall op :: op in Delivered(r, o, name) ==> Idle(m, op)
    else BatchIsIdle(m, if o.puts(name).applied then r.putOperations else [],
                     if o.removes(name).applied then r.removeOperations else [])
  }

  /** The table shows its pending operations. */
  ghost predicate ShowsOverlay(before: Store, after: Store, r: TxData) {
    View(after) == Overlay(View(before), r.putOperations, r.removeOperations)
  }

  ghost predicate ShowsNothing(before: Store, after: Store) {
    View(after) == View(before)
  }

  ghost predicate NoConflicts(r: TxData) {
    ConflictFree(BatchOps(r.putOperations, r.removeOperations))
  }

  lemma SameMembers(a: seq<Op<Bytes>>, b: seq<Op<Bytes>>, op: Op<Bytes>)
    requires Permutes(a, b)
    ensures op in a <==> op in b
  {
    CountPositive(a, op);
    CountPositive(b, op);
  }

  lemma DeliveredMembers(r: TxData, o: Outcomes, name: Name, ops: seq<Op<Bytes>>, op: Op<Bytes>)
    requires r.prepareImmediately && Prepared(r, o, name, ops)
    ensures op in r.delivered + ops <==> op in Delivered(r, o, name)
    ensures op in r.delivered + ops ==> op in BatchOps(r.putOperations, r.removeOperations)
  {
    SameMembers(ops, AppliedOps(r.running, WorkersOf(o, name)), op);
    CountPositive(r.delivered + ops, op);
    CountPositive(BatchOps(r.putOperations, r.removeOperations), op);
  }

  lemma WorkersStagedIff(m: Contents, r: TxData, o: Outcomes, name: Name, ops: seq<Op<Bytes>>)
    requires r.prepareImmediately && Prepared(r, o, name, ops) && NoConflicts(r)
    ensures Replay(m, r.delivered + ops) == Overlay(m, r.putOperations, r.removeOperations)
       <==> LostNothing(m, r, o, name)
    ensures Replay(m, r.delivered + ops) == m <==> AddedNothing(m, r, o, name)
  {
    var issued, arrived := BatchOps(r.putOperations, r.removeOperations), r.delivered + ops;
    forall op
      ensures op in arrived <==> op in Delivered(r, o, name)
      ensures op in arrived ==> op in issued
    {
      DeliveredMembers(r, o, name, ops, op);
    }
    BatchCommitIsOverlay(m, r.putOperations, r.removeOperations);
    PartialDeliveryIff(m, issued, arrived);
    IdleDeliveryIff(m, arrived);
  }

  lemma BatchStagedIff(m: Contents, r: TxData, o: Outcomes, name: Name, ops: seq<Op<Bytes>>)
    requires !r.prepareImmediately && Prepared(r, o, name, ops)
    ensures Replay(m, r.delivered + ops) == Overlay(m, r.putOperations, r.removeOperations)
       <==> LostNothing(m, r, o, name)
    ensures Replay(m, r.delivered + ops) == m <==> AddedNothing(m, r, o, name)
  {
    var puts := if o.puts(name).applied then r.putOperations else [];
    var removes := if o.removes(name).applied then r.removeOperations else [];
    assert r.delivered + ops == BatchOps(puts, removes)
        == StagedPart(r.putOperations, r.removeOperations, o.puts(name).applied, o.removes(name).applied);
    BatchCommitIsOverlay(m, puts, removes);
    OverlayIsIdentityIff(m, puts, removes);
    PartialBatchIff(m, r.putOperations, r.removeOperations, o.puts(name).applied, o.removes(name).applied);
  }

  /** What a commit did to one affected table. */
  ghost predicate TableCommitted(before: Store, after: Store, id: TxId, block: BlockNumber, o: Outcomes, name: Name,
                                 r: TxData, ops: seq<Op<Bytes>>) {
    && TableStorage.Valid(before) && Buffer(before, id) == r.delivered
    && Prepared(r, o, name, ops)
    && after == StoreCommit(StoreStage(before, id, ops), block, id)
  }

  lemma CommittedTable(chain0: Chain, slots0: Slots, id: TxId, immediately: bool, block: BlockNumber, o: Outcomes,
                       staged: Staging, rest: set<Name>, chain: Chain, slots: Slots, n: Name)
    requires Consistent(chain0, slots0, id, immediately)
    requires CommitEnds(chain0, slots0, id, block, o, Committed, staged, rest, chain, slots)
    requires n in Affected(slots0)
    ensures n in staged && n in chain0 && n in chain && slots0[n].tx.prepareImmediately == immediately
    ensures TableCommitted(chain0[n], chain[n], id, block, o, n, slots0[n].tx, staged[n])
  {
    assert n in staged && Prepared(slots0[n].tx, o, n, staged[n]);
  }

  /**
   * A commit that took effect gives an affected table its overlay exactly when what its prepare lost,
   * because a call was mined and reverted, would have changed nothing, and leaves it as it was exactly
   * when what its prepare staged changes nothing.
   */
  lemma CommitShowsOverlayIff(before: Store, after: Store, id: TxId, block: BlockNumber, o: Outcomes, name: Name,
                              r: TxData, ops: seq<Op<Bytes>>)
    requires TableCommitted(before, after, id, block, o, name, r, ops)
    requires r.prepareImmediately ==> NoConflicts(r)
    ensures ShowsOverlay(before, after, r) <==> LostNothing(View(before), r, o, name)
    ensures ShowsNothing(before, after) <==> AddedNothing(View(before), r, o, name)
  {
    StageThenCommit(before, block, id, ops);
    if r.prepareImmediately {
      WorkersStagedIff(View(before), r, o, name, ops);
    } else {
      BatchStagedIff(View(before), r, o, name, ops);
    }
  }

  /** Every affected table shows its pending operations. */
  ghost predicate ShowsAll(chain0: Chain, slots0: Slots, chain: Chain) {
    forall n :: n in Affected(slots0) ==> n in chain0 && n in chain && ShowsOverlay(chain0[n], chain[n], slots0[n].tx)
  }

  /** No affected table shows any change. */
  ghost predicate ShowsNone(chain0: Chain, slots0: Slots, chain: Chain) {
    forall n :: n in Affected(slots0) ==> n in chain0 && n in chain && ShowsNothing(chain0[n], chain[n])
  }

  /** Every table of a commit that took effect, as it was staged and committed. */
  ghost predicate AllCommitted(chain0: Chain, slots0: Slots, id: TxId, block: BlockNumber, o: Outcomes, staged: Staging,
                               chain: Chain) {
    && staged.Keys == Affected(slots0)
    && forall n :: n in staged ==>
         n in chain0 && n in chain && TableCommitted(chain0[n], chain[n], id, block, o, n, slots0[n].tx, staged[n])
  }

  lemma CommittedKeys(chain0: Chain, slots0: Slots, id: TxId, block: BlockNumber, o: Outcomes, staged: Staging,
                      rest: set<Name>, chain: Chain, slots: Slots)
    requires CommitEnds(chain0, slots0, id, block, o, Committed, staged, rest, chain, slots)
    ensures staged.Keys == Affected(slots0)
  {
  }

  lemma CommittedTables(chain0: Chain, slots0: Slots, id: TxId, immediately: bool, block: BlockNumber, o: Outcomes,
                        staged: Staging, rest: set<Name>, chain: Chain, slots: Slots)
    requires Consistent(chain0, slots0, id, immediately)
    requires CommitEnds(chain0, slots0, id, block, o, Committed, staged, rest, chain, slots)
    ensures AllCommitted(chain0, slots0, id, block, o, staged, chain)
    ensures Affected(slots0) <= chain0.Keys
  {
    CommittedKeys(chain0, slots0, id, block, o, staged, rest, chain, slots);
    forall n | n in staged
      ensures n in chain0 && n in chain
      ensures TableCommitted(chain0[n], chain[n], id, block, o, n, slots0[n].tx, staged[n])
    {
      CommittedTable(chain0, slots0, id, immediately, block, o, staged, rest, chain, slots, n);
    }
  }

  lemma AllShowIff(chain0: Chain, slots0: Slots, id: TxId, block: BlockNumber, o: Outcomes, staged: Staging,
                   chain: Chain)
    requires AllCommitted(chain0, slots0, id, block, o, staged, chain)
    requires forall n :: n in Affected(slots0) && slots0[n].tx.prepareImmediately ==> NoConflicts(slots0[n].tx)
    ensures ShowsAll(chain0, slots0, chain)
       <==> forall n :: n in Affected(slots0) ==> LostNothing(View(chain0[n]), slots0[n].tx, o, n)
  {
    forall n | n in staged
      ensures ShowsOverlay(chain0[n], chain[n], slots0[n].tx) <==> LostNothing(View(chain0[n]), slots0[n].tx, o, n)
    {
      CommitShowsOverlayIff(chain0[n], chain[n], id, block, o, n, slots0[n].tx, staged[n]);
    }
  }

  lemma NoneShowsIff(chain0: Chain, slots0: Slots, id: TxId, block: BlockNumber, o: Outcomes, staged: Staging,
                     chain: Chain)
    requires AllCommitted(chain0, slots0, id, block, o, staged, chain)
    requires forall n :: n in Affected(slots0) && slots0[n].tx.prepareImmediately ==> NoConflicts(slots0[n].tx)
    ensures ShowsNone(chain0, slots0, chain)
       <==> forall n :: n in Affected(slots0) ==> AddedNothing(View(chain0[n]), slots0[n].tx, o, n)
  {
    forall n | n in staged
      ensures ShowsNothing(chain0[n], chain[n]) <==> AddedNothing(View(chain0[n]), slots0[n].tx, o, n)
    {
      CommitShowsOverlayIff(chain0[n], chain[n], id, block, o, n, slots0[n].tx, staged[n]);
    }
  }

  /**
   * With or without honest calls: a commit that took effect is all or nothing exactly when no affected
   * table lost an operation that matters, or none has staged one.
   */
  lemma AllOrNothingIff(chain0: Chain, slots0: Slots, id: TxId, immediately: bool, block: BlockNumber, o: Outcomes,
                        staged: Staging, rest: set<Name>, chain: Chain, slots: Slots)
    requires Consistent(chain0, slots0, id, immediately)
    requires CommitEnds(chain0, slots0, id, block, o, Committed, staged, rest, chain, slots)
    requires immediately ==> forall n :: n in Affected(slots0) ==> NoConflicts(slots0[n].tx)
    ensures Affected(slots0) <= chain0.Keys
    ensures ShowsAll(chain0, slots0, chain) || ShowsNone(chain0, slots0, chain)
       <==> || (forall n :: n in Affected(slots0) ==> LostNothing(View(chain0[n]), slots0[n].tx, o, n))
            || (forall n :: n in Affected(slots0) ==> AddedNothing(View(chain0[n]), slots0[n].tx, o, n))
    ensures forall n :: n in chain0 && n !in Affected(slots0) ==> n in chain && chain[n] == chain0[n]
  {
    forall n | n in Affected(slots0)
      ensures slots0[n].tx.prepareImmediately == immediately
    {
      assert n in slots0;
    }
    CommittedTables(chain0, slots0, id, immediately, block, o, staged, rest, chain, slots);
    AllShowIff(chain0, slots0, id, block, o, staged, chain);
    NoneShowsIff(chain0, slots0, id, block, o, staged, chain);
  }

  ghost predicate ArrivedLikeBatch(before: Store, r: TxData, ops: seq<Op<Bytes>>) {
    LastWritesAgree(View(before), BatchOps(r.putOperations, r.removeOperations), r.delivered + ops)
  }

  ghost predicate ArrivedIdle(before: Store, r: TxData, ops: seq<Op<Bytes>>) {
    LastWritesIdle(View(before), r.delivered + ops)
  }

  ghost predicate AllArrivedLikeBatch(chain0: Chain, slots0: Slots, staged: Staging) {
    forall n :: n in staged ==> n in chain0 && n in slots0 && ArrivedLikeBatch(chain0[n], slots0[n].tx, staged[n])
  }

  ghost predicate AllArrivedIdle(chain0: Chain, slots0: Slots, staged: Staging) {
    forall n :: n in staged ==> n in chain0 && n in slots0 && ArrivedIdle(chain0[n], slots0[n].tx, staged[n])
  }

  lemma TableByArrivalIff(before: Store, after: Store, id: TxId, block: BlockNumber, o: Outcomes, name: Name,
                          r: TxData, ops: seq<Op<Bytes>>)
    requires TableCommitted(before, after, id, block, o, name, r, ops)
    ensures ShowsOverlay(before, after, r) <==> ArrivedLikeBatch(before, r, ops)
    ensures ShowsNothing(before, after) <==> ArrivedIdle(before, r, ops)
  {
    var issued := BatchOps(r.putOperations, r.removeOperations);
    forall op | op in r.delivered + ops
      ensures op in issued
    {
      if r.prepareImmediately {
        DeliveredMembers(r, o, name, ops, op);
      }
    }
    StageThenCommit(before, block, id, ops);
    BatchCommitIsOverlay(View(before), r.putOperations, r.removeOperations);
    ArrivalIff(View(before), issued, r.delivered + ops);
  }

  lemma AllShowByArrivalIff(chain0: Chain, slots0: Slots, id: TxId, block: BlockNumber, o: Outcomes, staged: Staging,
                            chain: Chain)
    requires AllCommitted(chain0, slots0, id, block, o, staged, chain)
    ensures ShowsAll(chain0, slots0, chain) <==> AllArrivedLikeBatch(chain0, slots0, staged)
  {
    forall n | n in staged
      ensures ShowsOverlay(chain0[n], chain[n], slots0[n].tx) <==> ArrivedLikeBatch(chain0[n], slots0[n].tx, staged[n])
    {
      TableByArrivalIff(chain0[n], chain[n], id, block, o, n, slots0[n].tx, staged[n]);
    }
  }

  lemma NoneShowsByArrivalIff(chain0: Chain, slots0: Slots, id: TxId, block: BlockNumber, o: Outcomes, staged: Staging,
                              chain: Chain)
    requires AllCommitted(chain0, slots0, id, block, o, staged, chain)
    ensures ShowsNone(chain0, slots0, chain) <==> AllArrivedIdle(chain0, slots0, staged)
  {
    forall n | n in staged
      ensures ShowsNothing(chain0[n], chain[n]) <==> ArrivedIdle(chain0[n], slots0[n].tx, staged[n])
    {
      TableByArrivalIff(chain0[n], chain[n], id, block, o, n, slots0[n].tx, staged[n]);
    }
  }

  /**
   * With conflicting operations too, where the order of arrival matters: all or nothing exactly when in
   * each affected table the last operation to arrive at each key does what the last one of the batch
   * does, or in each leaves the key as it is.
   */
  lemma AllOrNothingByArrivalIff(chain0: Chain, slots0: Slots, id: TxId, immediately: bool, block: BlockNumber,
                                 o: Outcomes, staged: Staging, rest: set<Name>, chain: Chain, slots: Slots)
    requires Consistent(chain0, slots0, id, immediately)
    requires CommitEnds(chain0, slots0, id, block, o, Committed, staged, rest, chain, slots)
    ensures staged.Keys == Affected(slots0)
    ensures ShowsAll(chain0, slots0, chain) || ShowsNone(chain0, slots0, chain)
       <==> AllArrivedLikeBatch(chain0, slots0, staged) || AllArrivedIdle(chain0, slots0, staged)
  {
    CommittedTables(chain0, slots0, id, immediately, block, o, staged, rest, chain, slots);
    AllShowByArrivalIff(chain0, slots0, id, block, o, staged, chain);
    NoneShowsByArrivalIff(chain0, slots0, id, block, o, staged, chain);
  }

  lemma RevertedTable(before: Store, after: Store, id: TxId, block: BlockNumber, o: Outcomes, name: Name,
                      r: TxData, ops: seq<Op<Bytes>>)
    requires TableCommitted(before, after, id, block, o, name, r, ops) && !r.prepareImmediately
    requires !BatchIsIdle(View(before), r.putOperations, r.removeOperations)
    requires o.puts(name).applied == o.removes(name).applied
    ensures if o.puts(name).applied then ShowsOverlay(before, after, r) && !ShowsNothing(before, after)
            else ShowsNothing(before, after) && !ShowsOverlay(before, after, r)
  {
    CommitShowsOverlayIff(before, after, id, block, o, name, r, ops);
    OverlayIsIdentityIff(View(before), r.putOperations, r.removeOperations);
  }

  /**
   * How a commit tears, in batch mode: the prepare calls of table n were mined and reverted, which the
   * connector reports as success, and those of table m were not. The commit changes m and loses n's
   * operations, unless they would have changed nothing.
   */
  lemma RevertedPrepareTearsCommit(chain0: Chain, slots0: Slots, id: TxId, block: BlockNumber, o: Outcomes,
                                   staged: Staging, rest: set<Name>, chain: Chain, slots: Slots, n: Name, m: Name)
    requires Consistent(chain0, slots0, id, false)
    requires CommitEnds(chain0, slots0, id, block, o, Committed, staged, rest, chain, slots)
    requires n in Affected(slots0) && !o.puts(n).applied && !o.removes(n).applied
    requires !BatchIsIdle(View(chain0[n]), slots0[n].tx.putOperations, slots0[n].tx.removeOperations)
    requires m in Affected(slots0) && o.puts(m).applied && o.removes(m).applied
    requires !BatchIsIdle(View(chain0[m]), slots0[m].tx.putOperations, slots0[m].tx.removeOperations)
    ensures n in chain && ShowsNothing(chain0[n], chain[n]) && !ShowsOverlay(chain0[n], chain[n], slots0[n].tx)
    ensures m in chain && ShowsOverlay(chain0[m], chain[m], slots0[m].tx) && !ShowsNothing(chain0[m], chain[m])
    ensures !ShowsAll(chain0, slots0, chain) && !ShowsNone(chain0, slots0, chain)
  {
    CommittedTable(chain0, slots0, id, false, block, o, staged, rest, chain, slots, n);
    CommittedTable(chain0, slots0, id, false, block, o, staged, rest, chain, slots, m);
    RevertedTable(chain0[n], chain[n], id, block, o, n, slots0[n].tx, staged[n]);
    RevertedTable(chain0[m], chain[m], id, block, o, m, slots0[m].tx, staged[m]);
  }

  /**
   * A transaction that wrote to ten tables or more never takes effect, although it returns 0 when
   * all its calls do.
   */
  lemma TenTablesNeverCommit(chain0: Chain, slots0: Slots, id: TxId, block: BlockNumber, o: Outcomes,
                             staged: Staging, rest: set<Name>, chain: Chain, slots: Slots)
    requires |Affected(slots0)| >= 10
    requires CommitEnds(chain0, slots0, id, block, o, EndingOfCommit(true, slots0, o), staged, rest, chain, slots)
    ensures SameTables(chain0, chain)
    ensures AllReported(slots0, o) && o.commit.reported ==> ReturnCode(EndingOfCommit(true, slots0, o), o) == 0
  {
    UncommittedShowsNothing(chain0, slots0, id, block, o, EndingOfCommit(true, slots0, o), staged, rest, chain, slots);
  }

  /** In immediate mode without conflicting operations, arrival order does not matter. */
  lemma ConflictFreeShowsOverlay(before: Store, after: Store, r: TxData, ops: seq<Op<Bytes>>)
    requires ShowsCommit(before, after, r, ops)
    requires ConflictFree(BatchOps(r.putOperations, r.removeOperations))
    ensures View(after) == Overlay(View(before), r.putOperations, r.removeOperations)
  {
    var batch := BatchOps(r.putOperations, r.removeOperations);
    ConflictFreeOrderIndependent(View(before), batch, r.delivered + ops);
    BatchCommitIsOverlay(View(before), r.putOperations, r.removeOperations);
  }

  // ---------------------------------------------------------------- what a commit leaves behind

  lemma StagingIsGone(s: Store, block: BlockNumber, id: TxId, ops: seq<Op<Bytes>>)
    ensures Buffer(StoreClean(StoreStage(s, id, ops), id), id) == []
    ensures Buffer(StoreCommit(StoreStage(s, id, ops), block, id), id) == []
  {
  }

  /** What a store's buffer for the id holds when the commit is over. */
  lemma BufferAfterCommit(chain0: Chain, slots0: Slots, id: TxId, immediately: bool, block: BlockNumber, o: Outcomes,
                          ending: Ending, staged: Staging, rest: set<Name>, chain: Chain, slots: Slots, n: Name)
    requires Consistent(chain0, slots0, id, immediately) && slots0 != map[] && n in chain0
    requires CommitEnds(chain0, slots0, id, block, o, ending, staged, rest, chain, slots)
    ensures n in chain
    ensures Buffer(chain[n], id)
         == if n !in staged then (if n in slots0 then slots0[n].tx.delivered else [])
            else if ending == Committed || (ending == PrepareFailed && o.clears(n).applied) then []
            else slots0[n].tx.delivered + staged[n]
    ensures n in slots0 && n !in Affected(slots0) ==> slots0[n].tx.delivered == []
  {
    if n in slots0 {
      ReadOnlyMeansNoOperations(slots0[n].tx);
    }
    if n in staged {
      assert n in slots0 && Buffer(chain0[n], id) == slots0[n].tx.delivered;
      StagedBuffer(chain0[n], id, staged[n]);
      StagingIsGone(chain0[n], block, id, staged[n]);
    }
  }

  lemma SameKeysAfterCommit(chain0: Chain, slots0: Slots, id: TxId, block: BlockNumber, o: Outcomes, ending: Ending,
                            staged: Staging, rest: set<Name>, chain: Chain, slots: Slots)
    requires CommitEnds(chain0, slots0, id, block, o, ending, staged, rest, chain, slots)
    ensures chain.Keys == chain0.Keys
    ensures ending == Committed || ending == CommitFailed || ending == NothingToCommit ==> slots == map[]
    ensures forall n :: n in slots <==> n in slots0 && n in rest
  {
  }

  /** A commit that took effect, or had nothing to do, leaves no transaction and no staged operation behind. */
  lemma NoStagingAfterCommit(chain0: Chain, slots0: Slots, id: TxId, immediately: bool, block: BlockNumber, o: Outcomes,
                             ending: Ending, staged: Staging, rest: set<Name>, chain: Chain, slots: Slots)
    requires Consistent(chain0, slots0, id, immediately) && slots0 != map[]
    requires CommitEnds(chain0, slots0, id, block, o, ending, staged, rest, chain, slots)
    requires ending == Committed || ending == NothingToCommit
    ensures slots == map[] && NoStaging(chain, id)
  {
    forall n | n in chain0
      ensures n in chain && Buffer(chain[n], id) == []
    {
      BufferAfterCommit(chain0, slots0, id, immediately, block, o, ending, staged, rest, chain, slots, n);
    }
    SameKeysAfterCommit(chain0, slots0, id, block, o, ending, staged, rest, chain, slots);
  }

  /** After a commit call that failed, the buffer of a table that was prepared holds what its prepare staged. */
  lemma BufferAfterFailedCommit(chain0: Chain, slots0: Slots, id: TxId, immediately: bool, block: BlockNumber,
                                o: Outcomes, staged: Staging, rest: set<Name>, chain: Chain, slots: Slots, n: Name)
    requires Consistent(chain0, slots0, id, immediately) && n in chain0
    requires CommitEnds(chain0, slots0, id, block, o, CommitFailed, staged, rest, chain, slots)
    requires Affected(slots0) != {}
    ensures n in chain
    ensures Buffer(chain[n], id) != [] <==> n in Affected(slots0) && StagesSomething(slots0[n].tx, o, n)
  {
    BufferAfterCommit(chain0, slots0, id, immediately, block, o, CommitFailed, staged, rest, chain, slots, n);
    if n in staged {
      StagesSomethingIff(slots0[n].tx, o, n, staged[n]);
    }
  }

  /**
   * A commit call that did not take effect leaves the slots empty, so no rollback will clean up. The
   * buffers are empty exactly if no call before it staged anything; with honest calls they never are.
   */
  lemma StagingAfterFailedCommit(chain0: Chain, slots0: Slots, id: TxId, immediately: bool, block: BlockNumber,
                                 o: Outcomes, staged: Staging, rest: set<Name>, chain: Chain, slots: Slots)
    requires Consistent(chain0, slots0, id, immediately)
    requires CommitEnds(chain0, slots0, id, block, o, CommitFailed, staged, rest, chain, slots)
    requires Affected(slots0) != {}
    ensures slots == map[]
    ensures NoStaging(chain, id) <==> forall n :: n in Affected(slots0) ==> !StagesSomething(slots0[n].tx, o, n)
    ensures PreparesHonest(slots0, o) ==> !NoStaging(chain, id)
  {
    forall n | n in chain0
      ensures n in chain
      ensures Buffer(chain[n], id) != [] <==> n in Affected(slots0) && StagesSomething(slots0[n].tx, o, n)
    {
      BufferAfterFailedCommit(chain0, slots0, id, immediately, block, o, staged, rest, chain, slots, n);
    }
    SameKeysAfterCommit(chain0, slots0, id, block, o, CommitFailed, staged, rest, chain, slots);
    var n :| n in Affected(slots0);
    assert n in staged && n in chain0;
    if PreparesHonest(slots0, o) {
      HonestPrepareStages(slots0[n].tx, o, n, staged[n]);
    }
  }

  lemma RemainingValid(slots: Slots, rest: set<Name>, id: TxId, immediately: bool)
    requires SlotsValid(slots, id, immediately)
    ensures SlotsValid(Remaining(slots, rest), id, immediately)
  {
  }

  /** After a failed prepare that could clean up, what is left is as if the prepared tables had not taken part. */
  lemma ConsistentAfterFailedPrepare(chain0: Chain, slots0: Slots, id: TxId, immediately: bool, block: BlockNumber,
                                     o: Outcomes, staged: Staging, rest: set<Name>, chain: Chain, slots: Slots)
    requires Consistent(chain0, slots0, id, immediately) && slots0 != map[]
    requires CommitEnds(chain0, slots0, id, block, o, PrepareFailed, staged, rest, chain, slots)
    requires AllCleared(o)
    ensures Consistent(chain, slots, id, immediately) && BuffersMatch(chain, id, slots)
  {
    RemainingValid(slots0, rest, id, immediately);
    UncommittedShowsNothing(chain0, slots0, id, block, o, PrepareFailed, staged, rest, chain, slots);
    SameKeysAfterCommit(chain0, slots0, id, block, o, PrepareFailed, staged, rest, chain, slots);
    forall n | n in chain0
      ensures Buffer(chain[n], id) == if n in slots then slots[n].tx.delivered else []
    {
      BufferAfterCommit(chain0, slots0, id, immediately, block, o, PrepareFailed, staged, rest, chain, slots, n);
    }
    SameTablesKeepValid(chain0, chain);
  }

  lemma CommittedStoreValid(chain: Chain, id: TxId, block: BlockNumber, staged: Staging, n: Name)
    requires n in chain && TableStorage.Valid(chain[n])
    ensures TableStorage.Valid(CommittedChain(StagedChain(chain, id, staged), block, id, staged.Keys)[n])
  {
    if n in staged {
      StageThenCommit(chain[n], block, id, staged[n]);
    }
  }

  /** A commit leaves a session that can go on, unless a failed prepare could not clean up. */
  lemma ConsistentAfterCommit(chain0: Chain, slots0: Slots, id: TxId, immediately: bool, block: BlockNumber,
                              o: Outcomes, ending: Ending, staged: Staging, rest: set<Name>, chain: Chain, slots: Slots)
    requires Consistent(chain0, slots0, id, immediately)
    requires CommitEnds(chain0, slots0, id, block, o, ending, staged, rest, chain, slots)
    requires ending == PrepareFailed ==> AllCleared(o) && slots0 != map[]
    ensures Consistent(chain, slots, id, immediately) && chain.Keys == chain0.Keys
  {
    SameKeysAfterCommit(chain0, slots0, id, block, o, ending, staged, rest, chain, slots);
    match ending
    case PrepareFailed =>
      ConsistentAfterFailedPrepare(chain0, slots0, id, immediately, block, o, staged, rest, chain, slots);
    case Refused =>
      NothingStaged(chain0, slots0, id);
    case Committed =>
      forall n | n in chain
        ensures TableStorage.Valid(chain[n])
      {
        CommittedStoreValid(chain0, id, block, staged, n);
      }
    case _ =>
      UncommittedShowsNothing(chain0, slots0, id, block, o, ending, staged, rest, chain, slots);
      SameTablesKeepValid(chain0, chain);
  }

  lemma RolledBackKeepsTables(chain0: Chain, chain: Chain, id: TxId, immediately: bool, names: set<Name>, o: Outcomes)
    requires AllRolledBack(chain0, chain, id, immediately, names, o)
    ensures SameTables(chain0, chain)
  {
    forall n | n in chain0
      ensures chain[n].keyList == chain0[n].keyList && chain[n].data == chain0[n].data
    {
      if n in names {
        assert StoreClean(chain[n], id) == StoreClean(chain0[n], id);
      }
    }
  }

  /** A rollback leaves no staged operation behind: in immediate mode if its cleanup calls take effect. */
  lemma NoStagingAfterRollback(chain0: Chain, slots0: Slots, id: TxId, immediately: bool, o: Outcomes, chain: Chain)
    requires Consistent(chain0, slots0, id, immediately) && BuffersMatch(chain0, id, slots0)
    requires AllRolledBack(chain0, chain, id, immediately, slots0.Keys, o)
    requires immediately ==> AllCleared(o)
    ensures NoStaging(chain, id)
  {
    forall n | n in chain
      ensures Buffer(chain[n], id) == []
    {
      assert Buffer(chain0[n], id) == if n in slots0 then slots0[n].tx.delivered else [];
    }
  }
}
