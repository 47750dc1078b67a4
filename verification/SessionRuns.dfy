/**
 * Sessions from their first step to the commit or the rollback. What such a session writes and how its
 * calls end is read off its steps; the theorems say what the tables show when it is over.
 */
module SessionRuns {
  import opened Types
  import opened TableSpec
  import opened TableStorage
  import opened TxSpec
  import opened TableTx
  import opened SessionSpec
  import S = Session

  /** A handler call on a table, or the end of one of its workers, whose call has an outcome. */
  datatype SessionStep =
    | Touch(table: Name)
    | Put(table: Name, key: Bytes, value: Bytes)
    | Remove(table: Name, key: Bytes)
    | Finish(table: Name, rpc: Rpc)

  // ---------------------------------------------------------------- what the steps tell

  predicate Writes(step: SessionStep) {
    step.Put? || step.Remove?
  }

  function PutsOf(steps: seq<SessionStep>, n: Name): seq<Row> {
    if steps == [] then []
    else
      var earlier, last := PutsOf(steps[..|steps| - 1], n), steps[|steps| - 1];
      if last.Put? && last.table == n then earlier + [Row(last.key, last.value)] else earlier
  }

  function RemovesOf(steps: seq<SessionStep>, n: Name): seq<Bytes> {
    if steps == [] then []
    else
      var earlier, last := RemovesOf(steps[..|steps| - 1], n), steps[|steps| - 1];
      if last.Remove? && last.table == n then earlier + [last.key] else earlier
  }

  /** In immediate mode each write starts a worker. */
  function Running(steps: seq<SessionStep>, n: Name): nat {
    if steps == [] then 0
    else
      var before, last := Running(steps[..|steps| - 1], n), steps[|steps| - 1];
      if last.table != n then before
      else if Writes(last) then before + 1
      else if last.Finish? && before > 0 then before - 1 else before
  }

  /** How the calls of the workers that have finished ended. */
  function Finished(steps: seq<SessionStep>, n: Name): seq<Rpc> {
    if steps == [] then []
    else
      var before, last := steps[..|steps| - 1], steps[|steps| - 1];
      if last.Finish? && last.table == n && Running(before, n) > 0 then Finished(before, n) + [last.rpc]
      else Finished(before, n)
  }

  /** The tables that the session writes. */
  function Written(steps: seq<SessionStep>): set<Name> {
    set i | 0 <= i < |steps| && Writes(steps[i]) :: steps[i].table
  }

  /** Every call that the commit of a written table needs returned 0, those of finished workers included. */
  ghost predicate CallsReported(steps: seq<SessionStep>, n: Name, immediately: bool, o: Outcomes) {
    if immediately then
      && (forall i :: 0 <= i < |Finished(steps, n)| ==> Finished(steps, n)[i].reported)
      && (forall i :: 0 <= i < Running(steps, n) ==> o.workers(n, i).reported)
    else (PutsOf(steps, n) != [] ==> o.puts(n).reported) && (RemovesOf(steps, n) != [] ==> o.removes(n).reported)
  }

  /** Each of these calls took effect. */
  ghost predicate CallsApplied(steps: seq<SessionStep>, n: Name, immediately: bool, o: Outcomes) {
    if immediately then
      && (forall i :: 0 <= i < |Finished(steps, n)| ==> Finished(steps, n)[i].applied)
      && (forall i :: 0 <= i < Running(steps, n) ==> o.workers(n, i).applied)
    else (PutsOf(steps, n) != [] ==> o.puts(n).applied) && (RemovesOf(steps, n) != [] ==> o.removes(n).applied)
  }

  ghost predicate AllCallsReported(steps: seq<SessionStep>, immediately: bool, o: Outcomes) {
    forall n :: n in Written(steps) ==> CallsReported(steps, n, immediately, o)
  }

  /** None of these calls took effect. */
  ghost predicate CallsReverted(steps: seq<SessionStep>, n: Name, immediately: bool, o: Outcomes) {
    if immediately then
      && (forall i :: 0 <= i < |Finished(steps, n)| ==> !Finished(steps, n)[i].applied)
      && (forall i :: 0 <= i < Running(steps, n) ==> !o.workers(n, i).applied)
    else (PutsOf(steps, n) != [] ==> !o.puts(n).applied) && (RemovesOf(steps, n) != [] ==> !o.removes(n).applied)
  }

  /** The table shows the session's puts and removes: in immediate mode if none of them conflict. */
  ghost predicate ShowsSteps(before: Contents, after: Contents, steps: seq<SessionStep>, n: Name, immediately: bool) {
    (immediately ==> ConflictFree(BatchOps(PutsOf(steps, n), RemovesOf(steps, n)))) ==>
      after == Overlay(before, PutsOf(steps, n), RemovesOf(steps, n))
  }

  /**
   * A written table shows what was written if its calls took effect, and nothing if none of them did; every
   * other table is as it was.
   */
  ghost predicate ShowsTable(before: Contents, after: Contents, steps: seq<SessionStep>, n: Name, immediately: bool,
                             o: Outcomes) {
    if n in Written(steps) then
      && (CallsApplied(steps, n, immediately, o) ==> ShowsSteps(before, after, steps, n, immediately))
      && (CallsReverted(steps, n, immediately, o) ==> after == before)
    else after == before
  }

  ghost predicate ShowsSession(before: Chain, after: Chain, steps: seq<SessionStep>, immediately: bool, o: Outcomes) {
    && before.Keys == after.Keys
    && forall n :: n in before ==> ShowsTable(View(before[n]), View(after[n]), steps, n, immediately, o)
  }

  // ---------------------------------------------------------------- the session follows its steps

  ghost predicate RecordFollows(r: TxData, immediately: bool, steps: seq<SessionStep>, n: Name) {
    && r.putOperations == PutsOf(steps, n) && r.removeOperations == RemovesOf(steps, n) && !r.pendingRemoveActivated
    && (immediately ==>
          && |r.running| == Running(steps, n)
          && (r.commitPrepareSuccess <==> forall i :: 0 <= i < |Finished(steps, n)| ==> Finished(steps, n)[i].reported)
          && ((forall i :: 0 <= i < |Finished(steps, n)| ==> Finished(steps, n)[i].applied) ==> r.honest)
          && ((forall i :: 0 <= i < |Finished(steps, n)| ==> !Finished(steps, n)[i].applied) ==> r.delivered == []))
  }

  /** The steps neither write the table nor finish a worker of it. */
  ghost predicate Untouched(steps: seq<SessionStep>, n: Name) {
    PutsOf(steps, n) == [] && RemovesOf(steps, n) == [] && Running(steps, n) == 0 && Finished(steps, n) == []
  }

  ghost predicate TableFollows(slots: Slots, immediately: bool, steps: seq<SessionStep>, n: Name) {
    if n in slots then RecordFollows(slots[n].tx, immediately, steps, n) else Untouched(steps, n)
  }

  ghost function Deliveries(slots: Slots): Staging {
    map n | n in slots :: slots[n].tx.delivered
  }

  /** The session's transactions are those that the steps make, and the chain differs by what was delivered. */
  ghost predicate Follows(now: S.State, immediately: bool, chain0: Chain, id: TxId, steps: seq<SessionStep>) {
    && now.id == id && !now.rollbackRequested
    && now.chain == StagedChain(chain0, id, Deliveries(now.slots))
    && forall n :: TableFollows(now.slots, immediately, steps, n)
  }

  lemma WrittenAppend(steps: seq<SessionStep>, step: SessionStep)
    ensures Written(steps + [step]) == Written(steps) + if Writes(step) then {step.table} else {}
  {
    var more := steps + [step];
    assert forall i :: 0 <= i < |steps| ==> more[i] == steps[i];
    assert more[|steps|] == step;
    if Writes(step) {
      assert step.table in Written(more);
    }
    forall n | n in Written(steps)
      ensures n in Written(more)
    {
      var i :| 0 <= i < |steps| && Writes(steps[i]) && steps[i].table == n;
      assert Writes(more[i]) && more[i].table == n;
    }
  }

  /** A table is written exactly if it has puts or removes. */
  lemma {:induction false} WrittenIff(steps: seq<SessionStep>, n: Name)
    ensures n in Written(steps) <==> PutsOf(steps, n) != [] || RemovesOf(steps, n) != []
  {
    if steps != [] {
      var front, last := steps[..|steps| - 1], steps[|steps| - 1];
      assert steps == front + [last];
      WrittenIff(front, n);
      WrittenAppend(front, last);
    }
  }

  lemma OneStep(steps: seq<SessionStep>, step: SessionStep, n: Name)
    ensures var more := steps + [step];
            && PutsOf(more, n)
               == (if step.Put? && step.table == n then PutsOf(steps, n) + [Row(step.key, step.value)]
                   else PutsOf(steps, n))
            && RemovesOf(more, n)
               == (if step.Remove? && step.table == n then RemovesOf(steps, n) + [step.key] else RemovesOf(steps, n))
            && Finished(more, n)
               == (if step.Finish? && step.table == n && Running(steps, n) > 0 then Finished(steps, n) + [step.rpc]
                   else Finished(steps, n))
            && Running(more, n)
               == if step.table != n then Running(steps, n)
                  else if Writes(step) then Running(steps, n) + 1
                  else if step.Finish? && Running(steps, n) > 0 then Running(steps, n) - 1 else Running(steps, n)
  {
    assert (steps + [step])[..|steps|] == steps;
  }

  // ---------------------------------------------------------------- each step keeps this

  /** A step that changed one table's transaction. */
  lemma SlotStepFollows(before: S.State, after: S.State, immediately: bool, chain0: Chain, id: TxId,
                        steps: seq<SessionStep>, step: SessionStep)
    requires Follows(before, immediately, chain0, id, steps)
    requires S.OnlySlot(before, after.(chain := before.chain), step.table)
    requires after.chain == StagedChain(chain0, id, Deliveries(after.slots))
    requires RecordFollows(after.slots[step.table].tx, immediately, steps + [step], step.table)
    ensures Follows(after, immediately, chain0, id, steps + [step])
  {
    forall n
      ensures TableFollows(after.slots, immediately, steps + [step], n)
    {
      assert TableFollows(before.slots, immediately, steps, n);
      OneStep(steps, step, n);
    }
  }

  /** A step that changed nothing. */
  lemma IdleStepFollows(now: S.State, immediately: bool, chain0: Chain, id: TxId, steps: seq<SessionStep>,
                        step: SessionStep)
    requires Follows(now, immediately, chain0, id, steps) && !Writes(step)
    requires step.Finish? && immediately && step.table in now.slots ==> now.slots[step.table].tx.running == []
    ensures Follows(now, immediately, chain0, id, steps + [step])
  {
    forall n
      ensures TableFollows(now.slots, immediately, steps + [step], n)
    {
      assert TableFollows(now.slots, immediately, steps, n);
      OneStep(steps, step, n);
    }
  }

  lemma StartedFollows(before: S.State, after: S.State, immediately: bool, chain0: Chain, id: TxId,
                       steps: seq<SessionStep>, name: Name)
    requires Follows(before, immediately, chain0, id, steps) && name !in before.slots
    requires after == before.(slots := before.slots[name := Slot(NewRecord(id, immediately))])
    ensures Follows(after, immediately, chain0, id, steps)
  {
    assert StagedChain(chain0, id, Deliveries(after.slots)) == StagedChain(chain0, id, Deliveries(before.slots));
    forall n
      ensures TableFollows(after.slots, immediately, steps, n)
    {
      assert TableFollows(before.slots, immediately, steps, n);
    }
  }

  lemma WriteRecorded(before: TxData, after: TxData, immediately: bool, steps: seq<SessionStep>, step: SessionStep)
    requires RecordFollows(before, immediately, steps, step.table) && before.prepareImmediately == immediately
    requires SameStaging(before, after)
    requires match step
             case Put(_, k, v) =>
               StateOf(after) == TxPut(StateOf(before), k, v) && StartedOne(before, after, PutOp(k, v))
             case Remove(_, k) =>
               StateOf(after) == TxRemove(StateOf(before), k, true) && StartedOne(before, after, RemoveOp(k))
             case _ => false
    ensures RecordFollows(after, immediately, steps + [step], step.table)
  {
    OneStep(steps, step, step.table);
    assert after.putOperations == StateOf(after).puts && after.removeOperations == StateOf(after).removes;
    assert after.pendingRemoveActivated == StateOf(after).scanning;
  }

  lemma FinishRecorded(before: TxData, after: TxData, immediately: bool, steps: seq<SessionStep>, n: Name,
                       op: Op<Bytes>, rpc: Rpc)
    requires RecordFollows(before, immediately, steps, n) && before.running != []
    requires FinishedOne(before, after, op, rpc)
    ensures RecordFollows(after, immediately, steps + [Finish(n, rpc)], n)
  {
    OneStep(steps, Finish(n, rpc), n);
    if immediately {
      var earlier, now := Finished(steps, n), Finished(steps + [Finish(n, rpc)], n);
      assert now == earlier + [rpc];
      assert now[|earlier|] == rpc;
      assert forall i :: 0 <= i < |earlier| ==> now[i] == earlier[i];
    }
  }

  lemma SameDeliveries(before: Slots, after: Slots, name: Name)
    requires name in before && name in after && after == before[name := after[name]]
    requires after[name].tx.delivered == before[name].tx.delivered
    ensures Deliveries(after) == Deliveries(before)
  {
  }

  lemma DeliveredOneMore(chain0: Chain, id: TxId, before: Slots, after: Slots, name: Name, ops: seq<Op<Bytes>>)
    requires name in before && name in after && after == before[name := after[name]] && name in chain0
    requires after[name].tx.delivered == before[name].tx.delivered + ops
    ensures name in StagedChain(chain0, id, Deliveries(before))
    ensures var chain := StagedChain(chain0, id, Deliveries(before));
            StagedChain(chain0, id, Deliveries(after)) == chain[name := StoreStage(chain[name], id, ops)]
  {
    StageTwice(chain0[name], id, before[name].tx.delivered, ops);
  }

  // ---------------------------------------------------------------- running a session

  /** The session has taken the steps. */
  ghost predicate Took(s: S.Session, chain0: Chain, id: TxId, steps: seq<SessionStep>)
    reads s
  {
    s.Valid() && Follows(s.now, s.prepareImmediately, chain0, id, steps) && id != NilId() && NoStaging(chain0, id)
  }

  method Start(s: S.Session, name: Name, newId: TxId, ghost chain0: Chain, ghost steps: seq<SessionStep>)
    requires Took(s, chain0, newId, steps) && name in chain0
    modifies s
    ensures Took(s, chain0, newId, steps) && name in s.now.slots
  {
    NothingStaged(chain0, s.now.slots, newId);
    assert s.now.slots == map[] ==> Deliveries(s.now.slots) == map[];
    ghost var before := s.now;
    s.StartTransaction(true, name, newId);
    if name !in before.slots {
      StartedFollows(before, s.now, s.prepareImmediately, chain0, newId, steps, name);
    }
  }

  method Write(s: S.Session, step: SessionStep, newId: TxId, ghost chain0: Chain, ghost steps: seq<SessionStep>)
    requires Took(s, chain0, newId, steps) && step.table in s.now.slots && Writes(step)
    modifies s
    ensures Took(s, chain0, newId, steps + [step])
  {
    ghost var before := s.now;
    assert TableFollows(before.slots, s.prepareImmediately, steps, step.table);
    match step {
      case Put(table, key, value) => s.AddPut(table, key, value);
      case Remove(table, key) => s.AddRemove(table, key, true);
    }
    WriteRecorded(before.slots[step.table].tx, s.now.slots[step.table].tx, s.prepareImmediately, steps, step);
    SameDeliveries(before.slots, s.now.slots, step.table);
    SlotStepFollows(before, s.now, s.prepareImmediately, chain0, newId, steps, step);
  }

  method FinishOne(s: S.Session, table: Name, rpc: Rpc, newId: TxId, ghost chain0: Chain, ghost steps: seq<SessionStep>)
    requires Took(s, chain0, newId, steps)
    modifies s
    ensures Took(s, chain0, newId, steps + [Finish(table, rpc)])
  {
    if table !in s.now.slots || s.now.slots[table].tx.running == [] {
      IdleStepFollows(s.now, s.prepareImmediately, chain0, newId, steps, Finish(table, rpc));
      return;
    }
    ghost var before := s.now;
    assert TableFollows(before.slots, s.prepareImmediately, steps, table);
    ghost var op := s.RunWorker(table, rpc);
    FinishRecorded(before.slots[table].tx, s.now.slots[table].tx, s.prepareImmediately, steps, table, op, rpc);
    DeliveredOneMore(chain0, newId, before.slots, s.now.slots, table, StagedBy(op, rpc));
    SlotStepFollows(before, s.now, s.prepareImmediately, chain0, newId, steps, Finish(table, rpc));
  }

  lemma TouchFollows(s: S.Session, table: Name, chain0: Chain, id: TxId, steps: seq<SessionStep>)
    requires Took(s, chain0, id, steps)
    ensures Took(s, chain0, id, steps + [Touch(table)])
  {
    IdleStepFollows(s.now, s.prepareImmediately, chain0, id, steps, Touch(table));
  }

  method TouchOne(s: S.Session, table: Name, newId: TxId, ghost chain0: Chain, ghost steps: seq<SessionStep>)
    requires Took(s, chain0, newId, steps) && table in chain0
    modifies s
    ensures Took(s, chain0, newId, steps + [Touch(table)])
  {
    Start(s, table, newId, chain0, steps);
    TouchFollows(s, table, chain0, newId, steps);
  }

  method StartAndWrite(s: S.Session, step: SessionStep, newId: TxId, ghost chain0: Chain, ghost steps: seq<SessionStep>)
    requires Took(s, chain0, newId, steps) && step.table in chain0 && Writes(step)
    modifies s
    ensures Took(s, chain0, newId, steps + [step])
  {
    Start(s, step.table, newId, chain0, steps);
    Write(s, step, newId, chain0, steps);
  }

  method TakeStep(s: S.Session, step: SessionStep, newId: TxId, ghost chain0: Chain, ghost steps: seq<SessionStep>)
    requires Took(s, chain0, newId, steps) && step.table in chain0
    modifies s
    ensures Took(s, chain0, newId, steps + [step])
  {
    match step
    case Finish(table, rpc) => FinishOne(s, table, rpc, newId, chain0, steps);
    case Touch(table) => TouchOne(s, table, newId, chain0, steps);
    case _ => StartAndWrite(s, step, newId, chain0, steps);
  }

  method TakeNext(s: S.Session, steps: seq<SessionStep>, i: nat, newId: TxId, ghost chain0: Chain)
    requires i < |steps| && steps[i].table in chain0 && Took(s, chain0, newId, steps[..i])
    modifies s
    ensures Took(s, chain0, newId, steps[..i + 1])
  {
    assert steps[..i] + [steps[i]] == steps[..i + 1];
    TakeStep(s, steps[i], newId, chain0, steps[..i]);
  }

  lemma NothingTaken(s: S.Session, chain0: Chain, id: TxId)
    requires s.Valid() && s.now == S.State(chain0, map[], id, false) && id != NilId() && NoStaging(chain0, id)
    ensures Took(s, chain0, id, [])
  {
    NothingStaged(chain0, s.now.slots, id);
    assert Deliveries(s.now.slots) == map[];
  }

  /** A new session takes all steps. */
  method RunSession(immediately: bool, addresses: map<Name, string>, deployed: map<nat, Name>, chain0: Chain,
                    newId: TxId, steps: seq<SessionStep>)
    returns (s: S.Session)
    requires S.Configured(chain0.Keys, addresses, deployed) && StoresValid(chain0)
    requires newId != NilId() && NoStaging(chain0, newId)
    requires forall i :: 0 <= i < |steps| ==> steps[i].table in chain0
    ensures fresh(s) && s.prepareImmediately == immediately && Took(s, chain0, newId, steps)
  {
    s := new S.Session(immediately, addresses, deployed, chain0, newId);
    NothingTaken(s, chain0, newId);
    for i := 0 to |steps|
      invariant Took(s, chain0, newId, steps[..i])
    {
      TakeNext(s, steps, i, newId, chain0);
    }
    assert steps[..|steps|] == steps;
  }

  // ---------------------------------------------------------------- what a session commits

  lemma AffectedAreWritten(now: S.State, immediately: bool, chain0: Chain, id: TxId, steps: seq<SessionStep>)
    requires Follows(now, immediately, chain0, id, steps) && SlotsValid(now.slots, id, immediately)
    ensures Affected(now.slots) == Written(steps)
  {
    forall n
      ensures n in Affected(now.slots) <==> n in Written(steps)
    {
      assert TableFollows(now.slots, immediately, steps, n);
      WrittenIff(steps, n);
      if n in now.slots {
        ReadOnlyMeansNoOperations(now.slots[n].tx);
      }
    }
  }

  lemma ReportedIff(r: TxData, immediately: bool, steps: seq<SessionStep>, n: Name, o: Outcomes)
    requires RecordFollows(r, immediately, steps, n) && r.prepareImmediately == immediately
    ensures PrepareReported(r, o, n) <==> CallsReported(steps, n, immediately, o)
  {
    var workers := Paired(r.running, WorkersOf(o, n));
    assert forall i :: 0 <= i < |workers| ==> workers[i].rpc == o.workers(n, i);
    assert EachReported(workers) <==> forall i :: 0 <= i < |r.running| ==> o.workers(n, i).reported;
  }

  lemma AppliedIsHonest(r: TxData, immediately: bool, steps: seq<SessionStep>, n: Name, o: Outcomes)
    requires RecordFollows(r, immediately, steps, n) && r.prepareImmediately == immediately
    requires CallsApplied(steps, n, immediately, o)
    ensures PrepareHonest(r, o, n)
  {
    var workers := Paired(r.running, WorkersOf(o, n));
    assert forall i :: 0 <= i < |workers| ==> workers[i].rpc == o.workers(n, i);
  }

  lemma PreparesFollow(now: S.State, immediately: bool, chain0: Chain, id: TxId, steps: seq<SessionStep>, o: Outcomes)
    requires Follows(now, immediately, chain0, id, steps) && SlotsValid(now.slots, id, immediately)
    ensures Affected(now.slots) == Written(steps)
    ensures AllReported(now.slots, o) <==> AllCallsReported(steps, immediately, o)
  {
    AffectedAreWritten(now, immediately, chain0, id, steps);
    forall n | n in Affected(now.slots)
      ensures PrepareReported(now.slots[n].tx, o, n) <==> CallsReported(steps, n, immediately, o)
    {
      assert TableFollows(now.slots, immediately, steps, n);
      ReportedIff(now.slots[n].tx, immediately, steps, n, o);
    }
  }

  /** What the session has delivered shows nowhere, whatever others do meanwhile. */
  lemma DeliveriesAreInvisible(now: S.State, immediately: bool, chain0: Chain, id: TxId, steps: seq<SessionStep>,
                               others: seq<ForeignStep>)
    requires Follows(now, immediately, chain0, id, steps) && AllForeign(others, chain0, id)
    ensures AllForeign(others, now.chain, id)
    ensures SameTables(AfterForeign(chain0, others), AfterForeign(now.chain, others))
  {
    OthersCommuteWithPrepares(chain0, id, Deliveries(now.slots), others);
    assert forall i :: 0 <= i < |others| ==> IsForeign(others[i], chain0, id);
  }

  /** The commit took effect: all calls before it returned 0, and it applied to one to nine tables. */
  ghost predicate TakesEffect(steps: seq<SessionStep>, immediately: bool, o: Outcomes) {
    AllCallsReported(steps, immediately, o) && 0 < |Written(steps)| <= 9 && o.commit.applied
  }

  lemma TakesEffectIff(slots: Slots, steps: seq<SessionStep>, immediately: bool, o: Outcomes)
    requires Affected(slots) == Written(steps)
    requires AllReported(slots, o) <==> AllCallsReported(steps, immediately, o)
    ensures EndingOfCommit(true, slots, o) == Committed <==> TakesEffect(steps, immediately, o)
    ensures EndingOfCommit(true, slots, o) == PrepareFailed <==> !AllCallsReported(steps, immediately, o)
    ensures ReturnCode(EndingOfCommit(true, slots, o), o)
         == if !AllCallsReported(steps, immediately, o) then 122
            else if Written(steps) == {} || o.commit.reported then 0 else 1
  {
  }

  lemma {:induction false} NothingApplied(workers: seq<Worker>)
    requires forall i :: 0 <= i < |workers| ==> !workers[i].rpc.applied
    ensures AppliedOf(workers) == []
  {
    if workers != [] {
      NothingApplied(workers[..|workers| - 1]);
    }
  }

  lemma RevertedStagesNothing(r: TxData, immediately: bool, steps: seq<SessionStep>, n: Name, o: Outcomes,
                              ops: seq<Op<Bytes>>)
    requires RecordFollows(r, immediately, steps, n) && r.prepareImmediately == immediately
    requires Prepared(r, o, n, ops) && CallsReverted(steps, n, immediately, o)
    ensures r.delivered + ops == []
  {
    if immediately {
      var workers := Paired(r.running, WorkersOf(o, n));
      assert forall i :: 0 <= i < |workers| ==> workers[i].rpc == o.workers(n, i);
      NothingApplied(workers);
      PermutesLength(ops, AppliedOps(r.running, WorkersOf(o, n)));
    }
  }

  /** What a commit that took effect makes of one written table. */
  lemma TableShows(before: Store, after: Store, id: TxId, block: BlockNumber, r: TxData, ops: seq<Op<Bytes>>,
                   immediately: bool, steps: seq<SessionStep>, n: Name, o: Outcomes)
    requires TableCommitted(before, after, id, block, o, n, r, ops) && RecordFollows(r, immediately, steps, n)
    requires r.prepareImmediately == immediately && PrepareReported(r, o, n)
    ensures CallsApplied(steps, n, immediately, o) ==> ShowsSteps(View(before), View(after), steps, n, immediately)
    ensures CallsReverted(steps, n, immediately, o) ==> View(after) == View(before)
  {
    if CallsApplied(steps, n, immediately, o) {
      AppliedIsHonest(r, immediately, steps, n, o);
      CommitShows(before, block, id, r, ops);
      if immediately && ConflictFree(BatchOps(PutsOf(steps, n), RemovesOf(steps, n))) {
        ConflictFreeShowsOverlay(before, after, r, ops);
      }
    }
    if CallsReverted(steps, n, immediately, o) {
      RevertedStagesNothing(r, immediately, steps, n, o, ops);
      StageThenCommit(before, block, id, ops);
    }
  }

  lemma TableOfSession(now: S.State, immediately: bool, chain0: Chain, steps: seq<SessionStep>, block: BlockNumber,
                       o: Outcomes, mid: Chain, staged: Staging, rest: set<Name>, after: S.State, n: Name)
    requires Follows(now, immediately, chain0, now.id, steps)
    requires Consistent(mid, now.slots, now.id, immediately)
    requires CommitEnds(mid, now.slots, now.id, block, o, Committed, staged, rest, after.chain, after.slots)
    requires n in Affected(now.slots) && n in Written(steps)
    ensures n in mid && n in after.chain
    ensures ShowsTable(View(mid[n]), View(after.chain[n]), steps, n, immediately, o)
  {
    CommittedTable(mid, now.slots, now.id, immediately, block, o, staged, rest, after.chain, after.slots, n);
    assert TableFollows(now.slots, immediately, steps, n) && n in staged;
    TableShows(mid[n], after.chain[n], now.id, block, now.slots[n].tx, staged[n], immediately, steps, n, o);
  }

  lemma OtherTablesStay(now: S.State, block: BlockNumber, o: Outcomes, mid: Chain, staged: Staging, rest: set<Name>,
                        after: S.State)
    requires CommitEnds(mid, now.slots, now.id, block, o, Committed, staged, rest, after.chain, after.slots)
    ensures after.chain.Keys == mid.Keys
    ensures forall n :: n in mid && n !in Affected(now.slots) ==> after.chain[n] == mid[n]
  {
  }

  /** What a commit that took effect shows. */
  lemma CommitShowsSession(now: S.State, immediately: bool, chain0: Chain, steps: seq<SessionStep>, block: BlockNumber,
                           o: Outcomes, mid: Chain, staged: Staging, rest: set<Name>, after: S.State)
    requires Follows(now, immediately, chain0, now.id, steps)
    requires Consistent(mid, now.slots, now.id, immediately)
    requires CommitEnds(mid, now.slots, now.id, block, o, Committed, staged, rest, after.chain, after.slots)
    requires Affected(now.slots) == Written(steps)
    ensures ShowsSession(mid, after.chain, steps, immediately, o)
  {
    OtherTablesStay(now, block, o, mid, staged, rest, after);
    forall n | n in mid
      ensures ShowsTable(View(mid[n]), View(after.chain[n]), steps, n, immediately, o)
    {
      if n in Written(steps) {
        TableOfSession(now, immediately, chain0, steps, block, o, mid, staged, rest, after, n);
      }
    }
  }

  lemma SameViews(a: Chain, b: Chain, c: Chain, steps: seq<SessionStep>, immediately: bool, o: Outcomes)
    requires SameTables(a, b)
    ensures SameTables(b, c) ==> SameTables(a, c)
    ensures ShowsSession(b, c, steps, immediately, o) ==> ShowsSession(a, c, steps, immediately, o)
  {
    forall n | n in a
      ensures View(a[n]) == View(b[n])
    {
      assert a[n].data == b[n].data;
    }
  }

  /**
   * A whole session, in either mode, with any steps, any outcomes of its calls and any calls of others
   * during the commit. It returns 122, and asks for a rollback, exactly if some call that it needs was not
   * reported; else 0 if it wrote nothing or its commit call was reported. If the commit takes effect, a
   * table shows what was written to it if its calls took effect too, and nothing if they were mined and
   * reverted. If the commit does not take effect, no table shows anything.
   */
  method CommitSession(immediately: bool, addresses: map<Name, string>, deployed: map<nat, Name>, chain0: Chain,
                       newId: TxId, steps: seq<SessionStep>, block: BlockNumber, o: Outcomes, others: seq<ForeignStep>)
    returns (rc: nat, after: S.State)
    requires S.Configured(chain0.Keys, addresses, deployed) && StoresValid(chain0)
    requires newId != NilId() && NoStaging(chain0, newId)
    requires forall i :: 0 <= i < |steps| ==> steps[i].table in chain0
    requires AllForeign(others, chain0, newId)
    ensures rc == if !AllCallsReported(steps, immediately, o) then 122
                  else if Written(steps) == {} || o.commit.reported then 0 else 1
    ensures after.rollbackRequested <==> !AllCallsReported(steps, immediately, o)
    ensures !TakesEffect(steps, immediately, o) ==> SameTables(AfterForeign(chain0, others), after.chain)
    ensures TakesEffect(steps, immediately, o) ==>
              && ShowsSession(AfterForeign(chain0, others), after.chain, steps, immediately, o)
              && after.slots == map[] && NoStaging(after.chain, newId)
  {
    var s := RunSession(immediately, addresses, deployed, chain0, newId, steps);
    ghost var now := s.now;
    ghost var mid := AfterForeign(now.chain, others);
    DeliveriesAreInvisible(now, immediately, chain0, newId, steps, others);
    OthersKeepConsistent(now.chain, now.slots, newId, immediately, others);
    PreparesFollow(now, immediately, chain0, newId, steps, o);
    TakesEffectIff(now.slots, steps, immediately, o);
    ghost var ending, staged, rest;
    rc, ending, staged, rest := s.BcCommit(true, block, o, others);
    after := s.now;
    SameViews(AfterForeign(chain0, others), mid, after.chain, steps, immediately, o);
    if ending != Committed {
      UncommittedShowsNothing(mid, now.slots, newId, block, o, ending, staged, rest, after.chain, after.slots);
    } else {
      NoStagingAfterCommit(mid, now.slots, newId, immediately, block, o, ending, staged, rest, after.chain,
                           after.slots);
      CommitShowsSession(now, immediately, chain0, steps, block, o, mid, staged, rest, after);
    }
  }

  // ---------------------------------------------------------------- a session that is rolled back

  lemma DeliveredBuffersMatch(now: S.State, immediately: bool, chain0: Chain, id: TxId, steps: seq<SessionStep>)
    requires Follows(now, immediately, chain0, id, steps) && NoStaging(chain0, id)
    ensures BuffersMatch(now.chain, id, now.slots) && SameTables(chain0, now.chain)
  {
    forall n | n in chain0
      ensures Buffer(now.chain[n], id) == if n in now.slots then now.slots[n].tx.delivered else []
    {
      if n in now.slots {
        StagedBuffer(chain0[n], id, now.slots[n].tx.delivered);
        assert [] + now.slots[n].tx.delivered == now.slots[n].tx.delivered;
      }
    }
  }

  /**
   * A session that is rolled back after any steps leaves every table as it was and no transaction behind, and
   * nothing staged: in immediate mode if its cleanup calls take effect.
   */
  method RollBackSession(immediately: bool, addresses: map<Name, string>, deployed: map<nat, Name>, chain0: Chain,
                         newId: TxId, steps: seq<SessionStep>, o: Outcomes)
    returns (rc: nat, after: S.State)
    requires S.Configured(chain0.Keys, addresses, deployed) && StoresValid(chain0)
    requires newId != NilId() && NoStaging(chain0, newId)
    requires forall i :: 0 <= i < |steps| ==> steps[i].table in chain0
    ensures rc == 0 && after.slots == map[] && SameTables(chain0, after.chain)
    ensures (immediately ==> AllCleared(o)) ==> NoStaging(after.chain, newId)
  {
    var s := RunSession(immediately, addresses, deployed, chain0, newId, steps);
    ghost var now := s.now;
    DeliveredBuffersMatch(now, immediately, chain0, newId, steps);
    rc := s.BcRollback(true, o);
    after := s.now;
    RolledBackKeepsTables(now.chain, after.chain, newId, immediately, now.slots.Keys, o);
    if immediately ==> AllCleared(o) {
      NoStagingAfterRollback(now.chain, now.slots, newId, immediately, o, after.chain);
    }
  }
}
