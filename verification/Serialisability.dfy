/**
 * Runs of one contract under any number of transactions: however their calls interleave, the table
 * is the one a serial execution in commit order produces.
 */
module Serialisability {
  import opened Types
  import opened TableSpec
  import opened TableStorage

  /**
   * One contract call that did not revert. `Direct` is a put, remove, putBatch or removeBatch without
   * a transaction id; `Stage` is one with an id.
   */
  datatype Step =
    | Direct(block: BlockNumber, ops: seq<Op<Bytes>>)
    | Stage(id: TxId, ops: seq<Op<Bytes>>)
    | Clean(id: TxId)
    | Commit(block: BlockNumber, id: TxId)

  function StepStore(s: Store, step: Step): Store {
    match step
    case Direct(block, ops) => StoreReplay(s, block, ops)
    case Stage(id, ops) => StoreStage(s, id, ops)
    case Clean(id) => StoreClean(s, id)
    case Commit(block, id) => StoreCommit(s, block, id)
  }

  function Exec(run: seq<Step>): Store {
    if run == [] then EMPTY_STORE else StepStore(Exec(run[..|run| - 1]), run[|run| - 1])
  }

  /** The operations id has staged since it last cleaned or committed, in the order they arrived. */
  function Staged(run: seq<Step>, id: TxId): seq<Op<Bytes>> {
    if run == [] then []
    else
      var earlier, last := run[..|run| - 1], run[|run| - 1];
      match last
      case Direct(_, _) => Staged(earlier, id)
      case Stage(x, ops) => if x == id then Staged(earlier, id) + ops else Staged(earlier, id)
      case Clean(x) => if x == id then [] else Staged(earlier, id)
      case Commit(_, x) => if x == id then [] else Staged(earlier, id)
  }

  /**
   * The serial run: no staging at all, and at the place of each commit its transaction's operations
   * in one piece.
   */
  function Serial(run: seq<Step>): seq<Step> {
    if run == [] then []
    else
      var earlier, last := run[..|run| - 1], run[|run| - 1];
      match last
      case Direct(_, _) => Serial(earlier) + [last]
      case Commit(block, id) => Serial(earlier) + [Direct(block, Staged(earlier, id))]
      case _ => Serial(earlier)
  }

  /** The stamped writes of a serial run, in order. */
  function Log(serial: seq<Step>): seq<Op<Entry>> {
    if serial == [] then []
    else
      var last := serial[|serial| - 1];
      Log(serial[..|serial| - 1]) + if last.Direct? then Stamp(last.block, last.ops) else []
  }

  lemma {:induction false} BuffersHoldStaged(run: seq<Step>, id: TxId)
    ensures Buffer(Exec(run), id) == Staged(run, id)
  {
    if run != [] {
      var earlier := run[..|run| - 1];
      BuffersHoldStaged(earlier, id);
      match run[|run| - 1]
      case Direct(block, ops) => StoreReplayKeepsBuffers(Exec(earlier), block, ops);
      case Commit(block, x) => StoreReplayKeepsBuffers(Exec(earlier), block, Buffer(Exec(earlier), x));
      case _ =>
    }
  }

  lemma {:induction false} RunsKeepValid(run: seq<Step>)
    ensures Valid(Exec(run))
  {
    if run != [] {
      var earlier := run[..|run| - 1];
      RunsKeepValid(earlier);
      match run[|run| - 1]
      case Direct(block, ops) => StoreReplayMeaning(Exec(earlier), block, ops);
      case Commit(block, x) => CommitMeaning(Exec(earlier), block, x);
      case _ =>
    }
  }

  /** Replaying operations does not look at the buffers. */
  lemma {:induction false} StoreReplayIgnoresBuffers(s: Store, t: Store, block: BlockNumber, ops: seq<Op<Bytes>>)
    requires s.keyList == t.keyList && s.data == t.data
    ensures StoreReplay(s, block, ops).keyList == StoreReplay(t, block, ops).keyList
    ensures StoreReplay(s, block, ops).data == StoreReplay(t, block, ops).data
  {
    if ops != [] {
      StoreReplayIgnoresBuffers(s, t, block, ops[..|ops| - 1]);
    }
  }

  /** Every interleaving leaves the table, down to the order of its key list, that its serial run leaves. */
  lemma {:induction false} Serialisable(run: seq<Step>)
    ensures Exec(run).keyList == Exec(Serial(run)).keyList
    ensures Exec(run).data == Exec(Serial(run)).data
  {
    if run != [] {
      var earlier, last := run[..|run| - 1], run[|run| - 1];
      Serialisable(earlier);
      if last.Direct? || last.Commit? {
        var serial := Serial(run);
        assert serial[..|serial| - 1] == Serial(earlier);
        if last.Commit? {
          BuffersHoldStaged(earlier, last.id);
        }
        StoreReplayIgnoresBuffers(Exec(earlier), Exec(Serial(earlier)), last.block, serial[|serial| - 1].ops);
      }
    }
  }

  lemma {:induction false} SerialRunsTheLog(serial: seq<Step>)
    requires forall step :: step in serial ==> step.Direct?
    ensures Exec(serial).data == Replay(map[], Log(serial))
  {
    if serial != [] {
      var earlier, last := serial[..|serial| - 1], serial[|serial| - 1];
      SerialRunsTheLog(earlier);
      RunsKeepValid(earlier);
      assert last in serial;
      StoreReplayMeaning(Exec(earlier), last.block, last.ops);
      ReplayConcat<Entry>(map[], Log(earlier), Stamp(last.block, last.ops));
    }
  }

  lemma {:induction false} SerialIsDirect(run: seq<Step>)
    ensures forall step :: step in Serial(run) ==> step.Direct?
  {
    if run != [] {
      SerialIsDirect(run[..|run| - 1]);
    }
  }

  /**
   * After any run the key list lists exactly the stored keys, once each, and a stored entry carries
   * the value and the block of the last write to its key in commit order, which is a put.
   */
  lemma StoredEntryIsLastWrite(run: seq<Step>, k: Bytes)
    ensures NoDuplicates(Exec(run).keyList)
    ensures k in Exec(run).keyList <==> k in Exec(run).data
    ensures Lookup(Exec(run).data, k) == Settle(None, LastFate(Log(Serial(run)), k))
  {
    RunsKeepValid(run);
    assert BlockOf(Exec(run).data, k) != 0 <==> k in Exec(run).data;
    Serialisable(run);
    SerialIsDirect(run);
    SerialRunsTheLog(Serial(run));
    ReplayByKey<Entry>(map[], Log(Serial(run)), k);
  }

  // ---------------------------------------------------------------- uncommitted work is invisible

  predicate Concerns(step: Step, id: TxId) {
    !step.Direct? && step.id == id
  }

  function Without(run: seq<Step>, id: TxId): seq<Step> {
    if run == [] then []
    else
      var last := run[|run| - 1];
      Without(run[..|run| - 1], id) + if Concerns(last, id) then [] else [last]
  }

  lemma {:induction false} StagedWithout(run: seq<Step>, id: TxId, other: TxId)
    requires other != id
    ensures Staged(Without(run, id), other) == Staged(run, other)
  {
    if run != [] {
      var earlier, last := run[..|run| - 1], run[|run| - 1];
      StagedWithout(earlier, id, other);
      if Concerns(last, id) {
        assert Without(run, id) == Without(earlier, id);
      } else {
        assert Without(run, id)[..|Without(run, id)| - 1] == Without(earlier, id);
      }
    }
  }

  /** A transaction that never commits leaves no trace: the rest of the run gives the same table. */
  lemma {:induction false} UncommittedIsInvisible(run: seq<Step>, id: TxId)
    requires forall step :: step in run && step.Commit? ==> step.id != id
    ensures Serial(Without(run, id)) == Serial(run)
    ensures Exec(Without(run, id)).keyList == Exec(run).keyList
    ensures Exec(Without(run, id)).data == Exec(run).data
  {
    if run != [] {
      var earlier, last := run[..|run| - 1], run[|run| - 1];
      assert last in run;
      assert forall step :: step in earlier ==> step in run;
      UncommittedIsInvisible(earlier, id);
      if Concerns(last, id) {
        assert Without(run, id) == Without(earlier, id);
      } else {
        assert Without(run, id)[..|Without(run, id)| - 1] == Without(earlier, id);
        if last.Commit? {
          StagedWithout(earlier, id, last.id);
        }
      }
    }
    Serialisable(run);
    Serialisable(Without(run, id));
  }
}
