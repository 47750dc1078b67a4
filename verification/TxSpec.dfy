/**
 * One transaction on one table, as values: pending operations, the read cache laid over them, and
 * what the handler calls do to both. The chain's contents may differ at every call, because other
 * sessions commit in between.
 */
module TxSpec {
  import opened Types
  import opened TableSpec

  datatype TxState = TxState(puts: seq<Row>,
                             removes: seq<Bytes>,
                             pending: seq<Bytes>,
                             cache: Contents,
                             filled: bool,
                             scanning: bool)

  const EMPTY_TX := TxState([], [], [], map[], false, false)

  function Keys(s: seq<Bytes>): set<Bytes> { set k | k in s }

  function TxPut(t: TxState, key: Bytes, value: Bytes): TxState {
    t.(puts := t.puts + [Row(key, value)], cache := t.cache[key := value])
  }

  /** A delete that arrives during a scan waits for the end of the scan. */
  function TxRemove(t: TxState, key: Bytes, deferrable: bool): TxState {
    if deferrable && t.scanning then t.(pending := t.pending + [key])
    else t.(removes := t.removes + [key], cache := t.cache - {key})
  }

  function TxReapply(t: TxState): TxState {
    t.(cache := Overlay(t.cache, t.puts, t.removes))
  }

  function TxApplyPending(t: TxState): TxState {
    t.(removes := t.removes + t.pending, cache := t.cache - Keys(t.pending), pending := [])
  }

  /** Rows read from the chain never replace cached ones. */
  function TxEmplace(t: TxState, chain: Contents): TxState {
    t.(cache := chain + t.cache)
  }

  function TxActivateScan(t: TxState, useCache: bool): TxState {
    var s := t.(scanning := true);
    if useCache then s else s.(cache := map[], filled := false)
  }

  function TxBeginScan(t: TxState, useCache: bool, chain: Contents): TxState {
    var r := TxActivateScan(t, useCache);
    if r.filled then r else TxReapply(TxEmplace(r, chain)).(filled := true)
  }

  function TxEndScan(t: TxState, useCache: bool): TxState {
    var s := TxApplyPending(t).(scanning := false);
    if useCache then s else s.(cache := map[])
  }

  predicate Misses(t: TxState, useCache: bool, key: Bytes) {
    !useCache || key !in t.cache
  }

  /** The cache as an index read leaves it for its own lookup. */
  function TxFetch(t: TxState, useCache: bool, key: Bytes, chain: Contents): TxState {
    if Misses(t, useCache, key) && key in chain then TxReapply(t.(cache := t.cache[key := chain[key]]))
    else t
  }

  function TxRead(t: TxState, useCache: bool, key: Bytes, chain: Contents): TxState {
    var s := TxFetch(t, useCache, key, chain);
    if useCache || key !in chain then s else s.(cache := map[])
  }

  /** What an index read finds; a key that has to be fetched but is not on the chain is not looked up. */
  function ReadResult(t: TxState, useCache: bool, key: Bytes, chain: Contents): Option<Bytes> {
    if Misses(t, useCache, key) && key !in chain then None
    else Lookup(TxFetch(t, useCache, key, chain).cache, key)
  }

  datatype Step =
    | Write(key: Bytes, value: Bytes)
    | Delete(key: Bytes)
    | BeginScan(chain: Contents)
    | EndScan
    | Read(key: Bytes, chain: Contents)

  function StepTx(t: TxState, useCache: bool, step: Step): TxState {
    match step
    case Write(k, v) => TxPut(t, k, v)
    case Delete(k) => TxRemove(t, k, true)
    case BeginScan(chain) => TxBeginScan(t, useCache, chain)
    case EndScan => TxEndScan(t, useCache)
    case Read(k, chain) => TxRead(t, useCache, k, chain)
  }

  /** A run of a transaction that uses the table scan cache. */
  function Exec(run: seq<Step>): TxState {
    if run == [] then EMPTY_TX else StepTx(Exec(run[..|run| - 1]), true, run[|run| - 1])
  }

  lemma ExecAppend(run: seq<Step>, step: Step)
    ensures Exec(run + [step]) == StepTx(Exec(run), true, step)
  {
    assert (run + [step])[..|run|] == run;
  }

  // ---------------------------------------------------------------- what the steps of a run tell

  /** The table was scanned. */
  ghost predicate HasScan(run: seq<Step>) {
    exists i :: 0 <= i < |run| && run[i].BeginScan?
  }

  /** Every scan that began has ended. */
  ghost predicate OutsideScan(run: seq<Step>) {
    forall i :: 0 <= i < |run| && run[i].BeginScan? ==> exists j :: i < j < |run| && run[j].EndScan?
  }

  lemma OutsideScanAppend(run: seq<Step>, step: Step)
    ensures OutsideScan(run + [step]) <==> step.EndScan? || (OutsideScan(run) && !step.BeginScan?)
  {
    var more := run + [step];
    assert forall i :: 0 <= i < |run| ==> more[i] == run[i];
    assert more[|run|] == step;
    if OutsideScan(run) && !step.BeginScan? {
      forall i | 0 <= i < |more| && more[i].BeginScan?
        ensures exists j :: i < j < |more| && more[j].EndScan?
      {
        var j :| i < j < |run| && run[j].EndScan?;
        assert more[j].EndScan?;
      }
    }
    if OutsideScan(more) && !step.EndScan? {
      forall i | 0 <= i < |run| && run[i].BeginScan?
        ensures exists j :: i < j < |run| && run[j].EndScan?
      {
        assert more[i].BeginScan?;
        var j :| i < j < |more| && more[j].EndScan?;
        assert run[j].EndScan?;
      }
    }
  }

  lemma HasScanAppend(run: seq<Step>, step: Step)
    ensures HasScan(run + [step]) <==> HasScan(run) || step.BeginScan?
  {
    var more := run + [step];
    assert forall i :: 0 <= i < |run| ==> more[i] == run[i];
    assert more[|run|] == step;
  }

  /** The transaction's flags say what its steps say: whether the table was scanned, and is being scanned. */
  lemma {:induction false} FlagsFollowSteps(run: seq<Step>)
    ensures Exec(run).filled <==> HasScan(run)
    ensures Exec(run).scanning <==> !OutsideScan(run)
  {
    if run != [] {
      var earlier, last := run[..|run| - 1], run[|run| - 1];
      assert run == earlier + [last];
      FlagsFollowSteps(earlier);
      HasScanAppend(earlier, last);
      OutsideScanAppend(earlier, last);
    }
  }

  function WritesOf(run: seq<Step>): seq<Row> {
    if run == [] then []
    else
      var earlier, last := WritesOf(run[..|run| - 1]), run[|run| - 1];
      if last.Write? then earlier + [Row(last.key, last.value)] else earlier
  }

  function DeletesOf(run: seq<Step>): seq<Bytes> {
    if run == [] then []
    else
      var earlier, last := DeletesOf(run[..|run| - 1]), run[|run| - 1];
      if last.Delete? then earlier + [last.key] else earlier
  }

  /** Outside a scan no delete waits. */
  lemma {:induction false} NothingWaitsOutsideScans(run: seq<Step>)
    ensures OutsideScan(run) ==> Exec(run).pending == []
  {
    if run != [] {
      var earlier, last := run[..|run| - 1], run[|run| - 1];
      assert run == earlier + [last];
      NothingWaitsOutsideScans(earlier);
      OutsideScanAppend(earlier, last);
      FlagsFollowSteps(earlier);
    }
  }

  /**
   * The pending operations are the writes and deletes of the run, in order; only the deletes of a scan
   * that has not ended wait.
   */
  lemma {:induction false} RunsRecordSteps(run: seq<Step>)
    ensures Exec(run).puts == WritesOf(run)
    ensures Exec(run).removes + Exec(run).pending == DeletesOf(run)
    ensures OutsideScan(run) ==> Exec(run).removes == DeletesOf(run)
  {
    NothingWaitsOutsideScans(run);
    if run != [] {
      var earlier, last := run[..|run| - 1], run[|run| - 1];
      RunsRecordSteps(earlier);
      FlagsFollowSteps(earlier);
      NothingWaitsOutsideScans(earlier);
      assert Exec(earlier).removes + [] == Exec(earlier).removes;
    }
    assert Exec(run).removes + [] == Exec(run).removes;
  }

  /** What a transaction commits, read off its steps: its writes, and then its deletes. */
  lemma CommitIsOverlayOfSteps(run: seq<Step>, chain: Contents)
    requires OutsideScan(run)
    ensures var t := Exec(run);
            Replay(chain, BatchOps(t.puts, t.removes)) == Overlay(chain, WritesOf(run), DeletesOf(run))
  {
    RunsRecordSteps(run);
    BatchCommitIsOverlay(chain, WritesOf(run), DeletesOf(run));
  }

  /**
   * A delete outside a scan takes effect at once: it is recorded and its row is gone. One in a scan waits
   * and changes nothing else.
   */
  lemma DeleteTakesEffect(run: seq<Step>, k: Bytes)
    ensures var t, after := Exec(run), Exec(run + [Delete(k)]);
            if OutsideScan(run) then after.removes == t.removes + [k] && k !in after.cache && after.pending == []
            else after == t.(pending := t.pending + [k])
  {
    ExecAppend(run, Delete(k));
    FlagsFollowSteps(run);
    NothingWaitsOutsideScans(run);
  }

  /** The end of a scan issues the deletes that waited, in order, and their rows are gone. */
  lemma ScanEndIssuesDeletes(run: seq<Step>, k: Bytes)
    ensures var t, after := Exec(run), Exec(run + [EndScan]);
            && after.removes == DeletesOf(run) && after.pending == []
            && Lookup(after.cache, k) == if k in t.pending then None else Lookup(t.cache, k)
  {
    ExecAppend(run, EndScan);
    RunsRecordSteps(run);
  }

  // ---------------------------------------------------------------- the live cache and reapplying

  /** Puts that were not removed show in the cache with their last value. */
  ghost predicate PutsShow(t: TxState) {
    forall k :: k in KeysOf(t.puts) && k !in t.removes ==> Lookup(t.cache, k) == Some(LastValue(t.puts, k))
  }

  lemma ReapplyAt(t: TxState, k: Bytes)
    ensures Lookup(TxReapply(t).cache, k)
         == if k in t.removes then None
            else if k in KeysOf(t.puts) then Some(LastValue(t.puts, k)) else Lookup(t.cache, k)
  {
    OverlayByKey(t.cache, t.puts, t.removes, k);
  }

  lemma PutAppends(puts: seq<Row>, key: Bytes, value: Bytes)
    ensures KeysOf(puts + [Row(key, value)]) == KeysOf(puts) + {key}
    ensures forall k :: k in KeysOf(puts + [Row(key, value)]) ==>
              LastValue(puts + [Row(key, value)], k) == if k == key then value else LastValue(puts, k)
  {
    var after := puts + [Row(key, value)];
    assert after[..|after| - 1] == puts;
    assert forall r :: r in after <==> r in puts || r == Row(key, value);
  }

  lemma StepKeepsPutsShow(t: TxState, step: Step)
    requires PutsShow(t)
    ensures PutsShow(StepTx(t, true, step))
  {
    match step
    case Write(k, v) => PutAppends(t.puts, k, v);
    case Delete(_) =>
    case BeginScan(_) =>
    case EndScan =>
    case Read(_, _) =>
  }

  lemma {:induction false} RunsShowPuts(run: seq<Step>)
    ensures PutsShow(Exec(run))
  {
    if run != [] {
      RunsShowPuts(run[..|run| - 1]);
      StepKeepsPutsShow(Exec(run[..|run| - 1]), run[|run| - 1]);
    }
  }

  /**
   * In every reachable state, reapplying the pending operations takes out of the live cache exactly
   * the keys that were removed at some time, and changes nothing else.
   */
  lemma ReapplyDropsRemovedKeys(run: seq<Step>)
    ensures TxReapply(Exec(run)).cache == Exec(run).cache - Keys(Exec(run).removes)
  {
    var t := Exec(run);
    RunsShowPuts(run);
    forall k
      ensures Lookup(TxReapply(t).cache, k) == Lookup(t.cache - Keys(t.removes), k)
    {
      ReapplyAt(t, k);
    }
    MapsEqualByLookup(TxReapply(t).cache, t.cache - Keys(t.removes));
  }

  function ReviveStep(t: TxState, revived: set<Bytes>, step: Step): set<Bytes> {
    match step
    case Write(k, _) => if k in t.removes then revived + {k} else revived
    case Delete(k) => if t.scanning then revived else revived - {k}
    case BeginScan(_) => if t.filled then revived else {}
    case EndScan => revived - Keys(t.pending)
    case Read(k, chain) => if k !in t.cache && k in chain then {} else revived
  }

  /**
   * The keys put again after a remove of them took effect, and since then neither removed again nor
   * dropped by a reapply.
   */
  function Revived(run: seq<Step>): set<Bytes> {
    if run == [] then {}
    else
      var earlier := run[..|run| - 1];
      ReviveStep(Exec(earlier), Revived(earlier), run[|run| - 1])
  }

  function CachedRemoved(t: TxState): set<Bytes> {
    t.cache.Keys * Keys(t.removes)
  }

  lemma ReapplyClearsCachedRemoved(t: TxState)
    ensures CachedRemoved(TxReapply(t)) == {}
  {
  }

  lemma StepRevives(t: TxState, step: Step)
    ensures CachedRemoved(StepTx(t, true, step)) == ReviveStep(t, CachedRemoved(t), step)
  {
    match step
    case Write(_, _) =>
    case Delete(_) =>
    case BeginScan(chain) => ReapplyClearsCachedRemoved(TxEmplace(t.(scanning := true), chain));
    case EndScan =>
    case Read(k, chain) =>
      if k in chain {
        ReapplyClearsCachedRemoved(t.(cache := t.cache[k := chain[k]]));
      }
  }

  /** The revived keys are the removed keys that the live cache shows. */
  lemma {:induction false} RevivedAreCachedRemoved(run: seq<Step>)
    ensures Revived(run) == CachedRemoved(Exec(run))
  {
    if run != [] {
      RevivedAreCachedRemoved(run[..|run| - 1]);
      StepRevives(Exec(run[..|run| - 1]), run[|run| - 1]);
    }
  }

  lemma RemovingIsIdentityIff(m: Contents, keys: set<Bytes>)
    ensures m - keys == m <==> m.Keys * keys == {}
  {
    if k :| k in m.Keys * keys {
      assert k in m && k !in m - keys;
    } else {
      assert forall k :: k in m && k in keys ==> k in m.Keys * keys;
      assert m - keys == m;
    }
  }

  /** Reapplying is a fixpoint exactly when no removed key has come back since the last reapply. */
  lemma ReapplyFixpointIff(run: seq<Step>)
    ensures TxReapply(Exec(run)).cache == Exec(run).cache <==> Revived(run) == {}
  {
    var t := Exec(run);
    ReapplyDropsRemovedKeys(run);
    RevivedAreCachedRemoved(run);
    RemovingIsIdentityIff(t.cache, Keys(t.removes));
  }

  lemma ReapplyIdempotent(t: TxState)
    ensures TxReapply(TxReapply(t)) == TxReapply(t)
  {
    OverlayIdempotent(t.cache, t.puts, t.removes);
  }

  // ---------------------------------------------------------------- the cache and the commit

  /** No commit by another session shows during the run: every read sees the same chain. */
  ghost predicate ChainIs(run: seq<Step>, chain: Contents) {
    forall step :: step in run && (step.BeginScan? || step.Read?) ==> step.chain == chain
  }

  /** Untouched keys agree with the chain; a filled cache has all of them. */
  ghost predicate AgreesWithChain(t: TxState, chain: Contents) {
    forall k :: k !in KeysOf(t.puts) && k !in t.removes ==>
      && (k in t.cache ==> Lookup(chain, k) == Lookup(t.cache, k))
      && (t.filled ==> Lookup(chain, k) == Lookup(t.cache, k))
  }

  lemma StepKeepsAgreement(t: TxState, step: Step, chain: Contents)
    requires AgreesWithChain(t, chain)
    requires step.BeginScan? || step.Read? ==> step.chain == chain
    ensures AgreesWithChain(StepTx(t, true, step), chain)
  {
    match step
    case Write(k, v) => PutAppends(t.puts, k, v);
    case Delete(_) =>
    case BeginScan(_) =>
    case EndScan =>
    case Read(_, _) =>
  }

  lemma {:induction false} RunsAgreeWithChain(run: seq<Step>, chain: Contents)
    requires ChainIs(run, chain)
    ensures AgreesWithChain(Exec(run), chain)
  {
    if run != [] {
      var earlier, last := run[..|run| - 1], run[|run| - 1];
      assert last in run;
      assert forall step :: step in earlier ==> step in run;
      RunsAgreeWithChain(earlier, chain);
      StepKeepsAgreement(Exec(earlier), last, chain);
    }
  }

  /**
   * A scan into an empty cache shows the overlay, which is what committing the batch leaves behind.
   * Without the cache every scan starts empty.
   */
  lemma CommitMatchesFreshScan(t: TxState, useCache: bool, chain: Contents)
    requires useCache ==> t.cache == map[] && !t.filled
    ensures TxBeginScan(t, useCache, chain).cache == Replay(chain, BatchOps(t.puts, t.removes))
  {
    BatchCommitIsOverlay(chain, t.puts, t.removes);
    assert chain + map[] == chain;
  }

  /**
   * With no other commit in between, committing a transaction that has scanned the table leaves what its
   * live cache shows, without the revived keys: those the session still sees and the commit drops.
   */
  lemma CommitMatchesLiveCache(run: seq<Step>, chain: Contents)
    requires ChainIs(run, chain) && HasScan(run)
    ensures var t := Exec(run);
            Replay(chain, BatchOps(t.puts, t.removes)) == t.cache - Revived(run)
  {
    var t := Exec(run);
    FlagsFollowSteps(run);
    RunsShowPuts(run);
    RunsAgreeWithChain(run, chain);
    RevivedAreCachedRemoved(run);
    BatchCommitIsOverlay(chain, t.puts, t.removes);
    forall k
      ensures Lookup(Overlay(chain, t.puts, t.removes), k) == Lookup(t.cache - Revived(run), k)
    {
      OverlayByKey(chain, t.puts, t.removes, k);
    }
    MapsEqualByLookup(Overlay(chain, t.puts, t.removes), t.cache - Revived(run));
  }

  // ---------------------------------------------------------------- the cache and the order of issue

  function IssuedBy(t: TxState, step: Step): seq<Op<Bytes>> {
    match step
    case Write(k, v) => [PutOp(k, v)]
    case Delete(k) => if t.scanning then [] else [RemoveOp(k)]
    case EndScan => RemoveOps(t.pending)
    case _ => []
  }

  /** The operations of a run in the order in which they were issued. */
  function Issued(run: seq<Step>): seq<Op<Bytes>> {
    if run == [] then [] else Issued(run[..|run| - 1]) + IssuedBy(Exec(run[..|run| - 1]), run[|run| - 1])
  }

  lemma IssuedStep(t: TxState, step: Step, ops: seq<Op<Bytes>>)
    requires Permutes(ops, BatchOps(t.puts, t.removes))
    ensures var after := StepTx(t, true, step);
            Permutes(ops + IssuedBy(t, step), BatchOps(after.puts, after.removes))
  {
    match step
    case Write(k, v) => OnePutMore(ops, t.puts, t.removes, k, v);
    case Delete(k) =>
      if !t.scanning {
        RemovesMore(ops, t.puts, t.removes, [k]);
        assert RemoveOps([k]) == [RemoveOp(k)];
      } else {
        assert ops + [] == ops;
      }
    case EndScan => RemovesMore(ops, t.puts, t.removes, t.pending);
    case _ => assert ops + [] == ops;
  }

  /** The operations issued are those that a batch has, in another order. */
  lemma {:induction false} IssuedPermutesBatch(run: seq<Step>)
    ensures Permutes(Issued(run), BatchOps(Exec(run).puts, Exec(run).removes))
  {
    if run == [] {
      assert BatchOps([], []) == [];
    } else {
      var earlier, last := run[..|run| - 1], run[|run| - 1];
      IssuedPermutesBatch(earlier);
      IssuedStep(Exec(earlier), last, Issued(earlier));
    }
  }

  /** What the cache shows of a key, given the fate that the operations issued so far leave it. */
  ghost predicate CacheFollows(t: TxState, fate: Fate<Bytes>, k: Bytes) {
    match fate
    case Untouched => k !in KeysOf(t.puts) && k !in t.removes
    case Erased => k !in t.cache && k in t.removes
    case Written(v) =>
      && (k in t.cache ==> t.cache[k] == v)
      && (k !in t.removes ==> k in t.cache)
      && k in KeysOf(t.puts) && LastValue(t.puts, k) == v
  }

  lemma OneFate(op: Op<Bytes>, k: Bytes)
    ensures LastFate([op], k) == if op.key == k then FateOf(op) else Untouched
  {
    assert [op][..0] == [];
  }

  lemma StepFollows(t: TxState, step: Step, before: Fate<Bytes>, k: Bytes)
    requires CacheFollows(t, before, k)
    ensures var fate := LastFate(IssuedBy(t, step), k);
            CacheFollows(StepTx(t, true, step), if fate.Untouched? then before else fate, k)
  {
    match step
    case Write(key, value) =>
      PutAppends(t.puts, key, value);
      OneFate(PutOp(key, value), k);
    case Delete(key) =>
      OneFate(RemoveOp(key), k);
    case EndScan => FateOfRemoves(t.pending, k);
    case BeginScan(chain) => ReapplyAt(TxEmplace(TxActivateScan(t, true), chain), k);
    case Read(key, chain) =>
      if key in chain {
        ReapplyAt(t.(cache := t.cache[key := chain[key]]), k);
      }
  }

  lemma {:induction false} RunsFollowIssued(run: seq<Step>, k: Bytes)
    ensures CacheFollows(Exec(run), LastFate(Issued(run), k), k)
  {
    if run != [] {
      var earlier, last := run[..|run| - 1], run[|run| - 1];
      RunsFollowIssued(earlier, k);
      StepFollows(Exec(earlier), last, LastFate(Issued(earlier), k), k);
      LastFateConcat(Issued(earlier), IssuedBy(Exec(earlier), last), k);
    }
  }

  /** A row put again after a remove, which a reapply has taken out of the cache since. */
  ghost predicate DroppedByReapply(run: seq<Step>, k: Bytes)
    ensures DroppedByReapply(run, k) ==> k in KeysOf(Exec(run).puts)
  {
    RunsFollowIssued(run, k);
    k in Exec(run).removes && LastFate(Issued(run), k).Written? && k !in Revived(run)
  }

  /**
   * With no other commit in between, operations that arrive in the order of issue commit what the cache of
   * a scanned table shows, the rows put again included, and also those of them that a reapply has
   * dropped from the cache.
   */
  lemma CommitInIssueOrder(run: seq<Step>, chain: Contents, k: Bytes)
    requires ChainIs(run, chain) && HasScan(run)
    ensures DroppedByReapply(run, k) ==>
              && Lookup(Exec(run).cache, k) == None && k in KeysOf(Exec(run).puts)
              && Lookup(Replay(chain, Issued(run)), k) == Some(LastValue(Exec(run).puts, k))
    ensures !DroppedByReapply(run, k) ==> Lookup(Replay(chain, Issued(run)), k) == Lookup(Exec(run).cache, k)
  {
    FlagsFollowSteps(run);
    RunsFollowIssued(run, k);
    RunsAgreeWithChain(run, chain);
    RevivedAreCachedRemoved(run);
    ReplayByKey(chain, Issued(run), k);
  }

  /**
   * Deleting a row outside a scan and inserting it again: the session sees the new row, its commit
   * loses it, in every run and on every chain.
   */
  lemma ReinsertedRowIsLost(run: seq<Step>, k: Bytes, v: Bytes, chain: Contents)
    requires OutsideScan(run)
    ensures var t := Exec(run + [Delete(k)] + [Write(k, v)]);
            && Lookup(t.cache, k) == Some(v)
            && Lookup(Replay(chain, BatchOps(t.puts, t.removes)), k) == None
  {
    FlagsFollowSteps(run);
    ExecAppend(run, Delete(k));
    ExecAppend(run + [Delete(k)], Write(k, v));
    var t := Exec(run + [Delete(k)] + [Write(k, v)]);
    BatchCommitIsOverlay(chain, t.puts, t.removes);
    OverlayByKey(chain, t.puts, t.removes, k);
  }

  // ---------------------------------------------------------------- first and later scans

  /** The first scan of a table shows the chain's rows under those that the transaction wrote, read or deleted. */
  lemma FirstScanShows(run: seq<Step>, chain: Contents, k: Bytes)
    requires !HasScan(run)
    ensures Lookup(Exec(run + [BeginScan(chain)]).cache, k)
         == if k in DeletesOf(run) then None
            else if k in Exec(run).cache then Some(Exec(run).cache[k]) else Lookup(chain, k)
  {
    RunsShowPuts(run);
    FlagsFollowSteps(run);
    RunsRecordSteps(run);
    assert OutsideScan(run);
    ExecAppend(run, BeginScan(chain));
    ReapplyAt(TxEmplace(Exec(run).(scanning := true), chain), k);
  }

  /** A later scan shows what the cache has, whatever others have committed since. */
  lemma LaterScanKeepsCache(run: seq<Step>, chain: Contents)
    requires HasScan(run)
    ensures Exec(run + [BeginScan(chain)]).cache == Exec(run).cache
  {
    FlagsFollowSteps(run);
    ExecAppend(run, BeginScan(chain));
  }

  // ---------------------------------------------------------------- index reads

  /**
   * What an index read answers, in every run and on every chain: the cached value if there is one, even
   * if the chain has another by now; nothing of a removed key; else what the chain has.
   */
  lemma IndexReadAnswers(run: seq<Step>, chain: Contents, k: Bytes)
    ensures var t := Exec(run);
            ReadResult(t, true, k, chain)
            == if k in t.cache then Some(t.cache[k]) else if k in t.removes then None else Lookup(chain, k)
    ensures k in Exec(run).cache ==> Exec(run + [Read(k, chain)]) == Exec(run)
  {
    var t := Exec(run);
    RunsShowPuts(run);
    ExecAppend(run, Read(k, chain));
    if k !in t.cache && k in chain {
      ReapplyAt(t.(cache := t.cache[k := chain[k]]), k);
    }
  }

  /**
   * With the cache, and no other commit in between, an index read agrees with the overlay of the chain
   * on a key exactly when that key is not a revived one.
   */
  lemma IndexReadAgreesIff(run: seq<Step>, chain: Contents, k: Bytes)
    requires ChainIs(run, chain)
    ensures var t := Exec(run);
            ReadResult(t, true, k, chain) == Lookup(Overlay(chain, t.puts, t.removes), k)
            <==> k !in Revived(run)
  {
    var t := Exec(run);
    RunsShowPuts(run);
    RunsAgreeWithChain(run, chain);
    RevivedAreCachedRemoved(run);
    OverlayByKey(chain, t.puts, t.removes, k);
    if k !in t.cache && k in chain {
      ReapplyAt(t.(cache := t.cache[k := chain[k]]), k);
    }
  }

  /**
   * Without the cache an index read agrees with the overlay in any state, except on a key that only
   * a pending put provides: the failed get returns before the pending puts are looked at.
   */
  lemma UncachedIndexReadAgreesIff(t: TxState, chain: Contents, k: Bytes)
    ensures ReadResult(t, false, k, chain) == Lookup(Overlay(chain, t.puts, t.removes), k)
       <==> k in chain || k !in KeysOf(t.puts) || k in t.removes
  {
    OverlayByKey(chain, t.puts, t.removes, k);
    if k in chain {
      ReapplyAt(t.(cache := t.cache[k := chain[k]]), k);
    }
  }

  // ---------------------------------------------------------------- repeatable reads

  ghost predicate Touches(run: seq<Step>, k: Bytes) {
    exists step :: step in run && (step.Write? || step.Delete?) && step.key == k
  }

  ghost predicate Protected(t: TxState, k: Bytes) {
    k in t.cache && k !in t.removes && k !in t.pending
  }

  lemma StepKeepsValue(t: TxState, step: Step, k: Bytes)
    requires PutsShow(t) && Protected(t, k)
    requires step.Write? || step.Delete? ==> step.key != k
    ensures Protected(StepTx(t, true, step), k) && Lookup(StepTx(t, true, step).cache, k) == Lookup(t.cache, k)
  {
    match step
    case Write(_, _) =>
    case Delete(_) =>
    case BeginScan(chain) => ReapplyAt(TxEmplace(TxActivateScan(t, true), chain), k);
    case EndScan =>
    case Read(key, chain) =>
      if key in chain {
        ReapplyAt(t.(cache := t.cache[key := chain[key]]), k);
      }
  }

  /**
   * A cached value stays what it is, whatever other sessions commit and whatever is scanned or read
   * later, until the transaction itself writes or deletes the key.
   */
  lemma {:induction false} RepeatableRead(before: seq<Step>, after: seq<Step>, k: Bytes)
    requires Protected(Exec(before), k) && !Touches(after, k)
    ensures Protected(Exec(before + after), k)
    ensures Lookup(Exec(before + after).cache, k) == Lookup(Exec(before).cache, k)
  {
    if after == [] {
      assert before + after == before;
    } else {
      var front, last := after[..|after| - 1], after[|after| - 1];
      assert last in after;
      assert forall step :: step in front ==> step in after;
      assert before + after == before + front + [last];
      RepeatableRead(before, front, k);
      RunsShowPuts(before + front);
      ExecAppend(before + front, last);
      StepKeepsValue(Exec(before + front), last, k);
    }
  }

  /** The longest key of a table is shorter than this. */
  ghost function LongerThanAll(keys: set<Bytes>): (n: nat)
    ensures forall k :: k in keys ==> |k| < n
  {
    if keys == {} then 0
    else
      var k :| k in keys;
      var n := LongerThanAll(keys - {k});
      if |k| < n then n else |k| + 1
  }

  lemma MissingKey(m: Contents) returns (j: Bytes)
    ensures j !in m
  {
    j := seq(LongerThanAll(m.Keys), i => 0);
  }

  /**
   * An index read of some other row that has to fetch it reapplies the pending operations, and takes
   * every revived row out of the session's sight.
   */
  lemma RevivedRowVanishes(run: seq<Step>, k: Bytes, j: Bytes, chain: Contents)
    requires k in Revived(run) && j !in Exec(run).cache && j in chain
    ensures k in Exec(run).cache && k !in Exec(run + [Read(j, chain)]).cache
  {
    var t := Exec(run);
    RevivedAreCachedRemoved(run);
    ExecAppend(run, Read(j, chain));
    ReapplyAt(t.(cache := t.cache[j := chain[j]]), k);
  }

  /**
   * Without writes or deletes of its own to the key, a transaction keeps seeing a cached value in all
   * runs, whatever others commit, exactly if no remove of the key is recorded or waiting.
   */
  lemma RepeatableReadIff(before: seq<Step>, k: Bytes)
    requires k in Exec(before).cache
    ensures (forall after :: !Touches(after, k) ==>
               Lookup(Exec(before + after).cache, k) == Lookup(Exec(before).cache, k))
       <==> Protected(Exec(before), k)
  {
    var t := Exec(before);
    if Protected(t, k) {
      forall after | !Touches(after, k)
        ensures Lookup(Exec(before + after).cache, k) == Lookup(t.cache, k)
      {
        RepeatableRead(before, after, k);
      }
    } else if k in t.pending {
      ExecAppend(before, EndScan);
      assert !Touches([EndScan], k);
    } else {
      var j := MissingKey(t.cache);
      RevivedAreCachedRemoved(before);
      RevivedRowVanishes(before, k, j, map[j := j]);
      assert !Touches([Read(j, map[j := j])], k);
    }
  }

  /** An index read that answers leaves the row in the cache. */
  lemma ReadCaches(run: seq<Step>, chain: Contents, k: Bytes)
    requires ReadResult(Exec(run), true, k, chain).Some?
    ensures Lookup(Exec(run + [Read(k, chain)]).cache, k) == ReadResult(Exec(run), true, k, chain)
    ensures Exec(run + [Read(k, chain)]).removes == Exec(run).removes
    ensures Exec(run + [Read(k, chain)]).pending == Exec(run).pending
  {
    ExecAppend(run, Read(k, chain));
  }

  lemma SecondReadAnswers(before: seq<Step>, k: Bytes, first: Contents, between: seq<Step>, second: Contents)
    requires Protected(Exec(before + [Read(k, first)]), k) && !Touches(between, k)
    ensures ReadResult(Exec(before + [Read(k, first)] + between), true, k, second)
         == Lookup(Exec(before + [Read(k, first)]).cache, k)
  {
    RepeatableRead(before + [Read(k, first)], between, k);
    IndexReadAnswers(before + [Read(k, first)] + between, second, k);
  }

  /** Some run and some chain on which an index read answers something else. */
  lemma SomeOtherAnswer(run: seq<Step>, k: Bytes, v: Bytes) returns (after: seq<Step>, chain: Contents)
    requires Lookup(Exec(run).cache, k) == Some(v) && !Protected(Exec(run), k)
    ensures !Touches(after, k) && ReadResult(Exec(run + after), true, k, chain) != Some(v)
  {
    RepeatableReadIff(run, k);
    after :| !Touches(after, k) && Lookup(Exec(run + after).cache, k) != Lookup(Exec(run).cache, k);
    chain := map[];
    IndexReadAnswers(run + after, chain, k);
  }

  /**
   * Index reads are repeatable: when one has returned a row, all later ones return the same row, whatever
   * others commit and whatever else the transaction does, exactly if no delete of the key came before,
   * neither one that took effect nor one that waits.
   */
  lemma RepeatableIndexReadsIff(before: seq<Step>, k: Bytes, first: Contents)
    requires ReadResult(Exec(before), true, k, first).Some?
    ensures (forall between, second :: !Touches(between, k) ==>
               ReadResult(Exec(before + [Read(k, first)] + between), true, k, second)
               == ReadResult(Exec(before), true, k, first))
       <==> k !in DeletesOf(before)
  {
    var run := before + [Read(k, first)];
    ReadCaches(before, first, k);
    RunsRecordSteps(before);
    assert Protected(Exec(run), k) <==> k !in DeletesOf(before);
    if Protected(Exec(run), k) {
      forall between, second | !Touches(between, k)
        ensures ReadResult(Exec(run + between), true, k, second) == ReadResult(Exec(before), true, k, first)
      {
        SecondReadAnswers(before, k, first, between, second);
      }
    } else {
      var between, second := SomeOtherAnswer(run, k, Exec(run).cache[k]);
    }
  }

  /** A transaction reads its own last write of a key that it has not deleted before. */
  lemma OwnWriteIsRead(before: seq<Step>, k: Bytes, v: Bytes, after: seq<Step>, chain: Contents)
    requires k !in DeletesOf(before) && !Touches(after, k)
    ensures ReadResult(Exec(before + [Write(k, v)] + after), true, k, chain) == Some(v)
  {
    RunsRecordSteps(before);
    ExecAppend(before, Write(k, v));
    RepeatableRead(before + [Write(k, v)], after, k);
    IndexReadAnswers(before + [Write(k, v)] + after, chain, k);
  }

  // ---------------------------------------------------------------- phantoms

  /** No index read of `after` has to fetch its key from the chain. */
  ghost predicate NeverFetches(before: seq<Step>, after: seq<Step>) {
    after == [] ||
    var front, last := after[..|after| - 1], after[|after| - 1];
    && NeverFetches(before, front)
    && (last.Read? ==> last.key in Exec(before + front).cache || last.key !in last.chain)
  }

  lemma StepShowsNoPhantom(t: TxState, step: Step, k: Bytes)
    requires t.filled && k !in t.pending
    requires step.Write? || step.Delete? ==> step.key != k
    requires step.Read? ==> step.key in t.cache || step.key !in step.chain
    ensures StepTx(t, true, step).filled && k !in StepTx(t, true, step).pending
    ensures Lookup(StepTx(t, true, step).cache, k) == Lookup(t.cache, k)
  {
  }

  /**
   * No phantoms: once the table was scanned, and as long as index reads need not fetch, no key appears,
   * disappears or changes unless the transaction itself writes or deletes it, whatever others commit and
   * however often the table is scanned.
   */
  lemma {:induction false} NoPhantoms(before: seq<Step>, after: seq<Step>, k: Bytes)
    requires HasScan(before) && k !in Exec(before).pending
    requires NeverFetches(before, after) && !Touches(after, k)
    ensures Exec(before + after).filled && k !in Exec(before + after).pending
    ensures Lookup(Exec(before + after).cache, k) == Lookup(Exec(before).cache, k)
  {
    FlagsFollowSteps(before);
    if after == [] {
      assert before + after == before;
    } else {
      var front, last := after[..|after| - 1], after[|after| - 1];
      assert last in after;
      assert forall step :: step in front ==> step in after;
      assert before + after == before + front + [last];
      NoPhantoms(before, front, k);
      ExecAppend(before + front, last);
      StepShowsNoPhantom(Exec(before + front), last, k);
    }
  }

  ghost predicate AbsentAndRemoved(t: TxState, k: Bytes) {
    k !in t.cache && k in t.removes
  }

  lemma StepKeepsAbsent(t: TxState, step: Step, k: Bytes)
    requires AbsentAndRemoved(t, k)
    requires step.Write? || step.Delete? ==> step.key != k
    ensures AbsentAndRemoved(StepTx(t, true, step), k)
  {
    match step
    case Write(_, _) =>
    case Delete(_) =>
    case BeginScan(chain) => ReapplyAt(TxEmplace(TxActivateScan(t, true), chain), k);
    case EndScan =>
    case Read(key, chain) =>
      if key in chain {
        ReapplyAt(t.(cache := t.cache[key := chain[key]]), k);
      }
  }

  lemma {:induction false} RemovedStaysAbsent(before: seq<Step>, after: seq<Step>, k: Bytes)
    requires AbsentAndRemoved(Exec(before), k) && !Touches(after, k)
    ensures AbsentAndRemoved(Exec(before + after), k)
  {
    if after == [] {
      assert before + after == before;
    } else {
      var front, last := after[..|after| - 1], after[|after| - 1];
      assert last in after;
      assert forall step :: step in front ==> step in after;
      assert before + after == before + front + [last];
      RemovedStaysAbsent(before, front, k);
      ExecAppend(before + front, last);
      StepKeepsAbsent(Exec(before + front), last, k);
    }
  }

  /** A row that was deleted outside a scan is not read again until the transaction writes it. */
  lemma OwnDeleteIsSeen(before: seq<Step>, k: Bytes, after: seq<Step>, chain: Contents)
    requires OutsideScan(before) && !Touches(after, k)
    ensures ReadResult(Exec(before + [Delete(k)] + after), true, k, chain) == None
  {
    DeleteTakesEffect(before, k);
    RemovedStaysAbsent(before + [Delete(k)], after, k);
    IndexReadAnswers(before + [Delete(k)] + after, chain, k);
  }

  /**
   * A phantom: an index read of a key that another session has committed shows its row, even in a cache
   * that was filled before.
   */
  lemma PhantomAppears(run: seq<Step>, k: Bytes, chain: Contents)
    requires k !in Exec(run).cache && k !in Exec(run).removes && k in chain
    ensures Lookup(Exec(run + [Read(k, chain)]).cache, k) == Some(chain[k])
  {
    var t := Exec(run);
    RunsShowPuts(run);
    ExecAppend(run, Read(k, chain));
    ReapplyAt(t.(cache := t.cache[k := chain[k]]), k);
  }

  /**
   * A key that is not cached stays away in all runs without writes or deletes of its own, whatever others
   * commit, exactly if the transaction has removed it. In particular a filled cache does not keep out
   * the keys that others commit later.
   */
  lemma NoPhantomsIff(before: seq<Step>, k: Bytes)
    requires k !in Exec(before).cache
    ensures (forall after :: !Touches(after, k) ==> k !in Exec(before + after).cache) <==> k in Exec(before).removes
  {
    if k in Exec(before).removes {
      forall after | !Touches(after, k)
        ensures k !in Exec(before + after).cache
      {
        RemovedStaysAbsent(before, after, k);
      }
    } else {
      var chain := map[k := k];
      PhantomAppears(before, k, chain);
      assert !Touches([Read(k, chain)], k);
    }
  }
}
