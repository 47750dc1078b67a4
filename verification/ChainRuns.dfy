/**
 * Runs over all contracts of a chain, where one call can commit a transaction in several of them:
 * however the calls interleave, all tables together are those of a serial execution in which each
 * transaction's writes happen at once, in all its tables, at its commit.
 */
module ChainRuns {
  import opened Types
  import opened TableStorage
  import opened Serialisability
  import Transaction

  type Address = nat

  type Contracts = map<Address, Store>

  /**
   * A call to one contract, or the call that commits an id in all contracts listed. Calls that revert are
   * not part of a run.
   */
  datatype Call = On(address: Address, step: Step) | CommitAll(block: BlockNumber, id: TxId, addresses: seq<Address>)

  function Empty(addresses: set<Address>): Contracts {
    map a | a in addresses :: EMPTY_STORE
  }

  /** A call that names a contract that is not there would revert, and changes nothing. */
  function StepAll(w: Contracts, call: Call): Contracts {
    match call
    case On(a, step) => if a in w then w[a := StepStore(w[a], step)] else w
    case CommitAll(block, id, list) =>
      if forall i :: 0 <= i < |list| ==> list[i] in w then Transaction.CommitEach(w, block, id, list) else w
  }

  function ExecAll(addresses: set<Address>, run: seq<Call>): (w: Contracts)
    ensures w.Keys == addresses
  {
    if run == [] then Empty(addresses) else StepAll(ExecAll(addresses, run[..|run| - 1]), run[|run| - 1])
  }

  /** Every call of the run finds its contracts. */
  ghost predicate Deployed(addresses: set<Address>, run: seq<Call>) {
    forall i :: 0 <= i < |run| ==>
      match run[i]
      case On(a, _) => a in addresses
      case CommitAll(_, _, list) => forall j :: 0 <= j < |list| ==> list[j] in addresses
  }

  /** What one contract sees of a call. */
  function Seen(call: Call, a: Address): seq<Step> {
    match call
    case On(b, step) => if a == b then [step] else []
    case CommitAll(block, id, list) => if a in list then [Commit(block, id)] else []
  }

  function SeenRun(run: seq<Call>, a: Address): seq<Step> {
    if run == [] then [] else SeenRun(run[..|run| - 1], a) + Seen(run[|run| - 1], a)
  }

  lemma StepAllAt(w: Contracts, call: Call, a: Address)
    requires a in w && (call.CommitAll? ==> forall i :: 0 <= i < |call.addresses| ==> call.addresses[i] in w)
    ensures a in StepAll(w, call)
    ensures StepAll(w, call)[a] == if Seen(call, a) == [] then w[a] else StepStore(w[a], Seen(call, a)[0])
  {
    if call.CommitAll? {
      Transaction.CommitEachAt(w, call.block, call.id, call.addresses, a);
    }
  }

  lemma SeenStep(run: seq<Call>, a: Address)
    requires run != []
    ensures var earlier, seen := SeenRun(run[..|run| - 1], a), Seen(run[|run| - 1], a);
            Serialisability.Exec(SeenRun(run, a))
            == if seen == [] then Serialisability.Exec(earlier) else StepStore(Serialisability.Exec(earlier), seen[0])
  {
    var earlier, seen, all := SeenRun(run[..|run| - 1], a), Seen(run[|run| - 1], a), SeenRun(run, a);
    if seen == [] {
      assert all == earlier;
    } else {
      assert all[..|all| - 1] == earlier && all[|all| - 1] == seen[0];
    }
  }

  /** Each contract goes through the run that it sees. */
  lemma {:induction false} ExecAllAt(addresses: set<Address>, run: seq<Call>, a: Address)
    requires Deployed(addresses, run) && a in addresses
    ensures ExecAll(addresses, run)[a] == Serialisability.Exec(SeenRun(run, a))
  {
    if run != [] {
      var earlier, last := run[..|run| - 1], run[|run| - 1];
      ExecAllAt(addresses, earlier, a);
      StepAllAt(ExecAll(addresses, earlier), last, a);
      SeenStep(run, a);
    }
  }

  // ---------------------------------------------------------------- the serial run

  /** One write of a serial run: operations on several contracts, all at once. */
  datatype Write = Write(block: BlockNumber, parts: map<Address, seq<Op<Bytes>>>)

  function Perform(w: Contracts, write: Write): Contracts {
    map a | a in w :: if a in write.parts then StoreReplay(w[a], write.block, write.parts[a]) else w[a]
  }

  function PerformAll(addresses: set<Address>, writes: seq<Write>): (w: Contracts)
    ensures w.Keys == addresses
  {
    if writes == [] then Empty(addresses)
    else Perform(PerformAll(addresses, writes[..|writes| - 1]), writes[|writes| - 1])
  }

  /** The writes of a run grow by at most one with each call. */
  function WriteOf(earlier: seq<Call>, last: Call): seq<Write> {
    match last
    case On(a, Direct(block, ops)) => [Write(block, map[a := ops])]
    case On(a, Commit(block, id)) => [Write(block, map[a := Staged(SeenRun(earlier, a), id)])]
    case On(_, _) => []
    case CommitAll(block, id, list) => [Write(block, map a | a in list :: Staged(SeenRun(earlier, a), id))]
  }

  /**
   * Direct calls as they are, and at the place of each commit all that its transaction staged, in all
   * contracts listed. Staging and cleaning leave no trace of their own.
   */
  function SerialWrites(run: seq<Call>): seq<Write> {
    if run == [] then [] else SerialWrites(run[..|run| - 1]) + WriteOf(run[..|run| - 1], run[|run| - 1])
  }

  /** The serial run of what one contract sees, with its part of the last write if it has one. */
  function SerialOf(earlier: seq<Call>, last: Call, a: Address): seq<Step> {
    var before := Serial(SeenRun(earlier, a));
    match last
    case On(b, Direct(block, ops)) => if a == b then before + [Direct(block, ops)] else before
    case On(b, Commit(block, id)) =>
      if a == b then before + [Direct(block, Staged(SeenRun(earlier, a), id))] else before
    case On(_, _) => before
    case CommitAll(block, id, list) =>
      if a in list then before + [Direct(block, Staged(SeenRun(earlier, a), id))] else before
  }

  lemma SerialStep(run: seq<Call>, a: Address)
    requires run != []
    ensures Serial(SeenRun(run, a)) == SerialOf(run[..|run| - 1], run[|run| - 1], a)
  {
    var earlier, last := run[..|run| - 1], run[|run| - 1];
    var seen := SeenRun(run, a);
    if Seen(last, a) == [] {
      assert seen == SeenRun(earlier, a);
    } else {
      assert seen[..|seen| - 1] == SeenRun(earlier, a);
    }
  }

  lemma PerformOneAt(w: Contracts, earlier: seq<Call>, last: Call, a: Address)
    requires a in w && w[a] == Serialisability.Exec(Serial(SeenRun(earlier, a)))
    ensures var writes := WriteOf(earlier, last);
            (if writes == [] then w else Perform(w, writes[0]))[a]
            == Serialisability.Exec(SerialOf(earlier, last, a))
  {
    var before, after := Serial(SeenRun(earlier, a)), SerialOf(earlier, last, a);
    if after != before {
      assert after[..|after| - 1] == before;
    }
  }

  lemma PerformMore(addresses: set<Address>, writes: seq<Write>, more: seq<Write>)
    requires |more| <= 1
    ensures PerformAll(addresses, writes + more)
         == if more == [] then PerformAll(addresses, writes) else Perform(PerformAll(addresses, writes), more[0])
  {
    if more == [] {
      assert writes + more == writes;
    } else {
      assert (writes + more)[..|writes|] == writes;
    }
  }

  lemma {:induction false} PerformAllAt(addresses: set<Address>, run: seq<Call>, a: Address)
    requires a in addresses
    ensures PerformAll(addresses, SerialWrites(run))[a] == Serialisability.Exec(Serial(SeenRun(run, a)))
  {
    if run != [] {
      var earlier, last := run[..|run| - 1], run[|run| - 1];
      PerformAllAt(addresses, earlier, a);
      SerialStep(run, a);
      PerformOneAt(PerformAll(addresses, SerialWrites(earlier)), earlier, last, a);
      PerformMore(addresses, SerialWrites(earlier), WriteOf(earlier, last));
    }
  }

  /**
   * Serialisability over all tables: any run leaves in every contract the data and the key list that
   * the serial writes leave, each transaction's writes to all its tables being one of them.
   */
  lemma ChainSerialisable(addresses: set<Address>, run: seq<Call>, a: Address)
    requires Deployed(addresses, run) && a in addresses
    ensures ExecAll(addresses, run)[a].keyList == PerformAll(addresses, SerialWrites(run))[a].keyList
    ensures ExecAll(addresses, run)[a].data == PerformAll(addresses, SerialWrites(run))[a].data
  {
    ExecAllAt(addresses, run, a);
    PerformAllAt(addresses, run, a);
    Serialisable(SeenRun(run, a));
  }

  lemma {:induction false} SerialWritesGrow(run: seq<Call>, n: nat)
    requires n <= |run|
    ensures SerialWrites(run[..n]) <= SerialWrites(run)
  {
    if n == |run| {
      assert run[..n] == run;
    } else {
      SerialWritesGrow(run[..|run| - 1], n);
      assert run[..|run| - 1][..n] == run[..n];
    }
  }

  /** At every moment of a run all tables together are those after some of its serial writes, none of them in part. */
  lemma NoTransactionInPart(addresses: set<Address>, run: seq<Call>, n: nat)
    requires Deployed(addresses, run) && n <= |run|
    ensures SerialWrites(run[..n]) <= SerialWrites(run)
    ensures forall a :: a in addresses ==>
              && ExecAll(addresses, run[..n])[a].keyList == PerformAll(addresses, SerialWrites(run[..n]))[a].keyList
              && ExecAll(addresses, run[..n])[a].data == PerformAll(addresses, SerialWrites(run[..n]))[a].data
  {
    SerialWritesGrow(run, n);
    forall a | a in addresses
      ensures ExecAll(addresses, run[..n])[a].keyList == PerformAll(addresses, SerialWrites(run[..n]))[a].keyList
      ensures ExecAll(addresses, run[..n])[a].data == PerformAll(addresses, SerialWrites(run[..n]))[a].data
    {
      ChainSerialisable(addresses, run[..n], a);
    }
  }
}
