/**
 * The transaction counter that all connectors of the process share: an unsigned 64-bit number that is
 * incremented before each use. A connector that finds it at zero asks the node for the account's
 * transaction count and stores a seed. It keeps other connectors out meanwhile, but not senders.
 */
module Nonce {
  import opened Types

  const NONCES: nat := 0x1_0000_0000_0000_0000

  function Next(nonce: nat): nat {
    if nonce + 1 == NONCES then 0 else nonce + 1
  }

  /** The count minus one; for an account without transactions the subtraction wraps around. */
  function SeedFor(count: nat): nat {
    if count == 0 then NONCES - 1 else count - 1
  }

  /** The counter, and whether a connector that found it at zero has not stored its seed yet. */
  datatype Counter = Counter(nonce: nat, seeding: bool)

  datatype Step = Look | Store(count: Option<nat>) | Take

  /** While a connector is seeding, others wait with their look. An answer that cannot be read is not stored. */
  function StepCounter(c: Counter, step: Step): Counter {
    match step
    case Look => if c.seeding then c else c.(seeding := c.nonce == 0)
    case Store(count) =>
      if !c.seeding then c
      else Counter(if count.Some? then SeedFor(count.value) else c.nonce, false)
    case Take => c.(nonce := Next(c.nonce))
  }

  // ---------------------------------------------------------------- runs of all connectors

  function After(run: seq<Step>): Counter {
    if run == [] then Counter(0, false) else StepCounter(After(run[..|run| - 1]), run[|run| - 1])
  }

  /** The first number from `base` on that is not used. */
  function FirstFree(base: nat, used: set<nat>): nat
    decreases |used|
  {
    if base in used then FirstFree(base + 1, used - {base}) else base
  }

  /**
   * The nonces used once one more is taken. A nonce of zero is left out of the request, and the node uses
   * the first one that is free from `base` on, the account's pending count when the process started.
   */
  function SendOne(base: nat, used: seq<nat>, c: Counter): seq<nat> {
    used + [if Next(c.nonce) != 0 then Next(c.nonce) else FirstFree(base, set n | n in used)]
  }

  /** The nonces that the transactions of a run use, in order. */
  function Used(base: nat, run: seq<Step>): seq<nat> {
    if run == [] then []
    else
      var earlier := run[..|run| - 1];
      if run[|run| - 1].Take? then SendOne(base, Used(base, earlier), After(earlier)) else Used(base, earlier)
  }

  /** The run and the counts that nodes report leave room for more steps below the wrap-around. */
  ghost predicate Bounded(run: seq<Step>, room: nat) {
    && |run| + room + 1 < NONCES
    && forall i :: 0 <= i < |run| && run[i].Store? && run[i].count.Some? ==>
         run[i].count.value + |run| + room + 1 < NONCES
  }

  /**
   * The count that is stored exceeds the counter, from which nonces were used since the look. Before the
   * first nonce any count will do, but a count of zero only if the node has no pending transactions.
   */
  predicate SeedInOrder(base: nat, used: seq<nat>, c: Counter, step: Step) {
    step.Store? && c.seeding && step.count.Some? ==>
      if used == [] then base == 0 || step.count.value > 0 else c.nonce < step.count.value
  }

  predicate SeedsInOrder(base: nat, run: seq<Step>) {
    run == [] ||
    var earlier := run[..|run| - 1];
    && SeedsInOrder(base, earlier)
    && SeedInOrder(base, Used(base, earlier), After(earlier), run[|run| - 1])
  }

  /** The nonces from `first` on. */
  ghost predicate CountsUp(used: seq<nat>, first: nat) {
    forall i :: 0 <= i < |used| ==> used[i] == first + i
  }

  /** What a sequence of nonces in order looks like, next to its counter. */
  ghost predicate Ordered(base: nat, used: seq<nat>, c: Counter, room: nat) {
    && (forall i, j :: 0 <= i < j < |used| ==> used[i] < used[j])
    && (c.seeding ==> (CountsUp(used, 1) && |used| == c.nonce) || (CountsUp(used, 0) && |used| == c.nonce + 1))
    && (used != [] ==> used[|used| - 1] <= c.nonce && (used[0] == 0 ==> base == 0))
    && ((c.nonce == NONCES - 1 && used == [] && base == 0) || c.nonce + room + 1 < NONCES)
  }

  lemma AppendStep(base: nat, run: seq<Step>, step: Step)
    ensures After(run + [step]) == StepCounter(After(run), step)
    ensures Used(base, run + [step])
         == if step.Take? then SendOne(base, Used(base, run), After(run)) else Used(base, run)
    ensures SeedsInOrder(base, run + [step])
       <==> SeedsInOrder(base, run) && SeedInOrder(base, Used(base, run), After(run), step)
  {
    assert (run + [step])[..|run|] == run;
  }

  lemma TakeKeepsOrder(base: nat, used: seq<nat>, c: Counter, room: nat)
    requires Ordered(base, used, c, room + 1) && room + 2 < NONCES
    ensures Ordered(base, SendOne(base, used, c), StepCounter(c, Take), room)
  {
    if c.nonce == NONCES - 1 {
      assert (set n | n in used) == {};
      assert SendOne(base, used, c) == [0];
    }
  }

  lemma FirstBelowLast(used: seq<nat>)
    requires used != [] && forall i, j :: 0 <= i < j < |used| ==> used[i] < used[j]
    ensures |used| == 1 || used[0] < used[|used| - 1]
  {
  }

  lemma StepKeepsOrder(base: nat, used: seq<nat>, c: Counter, step: Step, room: nat)
    requires Ordered(base, used, c, room + 1) && SeedInOrder(base, used, c, step)
    requires step.Store? && step.count.Some? ==> step.count.value + room + 1 < NONCES
    requires room + 2 < NONCES
    ensures Ordered(base, if step.Take? then SendOne(base, used, c) else used, StepCounter(c, step), room)
  {
    if step.Take? {
      TakeKeepsOrder(base, used, c, room);
    } else if step.Look? && c.nonce == 0 && used != [] {
      FirstBelowLast(used);
    }
  }

  /** As long as no seed sets the counter back, the nonces used increase, whatever interleaves. */
  lemma {:induction false} NoncesIncrease(base: nat, run: seq<Step>, room: nat)
    requires SeedsInOrder(base, run) && Bounded(run, room)
    ensures Ordered(base, Used(base, run), After(run), room)
    ensures NoDuplicates(Used(base, run))
  {
    if run != [] {
      var earlier, last := run[..|run| - 1], run[|run| - 1];
      NoncesIncrease(base, earlier, room + 1);
      StepKeepsOrder(base, Used(base, earlier), After(earlier), last, room);
    }
  }

  // ---------------------------------------------------------------- more senders

  /** The run, and k senders more. */
  function Sends(run: seq<Step>, k: nat): seq<Step> {
    if k == 0 then run else Sends(run, k - 1) + [Take]
  }

  function SendMany(base: nat, used: seq<nat>, c: Counter, k: nat): (all: seq<nat>)
    ensures |all| == |used| + k && all[..|used|] == used
    decreases k
  {
    if k == 0 then used else SendMany(base, SendOne(base, used, c), StepCounter(c, Take), k - 1)
  }

  function CounterAfter(c: Counter, k: nat): Counter
    decreases k
  {
    if k == 0 then c else CounterAfter(StepCounter(c, Take), k - 1)
  }

  lemma {:induction false} SendManyLast(base: nat, used: seq<nat>, c: Counter, k: nat)
    ensures SendMany(base, used, c, k + 1) == SendOne(base, SendMany(base, used, c, k), CounterAfter(c, k))
    decreases k
  {
    if k > 0 {
      SendManyLast(base, SendOne(base, used, c), StepCounter(c, Take), k - 1);
    }
  }

  lemma {:induction false} CounterAfterLast(c: Counter, k: nat)
    ensures CounterAfter(c, k + 1) == StepCounter(CounterAfter(c, k), Take)
    decreases k
  {
    if k > 0 {
      CounterAfterLast(StepCounter(c, Take), k - 1);
    }
  }

  lemma {:induction false} SendsShape(run: seq<Step>, k: nat)
    ensures |Sends(run, k)| == |run| + k && Sends(run, k)[..|run|] == run
    ensures forall i :: |run| <= i < |run| + k ==> Sends(run, k)[i] == Take
  {
    if k > 0 {
      SendsShape(run, k - 1);
    }
  }

  lemma {:induction false} SendsMove(run: seq<Step>, k: nat)
    ensures After(Sends(run, k)) == CounterAfter(After(run), k)
  {
    if k > 0 {
      SendsMove(run, k - 1);
      AppendStep(0, Sends(run, k - 1), Take);
      CounterAfterLast(After(run), k - 1);
    }
  }

  lemma {:induction false} SendsUse(base: nat, run: seq<Step>, k: nat)
    ensures Used(base, Sends(run, k)) == SendMany(base, Used(base, run), After(run), k)
  {
    if k > 0 {
      SendsUse(base, run, k - 1);
      SendsMove(run, k - 1);
      AppendStep(base, Sends(run, k - 1), Take);
      SendManyLast(base, Used(base, run), After(run), k - 1);
    }
  }

  lemma {:induction false} SendsStayInOrder(base: nat, run: seq<Step>, k: nat)
    requires SeedsInOrder(base, run)
    ensures SeedsInOrder(base, Sends(run, k))
  {
    if k > 0 {
      SendsStayInOrder(base, run, k - 1);
      AppendStep(base, Sends(run, k - 1), Take);
    }
  }

  lemma SendsBounded(run: seq<Step>, n: nat, k: nat)
    requires Bounded(run, k) && n <= |run|
    ensures Bounded(Sends(run[..n], k), 0)
  {
    SendsShape(run[..n], k);
    var all := Sends(run[..n], k);
    forall i | 0 <= i < |all| && all[i].Store?
      ensures i < n && all[i] == run[i]
    {
      if i < n {
        assert all[i] == all[..n][i];
      }
    }
  }

  lemma {:induction false} SendsCountUp(base: nat, used: seq<nat>, c: Counter, k: nat, i: nat)
    requires c.nonce + k + 1 < NONCES && i < k
    ensures SendMany(base, used, c, k)[|used| + i] == c.nonce + 1 + i
    decreases k
  {
    var one, next := SendOne(base, used, c), StepCounter(c, Take);
    if i == 0 {
      assert SendMany(base, used, c, k)[..|one|] == one;
      assert SendMany(base, used, c, k)[|used|] == one[|used|];
    } else {
      SendsCountUp(base, one, next, k - 1, i - 1);
    }
  }

  lemma Repeats(used: seq<nat>, i: nat, j: nat)
    requires i < j < |used| && used[i] == used[j]
    ensures !NoDuplicates(used)
  {
  }

  /** From a counter that wrapped around, the node's choice comes first and then the numbers from one on. */
  lemma SendsFromTheTop(base: nat, used: seq<nat>, c: Counter, k: nat, i: nat)
    requires c.nonce == NONCES - 1 && 0 < i < k && k + 1 < NONCES
    ensures SendMany(base, used, c, k)[|used|] == FirstFree(base, set n | n in used)
    ensures SendMany(base, used, c, k)[|used| + i] == i
  {
    var one, next := SendOne(base, used, c), StepCounter(c, Take);
    assert SendMany(base, used, c, k) == SendMany(base, one, next, k - 1);
    SendsCountUp(base, one, next, k - 1, i - 1);
    assert SendMany(base, one, next, k - 1)[..|one|] == one;
    assert SendMany(base, one, next, k - 1)[|used|] == one[|used|];
  }

  lemma RepeatsAfterTheTop(base: nat, used: seq<nat>, c: Counter, all: seq<nat>)
    requires Ordered(base, used, c, base + 2) && c.seeding && used != [] && used <= all && |all| >= |used| + 2
    requires all[|used|] == FirstFree(base, set n | n in used) && all[|used| + 1] == 1
    ensures !NoDuplicates(all)
  {
    if c.nonce > 0 {
      assert used[1 - used[0]] == 1 == all[1 - used[0]];
      Repeats(all, 1 - used[0], |used| + 1);
    } else {
      assert used == [0] && (set n | n in used) == {0};
      assert FirstFree(1, {}) == 1 && {0} - {0} == {};
      Repeats(all, 1, 2);
    }
  }

  lemma StaleSeedRepeatsOne(base: nat, used: seq<nat>, c: Counter, count: nat)
    requires Ordered(base, used, c, base + 2) && !SeedInOrder(base, used, c, Store(Some(count)))
    ensures !NoDuplicates(SendMany(base, used, StepCounter(c, Store(Some(count))), base + 2))
  {
    var after, k := StepCounter(c, Store(Some(count))), base + 2;
    var all := SendMany(base, used, after, k);
    assert all[..|used|] == used;
    if used == [] {
      SendsFromTheTop(base, used, after, k, base);
      assert (set n | n in used) == {};
      Repeats(all, 0, base);
    } else if count == 0 {
      SendsFromTheTop(base, used, after, k, 1);
      RepeatsAfterTheTop(base, used, c, all);
    } else {
      SendsCountUp(base, used, after, k, 0);
      assert used[count - used[0]] == count == all[count - used[0]];
      Repeats(all, count - used[0], |used|);
    }
  }

  // ---------------------------------------------------------------- distinct nonces

  /** All transactions of a run, and of the next senders, use nonces of their own. */
  ghost predicate NextAreFresh(base: nat, run: seq<Step>) {
    NoDuplicates(Used(base, Sends(run, base + 2)))
  }

  /** After a seed that sets the counter back, one of the next senders uses a nonce again. */
  lemma StaleSeedRepeats(base: nat, run: seq<Step>, count: nat)
    requires SeedsInOrder(base, run) && Bounded(run, base + 2)
    requires !SeedInOrder(base, Used(base, run), After(run), Store(Some(count)))
    ensures !NextAreFresh(base, run + [Store(Some(count))])
  {
    NoncesIncrease(base, run, base + 2);
    AppendStep(base, run, Store(Some(count)));
    SendsUse(base, run + [Store(Some(count))], base + 2);
    StaleSeedRepeatsOne(base, Used(base, run), After(run), count);
  }

  lemma {:induction false} FirstStaleSeed(base: nat, run: seq<Step>) returns (n: nat, count: nat)
    requires !SeedsInOrder(base, run)
    ensures n < |run| && SeedsInOrder(base, run[..n]) && run[n] == Store(Some(count))
    ensures !SeedInOrder(base, Used(base, run[..n]), After(run[..n]), run[n])
  {
    var last := |run| - 1;
    if SeedsInOrder(base, run[..last]) {
      n, count := last, run[last].count.value;
    } else {
      n, count := FirstStaleSeed(base, run[..last]);
      assert run[..last][..n] == run[..n];
    }
  }

  lemma {:induction false} InOrderPrefix(base: nat, run: seq<Step>, n: nat)
    requires SeedsInOrder(base, run) && n <= |run|
    ensures SeedsInOrder(base, run[..n])
  {
    if n == |run| {
      assert run[..n] == run;
    } else {
      InOrderPrefix(base, run[..|run| - 1], n);
      assert run[..|run| - 1][..n] == run[..n];
    }
  }

  lemma FreshAt(base: nat, run: seq<Step>, n: nat)
    requires SeedsInOrder(base, run) && Bounded(run, base + 2) && n <= |run|
    ensures NextAreFresh(base, run[..n])
  {
    InOrderPrefix(base, run, n);
    SendsStayInOrder(base, run[..n], base + 2);
    SendsBounded(run, n, base + 2);
    NoncesIncrease(base, Sends(run[..n], base + 2), 0);
  }

  lemma StaleAt(base: nat, run: seq<Step>) returns (n: nat)
    requires !SeedsInOrder(base, run) && Bounded(run, base + 2)
    ensures n <= |run| && !NextAreFresh(base, run[..n])
  {
    var i, count := FirstStaleSeed(base, run);
    StaleSeedRepeats(base, run[..i], count);
    n := i + 1;
    assert run[..n] == run[..i] + [Store(Some(count))];
  }

  /**
   * However connectors and senders interleave: at every moment of a run the nonces used, and those of the
   * next senders, are pairwise distinct exactly if no connector stores a count that does not exceed the
   * counter; before the first nonce, exactly if none stores a count of zero while the node has pending
   * transactions.
   */
  lemma NoncesDistinctIff(base: nat, run: seq<Step>)
    requires Bounded(run, base + 2)
    ensures (forall n :: 0 <= n <= |run| ==> NextAreFresh(base, run[..n])) <==> SeedsInOrder(base, run)
  {
    if SeedsInOrder(base, run) {
      forall n | 0 <= n <= |run|
        ensures NextAreFresh(base, run[..n])
      {
        FreshAt(base, run, n);
      }
    } else {
      var n := StaleAt(base, run);
    }
  }

  lemma SeedBehindSender(base: nat, run: seq<Step>)
    requires After(run) == Counter(0, false) && Used(base, run) == []
    ensures Used(base, run + [Look] + [Take] + [Store(Some(1))] + [Take]) == [1, 1]
  {
    AppendStep(base, run, Look);
    AppendStep(base, run + [Look], Take);
    AppendStep(base, run + [Look] + [Take], Store(Some(1)));
    AppendStep(base, run + [Look] + [Take] + [Store(Some(1))], Take);
  }

  /**
   * A second connector looks before the first nonce goes out, and asks the node before that transaction
   * is mined: it stores the old count, and nonce 1 goes out twice.
   */
  lemma SecondConnectorRepeats(base: nat)
    ensures Used(base, [] + [Look] + [Store(Some(1))] + [Look] + [Take] + [Store(Some(1))] + [Take]) == [1, 1]
  {
    AppendStep(base, [], Look);
    AppendStep(base, [] + [Look], Store(Some(1)));
    SeedBehindSender(base, [] + [Look] + [Store(Some(1))]);
  }

  /**
   * Right after a seed the counter moves to the account's transaction count; a count of zero leaves the
   * choice to the node.
   */
  lemma FirstNonceIsCount(base: nat, run: seq<Step>, count: nat)
    requires count < NONCES && After(run).seeding
    ensures After(run + [Store(Some(count))] + [Take]).nonce == count
    ensures Used(base, run + [Store(Some(count))] + [Take])
         == Used(base, run) + [if count == 0 then FirstFree(base, set n | n in Used(base, run)) else count]
  {
    AppendStep(base, run, Store(Some(count)));
    AppendStep(base, run + [Store(Some(count))], Take);
  }

  // ---------------------------------------------------------------- the counter

  class NonceCounter {
    var nonce: nat
    var seeding: bool

    ghost predicate Valid()
      reads this
    {
      nonce < NONCES
    }

    function State(): Counter
      reads this
    {
      Counter(nonce, seeding)
    }

    constructor ()
      ensures Valid() && State() == After([])
    {
      nonce, seeding := 0, false;
    }

    /** A new connector takes the lock and looks; it keeps the lock if it has to seed the counter. */
    method LookAt()
      requires Valid() && !seeding
      modifies this
      ensures Valid() && State() == StepCounter(old(State()), Look)
    {
      seeding := nonce == 0;
    }

    /** The node's answer arrives, or cannot be read; senders may have moved the counter meanwhile. */
    method Seed(count: Option<nat>)
      requires Valid() && seeding && (count.Some? ==> count.value < NONCES)
      modifies this
      ensures Valid() && State() == StepCounter(old(State()), Store(count))
      ensures count.Some? ==> Next(nonce) == count.value
    {
      if count.Some? {
        nonce := SeedFor(count.value);
      }
      seeding := false;
    }

    method TakeNext() returns (n: nat)
      requires Valid()
      modifies this`nonce
      ensures Valid() && n == nonce && State() == StepCounter(old(State()), Take)
    {
      nonce := Next(nonce);
      n := nonce;
    }

    /** Other senders take any number of nonces, below the wrap-around. */
    method OthersTake() returns (ghost k: nat)
      requires Valid()
      modifies this`nonce
      ensures Valid() && Next(nonce) == Next(old(nonce)) + k
    {
      var more: nat :| Next(nonce) + more < NONCES;
      k := more;
      if more > 0 {
        nonce := Next(nonce) + more - 1;
      }
    }

    /**
     * Sends a transaction, and again with a new nonce for as long as the node rejects the nonce, as too
     * low or as known already, with other senders in between. `rejects` says whether the node rejects a
     * nonce at the i-th try; it never rejects nonces from `limit` on. The nonces tried increase, and the
     * last one is the first that is not rejected.
     */
    method Call(limit: nat, rejects: (nat, nat) -> bool, i: nat) returns (n: nat, ghost tried: seq<nat>)
      requires Valid() && limit < NONCES && forall j: nat, m: nat :: rejects(j, m) ==> 0 < m < limit
      modifies this`nonce
      ensures Valid() && n == nonce >= Next(old(nonce))
      ensures tried != [] && tried[|tried| - 1] == n
      ensures forall j :: 0 <= j < |tried| ==> (rejects(i + j, tried[j]) <==> j < |tried| - 1)
      ensures forall j :: 0 <= j < |tried| ==> Next(old(nonce)) <= tried[j]
      ensures forall j, k :: 0 <= j < k < |tried| ==> tried[j] < tried[k]
      decreases if Next(nonce) < limit then limit - Next(nonce) else 0
    {
      var _ := OthersTake();
      n := TakeNext();
      tried := [n];
      if rejects(i, n) {
        ghost var more;
        n, more := Call(limit, rejects, i + 1);
        tried := tried + more;
      }
    }
  }
}
