/**
 * What a sequence of writes means for a table: `Replay` runs the writes one by one, `Overlay` says
 * outright what a table with pending puts and removes looks like.
 */
module TableSpec {
  import opened Types

  function Apply<V>(m: map<Bytes, V>, op: Op<V>): map<Bytes, V> {
    match op
    case PutOp(k, v) => m[k := v]
    case RemoveOp(k) => m - {k}
  }

  function Replay<V>(m: map<Bytes, V>, ops: seq<Op<V>>): map<Bytes, V> {
    if ops == [] then m else Apply(Replay(m, ops[..|ops| - 1]), ops[|ops| - 1])
  }

  function PutOps(rows: seq<Row>): seq<Op<Bytes>> {
    seq(|rows|, i requires 0 <= i < |rows| => PutOp(rows[i].key, rows[i].value))
  }

  function RemoveOps(keys: seq<Bytes>): seq<Op<Bytes>> {
    seq(|keys|, i requires 0 <= i < |keys| => RemoveOp(keys[i]))
  }

  /** The order in which a batch commit stages its operations: all puts, then all removes. */
  function BatchOps(puts: seq<Row>, removes: seq<Bytes>): seq<Op<Bytes>> {
    PutOps(puts) + RemoveOps(removes)
  }

  function KeysOf(rows: seq<Row>): set<Bytes> {
    set r | r in rows :: r.key
  }

  /** The value of the last row with key k. */
  function LastValue(rows: seq<Row>, k: Bytes): Bytes
    requires k in KeysOf(rows)
  {
    var last := rows[|rows| - 1];
    if last.key == k then last.value
    else
      assert forall r :: r in rows ==> r in rows[..|rows| - 1] || r == last;
      LastValue(rows[..|rows| - 1], k)
  }

  /** A table with pending puts and removes: a removed key is absent, a put key has its last value. */
  function Overlay(m: Contents, puts: seq<Row>, removes: seq<Bytes>): Contents {
    map k | k in m.Keys + KeysOf(puts) && k !in removes ::
      if k in KeysOf(puts) then LastValue(puts, k) else m[k]
  }

  // ---------------------------------------------------------------- what Replay does to one key

  /** What a sequence of writes leaves behind at one key. */
  datatype Fate<+V> = Untouched | Written(value: V) | Erased

  function FateOf<V>(op: Op<V>): Fate<V> {
    match op
    case PutOp(_, v) => Written(v)
    case RemoveOp(_) => Erased
  }

  function LastFate<V>(ops: seq<Op<V>>, k: Bytes): Fate<V> {
    if ops == [] then Untouched
    else if ops[|ops| - 1].key == k then FateOf(ops[|ops| - 1])
    else LastFate(ops[..|ops| - 1], k)
  }

  function Settle<V>(before: Option<V>, fate: Fate<V>): Option<V> {
    match fate
    case Untouched => before
    case Written(v) => Some(v)
    case Erased => None
  }

  lemma {:induction false} ReplayByKey<V>(m: map<Bytes, V>, ops: seq<Op<V>>, k: Bytes)
    ensures Lookup(Replay(m, ops), k) == Settle(Lookup(m, k), LastFate(ops, k))
  {
    if ops != [] {
      ReplayByKey(m, ops[..|ops| - 1], k);
    }
  }

  lemma {:induction false} ReplayConcat<V>(m: map<Bytes, V>, a: seq<Op<V>>, b: seq<Op<V>>)
    ensures Replay(m, a + b) == Replay(Replay(m, a), b)
  {
    if b == [] {
      assert a + b == a;
    } else {
      var front := b[..|b| - 1];
      assert (a + b)[..|a + b| - 1] == a + front;
      ReplayConcat(m, a, front);
    }
  }

  lemma {:induction false} LastFateConcat<V>(a: seq<Op<V>>, b: seq<Op<V>>, k: Bytes)
    ensures LastFate(a + b, k) == if LastFate(b, k).Untouched? then LastFate(a, k) else LastFate(b, k)
  {
    if b == [] {
      assert a + b == a;
    } else {
      assert (a + b)[..|a + b| - 1] == a + b[..|b| - 1];
      LastFateConcat(a, b[..|b| - 1], k);
    }
  }

  /** The fate of a key comes from one of the writes to it. */
  lemma {:induction false} LastFateWitness<V>(ops: seq<Op<V>>, k: Bytes)
    ensures LastFate(ops, k).Untouched? <==> forall op :: op in ops ==> op.key != k
    ensures !LastFate(ops, k).Untouched? ==>
              exists op :: op in ops && op.key == k && LastFate(ops, k) == FateOf(op)
  {
    if ops != [] {
      var front, last := ops[..|ops| - 1], ops[|ops| - 1];
      assert ops == front + [last];
      if last.key != k {
        LastFateWitness(front, k);
      }
    }
  }

  lemma {:induction false} FateOfPuts(rows: seq<Row>, k: Bytes)
    ensures LastFate(PutOps(rows), k) ==
            if k in KeysOf(rows) then Written(LastValue(rows, k)) else Untouched
  {
    if rows != [] {
      var front := rows[..|rows| - 1];
      assert PutOps(rows)[..|rows| - 1] == PutOps(front);
      assert rows == front + [rows[|rows| - 1]];
      FateOfPuts(front, k);
    }
  }

  lemma {:induction false} FateOfRemoves(keys: seq<Bytes>, k: Bytes)
    ensures LastFate(RemoveOps(keys), k) == if k in keys then Erased else Untouched
  {
    if keys != [] {
      var front := keys[..|keys| - 1];
      assert RemoveOps(keys)[..|keys| - 1] == RemoveOps(front);
      assert keys == front + [keys[|keys| - 1]];
      FateOfRemoves(front, k);
    }
  }

  // ---------------------------------------------------------------- batch order and the overlay

  lemma OverlayByKey(m: Contents, puts: seq<Row>, removes: seq<Bytes>, k: Bytes)
    ensures Lookup(Overlay(m, puts, removes), k)
         == if k in removes then None
            else if k in KeysOf(puts) then Some(LastValue(puts, k)) else Lookup(m, k)
  {
  }

  /** Committing a batch, all puts and then all removes, yields the overlay of the table. */
  lemma BatchCommitIsOverlay(m: Contents, puts: seq<Row>, removes: seq<Bytes>)
    ensures Replay(m, BatchOps(puts, removes)) == Overlay(m, puts, removes)
  {
    var ops := BatchOps(puts, removes);
    forall k
      ensures Lookup(Replay(m, ops), k) == Lookup(Overlay(m, puts, removes), k)
    {
      ReplayByKey(m, ops, k);
      LastFateConcat(PutOps(puts), RemoveOps(removes), k);
      FateOfPuts(puts, k);
      FateOfRemoves(removes, k);
      OverlayByKey(m, puts, removes, k);
    }
    MapsEqualByLookup(Replay(m, ops), Overlay(m, puts, removes));
  }

  /** The operations of a batch that got staged when only some of its calls took effect. */
  function StagedPart(puts: seq<Row>, removes: seq<Bytes>, gotPuts: bool, gotRemoves: bool): seq<Op<Bytes>> {
    (if gotPuts then PutOps(puts) else []) + (if gotRemoves then RemoveOps(removes) else [])
  }

  /** What did not get staged would have changed nothing. */
  ghost predicate MissingIsIdle(m: Contents, puts: seq<Row>, removes: seq<Bytes>, gotPuts: bool, gotRemoves: bool) {
    && (gotPuts || forall k :: k in KeysOf(puts) && k !in removes ==> Lookup(m, k) == Some(LastValue(puts, k)))
    && (gotRemoves || forall k :: k in removes ==> k !in m && (gotPuts ==> k !in KeysOf(puts)))
  }

  /**
   * When only a part of a batch got staged, the commit still yields the overlay exactly if what is
   * missing would have changed nothing.
   */
  lemma PartialBatchIff(m: Contents, puts: seq<Row>, removes: seq<Bytes>, gotPuts: bool, gotRemoves: bool)
    ensures Replay(m, StagedPart(puts, removes, gotPuts, gotRemoves)) == Overlay(m, puts, removes)
       <==> MissingIsIdle(m, puts, removes, gotPuts, gotRemoves)
  {
    var somePuts, someRemoves := if gotPuts then puts else [], if gotRemoves then removes else [];
    assert StagedPart(puts, removes, gotPuts, gotRemoves) == BatchOps(somePuts, someRemoves);
    BatchCommitIsOverlay(m, somePuts, someRemoves);
    forall k
      ensures Lookup(Overlay(m, somePuts, someRemoves), k) == Lookup(Overlay(m, puts, removes), k)
         <==> && (gotPuts || !(k in KeysOf(puts) && k !in removes) || Lookup(m, k) == Some(LastValue(puts, k)))
              && (gotRemoves || k !in removes || (k !in m && (gotPuts ==> k !in KeysOf(puts))))
    {
      OverlayByKey(m, somePuts, someRemoves, k);
      OverlayByKey(m, puts, removes, k);
    }
    if forall k :: Lookup(Overlay(m, somePuts, someRemoves), k) == Lookup(Overlay(m, puts, removes), k) {
      MapsEqualByLookup(Overlay(m, somePuts, someRemoves), Overlay(m, puts, removes));
    }
  }

  lemma OverlayIdempotent(m: Contents, puts: seq<Row>, removes: seq<Bytes>)
    ensures Overlay(Overlay(m, puts, removes), puts, removes) == Overlay(m, puts, removes)
  {
    var once := Overlay(m, puts, removes);
    forall k
      ensures Lookup(Overlay(once, puts, removes), k) == Lookup(once, k)
    {
      OverlayByKey(m, puts, removes, k);
      OverlayByKey(once, puts, removes, k);
    }
    MapsEqualByLookup(Overlay(once, puts, removes), once);
  }

  // ---------------------------------------------------------------- the same operations in another order

  /** How often an operation occurs. */
  function Count(ops: seq<Op<Bytes>>, x: Op<Bytes>): nat {
    if ops == [] then 0
    else Count(ops[..|ops| - 1], x) + if ops[|ops| - 1] == x then 1 else 0
  }

  /** Each operation occurs as often in one as in the other. */
  ghost predicate Permutes(a: seq<Op<Bytes>>, b: seq<Op<Bytes>>) {
    forall x :: Count(a, x) == Count(b, x)
  }

  lemma CountAppend(ops: seq<Op<Bytes>>, y: Op<Bytes>, x: Op<Bytes>)
    ensures Count(ops + [y], x) == Count(ops, x) + if y == x then 1 else 0
  {
    assert (ops + [y])[..|ops|] == ops;
  }

  lemma {:induction false} CountConcat(a: seq<Op<Bytes>>, b: seq<Op<Bytes>>, x: Op<Bytes>)
    ensures Count(a + b, x) == Count(a, x) + Count(b, x)
  {
    if b == [] {
      assert a + b == a;
    } else {
      assert (a + b)[..|a + b| - 1] == a + b[..|b| - 1];
      CountConcat(a, b[..|b| - 1], x);
    }
  }

  lemma {:induction false} CountIsMultiplicity(ops: seq<Op<Bytes>>, x: Op<Bytes>)
    ensures Count(ops, x) == multiset(ops)[x]
  {
    if ops != [] {
      var front, last := ops[..|ops| - 1], ops[|ops| - 1];
      assert ops == front + [last];
      CountIsMultiplicity(front, x);
    }
  }

  lemma {:induction false} CountPositive(ops: seq<Op<Bytes>>, x: Op<Bytes>)
    ensures Count(ops, x) > 0 <==> x in ops
  {
    if ops != [] {
      var front, last := ops[..|ops| - 1], ops[|ops| - 1];
      assert ops == front + [last];
      CountPositive(front, x);
    }
  }

  /** Permuting is having the same multiset of operations. */
  lemma PermutesMultisets(a: seq<Op<Bytes>>, b: seq<Op<Bytes>>)
    ensures Permutes(a, b) <==> multiset(a) == multiset(b)
  {
    forall x
      ensures Count(a, x) == multiset(a)[x] && Count(b, x) == multiset(b)[x]
    {
      CountIsMultiplicity(a, x);
      CountIsMultiplicity(b, x);
    }
    if Permutes(a, b) {
      assert forall x :: multiset(a)[x] == multiset(b)[x];
    }
  }

  lemma PermutesLength(a: seq<Op<Bytes>>, b: seq<Op<Bytes>>)
    requires Permutes(a, b)
    ensures |a| == |b|
  {
    PermutesMultisets(a, b);
    assert |multiset(a)| == |a| && |multiset(b)| == |b|;
  }

  lemma OnePutMore(ops: seq<Op<Bytes>>, puts: seq<Row>, removes: seq<Bytes>, key: Bytes, value: Bytes)
    requires Permutes(ops, BatchOps(puts, removes))
    ensures Permutes(ops + [PutOp(key, value)], BatchOps(puts + [Row(key, value)], removes))
  {
    var op := PutOp(key, value);
    assert PutOps(puts + [Row(key, value)]) == PutOps(puts) + [op];
    forall x
      ensures Count(ops + [op], x) == Count(BatchOps(puts + [Row(key, value)], removes), x)
    {
      CountAppend(ops, op, x);
      CountAppend(PutOps(puts), op, x);
      CountConcat(PutOps(puts), RemoveOps(removes), x);
      CountConcat(PutOps(puts) + [op], RemoveOps(removes), x);
    }
  }

  lemma RemovesMore(ops: seq<Op<Bytes>>, puts: seq<Row>, removes: seq<Bytes>, more: seq<Bytes>)
    requires Permutes(ops, BatchOps(puts, removes))
    ensures Permutes(ops + RemoveOps(more), BatchOps(puts, removes + more))
  {
    assert BatchOps(puts, removes + more) == BatchOps(puts, removes) + RemoveOps(more);
    forall x
      ensures Count(ops + RemoveOps(more), x) == Count(BatchOps(puts, removes + more), x)
    {
      CountConcat(ops, RemoveOps(more), x);
      CountConcat(BatchOps(puts, removes), RemoveOps(more), x);
    }
  }

  // ---------------------------------------------------------------- independence of arrival order

  /** Any two writes to the same key are the same write. */
  ghost predicate ConflictFree(ops: seq<Op<Bytes>>) {
    forall x, y :: x in ops && y in ops && x.key == y.key ==> x == y
  }

  lemma ConflictFreeOrderIndependent(m: Contents, ops: seq<Op<Bytes>>, arrived: seq<Op<Bytes>>)
    requires ConflictFree(ops)
    requires Permutes(ops, arrived)
    ensures Replay(m, arrived) == Replay(m, ops)
  {
    forall op
      ensures op in arrived <==> op in ops
    {
      CountPositive(ops, op);
      CountPositive(arrived, op);
    }
    forall k
      ensures Lookup(Replay(m, arrived), k) == Lookup(Replay(m, ops), k)
    {
      ReplayByKey(m, ops, k);
      ReplayByKey(m, arrived, k);
      LastFateWitness(ops, k);
      LastFateWitness(arrived, k);
    }
    MapsEqualByLookup(Replay(m, arrived), Replay(m, ops));
  }

  /** The arrival order that delivers the write at index i last. */
  function MoveLast(ops: seq<Op<Bytes>>, i: nat): seq<Op<Bytes>>
    requires i < |ops|
  {
    ops[..i] + ops[i + 1..] + [ops[i]]
  }

  lemma MoveLastPermutes(ops: seq<Op<Bytes>>, i: nat)
    requires i < |ops|
    ensures Permutes(ops, MoveLast(ops, i))
  {
    forall x
      ensures Count(ops, x) == Count(MoveLast(ops, i), x)
    {
      assert ops == ops[..i] + [ops[i]] + ops[i + 1..];
      CountConcat(ops[..i] + [ops[i]], ops[i + 1..], x);
      CountAppend(ops[..i], ops[i], x);
      CountConcat(ops[..i], ops[i + 1..], x);
      CountAppend(ops[..i] + ops[i + 1..], ops[i], x);
    }
  }

  /** Two different writes to one key: delivering one or the other last changes the table. */
  lemma ConflictShowsInOrder(m: Contents, ops: seq<Op<Bytes>>, i: nat, j: nat)
    requires i < |ops| && j < |ops| && ops[i].key == ops[j].key && ops[i] != ops[j]
    ensures Replay(m, MoveLast(ops, i)) != Replay(m, MoveLast(ops, j))
  {
    var k := ops[i].key;
    ReplayByKey(m, MoveLast(ops, i), k);
    ReplayByKey(m, MoveLast(ops, j), k);
    assert LastFate(MoveLast(ops, i), k) == FateOf(ops[i]);
    assert LastFate(MoveLast(ops, j), k) == FateOf(ops[j]);
  }

  /**
   * Every arrival order of a batch's operations commits to the batch's overlay exactly when no two
   * different operations of the batch touch the same key.
   */
  lemma ArrivalOrderIrrelevantIff(m: Contents, puts: seq<Row>, removes: seq<Bytes>)
    ensures (forall arrived :: Permutes(BatchOps(puts, removes), arrived)
                           ==> Replay(m, arrived) == Overlay(m, puts, removes))
       <==> ConflictFree(BatchOps(puts, removes))
  {
    var ops := BatchOps(puts, removes);
    BatchCommitIsOverlay(m, puts, removes);
    if ConflictFree(ops) {
      forall arrived | Permutes(ops, arrived)
        ensures Replay(m, arrived) == Overlay(m, puts, removes)
      {
        ConflictFreeOrderIndependent(m, ops, arrived);
      }
    } else {
      var x, y :| x in ops && y in ops && x.key == y.key && x != y;
      var i :| 0 <= i < |ops| && ops[i] == x;
      var j :| 0 <= j < |ops| && ops[j] == y;
      MoveLastPermutes(ops, i);
      MoveLastPermutes(ops, j);
      ConflictShowsInOrder(m, ops, i, j);
    }
  }

  // ---------------------------------------------------------------- partial deliveries

  /** The write leaves the table as it is. */
  predicate Idle(m: Contents, op: Op<Bytes>) {
    match op
    case PutOp(k, v) => Lookup(m, k) == Some(v)
    case RemoveOp(k) => k !in m
  }

  lemma IdleKeepsKey(m: Contents, op: Op<Bytes>)
    ensures Idle(m, op) <==> Settle(Lookup(m, op.key), FateOf(op)) == Lookup(m, op.key)
  {
  }

  /** Among operations without conflicts the only fate of a key is that of the operation on it. */
  lemma ConflictFreeFate(ops: seq<Op<Bytes>>, op: Op<Bytes>)
    requires ConflictFree(ops) && op in ops
    ensures LastFate(ops, op.key) == FateOf(op)
  {
    LastFateWitness(ops, op.key);
  }

  /**
   * When only some of the issued operations arrive, in any order, the table is the one that all of
   * them give exactly if each one that did not arrive would have changed nothing.
   */
  lemma PartialDeliveryIff(m: Contents, issued: seq<Op<Bytes>>, arrived: seq<Op<Bytes>>)
    requires ConflictFree(issued) && forall op :: op in arrived ==> op in issued
    ensures Replay(m, arrived) == Replay(m, issued) <==> forall op :: op in issued && op !in arrived ==> Idle(m, op)
  {
    assert ConflictFree(arrived);
    forall op | op in issued
      ensures Lookup(Replay(m, issued), op.key) == Settle(Lookup(m, op.key), FateOf(op))
      ensures op in arrived ==> Lookup(Replay(m, arrived), op.key) == Settle(Lookup(m, op.key), FateOf(op))
      ensures op !in arrived ==> Lookup(Replay(m, arrived), op.key) == Lookup(m, op.key)
    {
      ReplayByKey(m, issued, op.key);
      ReplayByKey(m, arrived, op.key);
      ConflictFreeFate(issued, op);
      if op in arrived {
        ConflictFreeFate(arrived, op);
      } else {
        LastFateWitness(arrived, op.key);
      }
      IdleKeepsKey(m, op);
    }
    if forall op :: op in issued && op !in arrived ==> Idle(m, op) {
      forall k
        ensures Lookup(Replay(m, arrived), k) == Lookup(Replay(m, issued), k)
      {
        LastFateWitness(issued, k);
        if op :| op in issued && op.key == k {
          IdleKeepsKey(m, op);
        } else {
          LastFateWitness(arrived, k);
          ReplayByKey(m, issued, k);
          ReplayByKey(m, arrived, k);
        }
      }
      MapsEqualByLookup(Replay(m, arrived), Replay(m, issued));
    }
  }

  /** Operations without conflicts change nothing together exactly if none of them does. */
  lemma IdleDeliveryIff(m: Contents, arrived: seq<Op<Bytes>>)
    requires ConflictFree(arrived)
    ensures Replay(m, arrived) == m <==> forall op :: op in arrived ==> Idle(m, op)
  {
    PartialDeliveryIff(m, arrived, []);
  }

  /** At each key with an operation, the last one to arrive does what the last one issued does. */
  ghost predicate LastWritesAgree(m: Contents, issued: seq<Op<Bytes>>, arrived: seq<Op<Bytes>>) {
    forall op :: op in issued ==>
      Settle(Lookup(m, op.key), LastFate(arrived, op.key)) == Settle(Lookup(m, op.key), LastFate(issued, op.key))
  }

  /** At each key with an operation that arrived, the last one leaves the table as it is. */
  ghost predicate LastWritesIdle(m: Contents, arrived: seq<Op<Bytes>>) {
    forall op :: op in arrived ==> Settle(Lookup(m, op.key), LastFate(arrived, op.key)) == Lookup(m, op.key)
  }

  /** With or without conflicts, and with any loss: which arrivals give the table that all operations give. */
  lemma ArrivalIff(m: Contents, issued: seq<Op<Bytes>>, arrived: seq<Op<Bytes>>)
    requires forall op :: op in arrived ==> op in issued
    ensures Replay(m, arrived) == Replay(m, issued) <==> LastWritesAgree(m, issued, arrived)
    ensures Replay(m, arrived) == m <==> LastWritesIdle(m, arrived)
  {
    forall k
      ensures Lookup(Replay(m, arrived), k) == Settle(Lookup(m, k), LastFate(arrived, k))
      ensures Lookup(Replay(m, issued), k) == Settle(Lookup(m, k), LastFate(issued, k))
    {
      ReplayByKey(m, arrived, k);
      ReplayByKey(m, issued, k);
    }
    if LastWritesAgree(m, issued, arrived) {
      forall k
        ensures Lookup(Replay(m, arrived), k) == Lookup(Replay(m, issued), k)
      {
        LastFateWitness(issued, k);
        LastFateWitness(arrived, k);
      }
      MapsEqualByLookup(Replay(m, arrived), Replay(m, issued));
    }
    if LastWritesIdle(m, arrived) {
      forall k
        ensures Lookup(Replay(m, arrived), k) == Lookup(m, k)
      {
        LastFateWitness(arrived, k);
      }
      MapsEqualByLookup(Replay(m, arrived), m);
    }
  }

  /** Every put writes what is there, unless its key is removed, and every remove finds nothing. */
  ghost predicate BatchIsIdle(m: Contents, puts: seq<Row>, removes: seq<Bytes>) {
    && (forall k :: k in KeysOf(puts) && k !in removes ==> Lookup(m, k) == Some(LastValue(puts, k)))
    && (forall k :: k in removes ==> k !in m)
  }

  lemma OverlayIsIdentityIff(m: Contents, puts: seq<Row>, removes: seq<Bytes>)
    ensures Overlay(m, puts, removes) == m <==> BatchIsIdle(m, puts, removes)
  {
    forall k
      ensures Lookup(Overlay(m, puts, removes), k) == Lookup(m, k)
         <==> && (k in KeysOf(puts) && k !in removes ==> Lookup(m, k) == Some(LastValue(puts, k)))
              && (k in removes ==> k !in m)
    {
      OverlayByKey(m, puts, removes, k);
    }
    if BatchIsIdle(m, puts, removes) {
      MapsEqualByLookup(Overlay(m, puts, removes), m);
    }
  }
}
