/** Vocabulary shared by the contract side and the engine side of the storage engine. */
module Types {

  type byte = x: int | 0 <= x < 256

  type Bytes = seq<byte>

  /** A 16-byte transaction id, `bytes16` on chain and a UUID in the engine. */
  type TxId = s: Bytes | |s| == 16 witness seq(16, i => 0)

  /** The nil UUID. A transaction's id is random and never nil; a call with the nil id is a direct one. */
  function NilId(): (id: TxId)
    ensures forall i :: 0 <= i < 16 ==> id[i] == 0
  {
    seq(16, i => 0)
  }

  datatype Option<+T> = None | Some(value: T)

  /** One key with its value: a pending put, a cache entry, or a row returned by a table scan. */
  datatype Row = Row(key: Bytes, value: Bytes)

  /** A write to one key. The contract's `deleteEntry` flag is the choice of constructor. */
  datatype Op<+V> = PutOp(key: Bytes, value: V) | RemoveOp(key: Bytes)

  /** What a table holds, without the order of its keys or the block numbers. */
  type Contents = map<Bytes, Bytes>

  /**
   * How one transaction sent to the chain ended. `applied` says whether it changed the chain,
   * `reported` whether the connector returned 0. A confirmation that times out is
   * applied but not reported; a transaction that was mined and then reverted is reported but not
   * applied, because the connector only looks for a block number.
   */
  datatype Rpc = Rpc(applied: bool, reported: bool) {
    predicate Honest() { reported ==> applied }
  }

  function Lookup<V>(m: map<Bytes, V>, k: Bytes): Option<V> {
    if k in m then Some(m[k]) else None
  }

  ghost predicate NoDuplicates<T>(s: seq<T>) {
    forall i, j :: 0 <= i < j < |s| ==> s[i] != s[j]
  }

  lemma CutInThree<T>(s: seq<T>, i: nat, j: nat)
    requires i <= j <= |s|
    ensures s == s[..i] + s[i..j] + s[j..]
  {
  }

  lemma MapsEqualByLookup<V>(a: map<Bytes, V>, b: map<Bytes, V>)
    requires forall k :: Lookup(a, k) == Lookup(b, k)
    ensures a == b
  {
    forall k
      ensures k in a <==> k in b
      ensures k in a ==> a[k] == b[k]
    {
      assert Lookup(a, k) == Lookup(b, k);
    }
    assert a.Keys == b.Keys;
  }
}
