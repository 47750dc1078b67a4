/**
 * The receiving side of a contract call: a decoder for call data that follows the written offsets, as
 * the sections "Formal Specification of the Encoding" and "Use of Dynamic Types" of the Solidity
 * Contract ABI Specification describe. Data is hex text; offsets count bytes.
 */
module Abi {
  import opened Types
  import opened Hex

  datatype Call =
    | PutBatch(keys: seq<Bytes>, values: seq<Bytes>)
    | StagePutBatch(keys: seq<Bytes>, values: seq<Bytes>, id: TxId)
    | RemoveBatch(keys: seq<Bytes>)
    | StageRemoveBatch(keys: seq<Bytes>, id: TxId)
    | CommitAll(id: TxId, stores: seq<nat>)

  function WordAt(data: string, offset: nat): Option<string> {
    if 2 * offset + 64 <= |data| then Some(data[2 * offset..2 * offset + 64]) else None
  }

  function UintAt(data: string, offset: nat): Option<nat> {
    match WordAt(data, offset)
    case Some(word) => Some(HexValue(word))
    case None => None
  }

  /** A `bytes16` fills the front of its word. */
  function Bytes16At(data: string, offset: nat): Option<TxId> {
    match WordAt(data, offset)
    case Some(word) => Some(BytesOf(word, 16))
    case None => None
  }

  /** The place and the length of the array whose offset is at `head`; an array that does not fit reverts. */
  function ArrayAt(data: string, head: nat): Option<(nat, nat)>
    ensures ArrayAt(data, head).Some? ==>
              var (start, n) := ArrayAt(data, head).value; 2 * (start + 32 * n) <= |data|
  {
    match UintAt(data, head)
    case None => None
    case Some(offset) =>
      match UintAt(data, offset)
      case None => None
      case Some(n) => if 2 * (offset + 32 + 32 * n) <= |data| then Some((offset + 32, n)) else None
  }

  function Element(data: string, start: nat, i: nat): string
    requires 2 * (start + 32 * i) + 64 <= |data|
  {
    data[2 * (start + 32 * i)..2 * (start + 32 * i) + 64]
  }

  function Bytes32s(data: string, start: nat, n: nat): (elements: seq<Bytes>)
    requires 2 * (start + 32 * n) <= |data|
    ensures |elements| == n
  {
    seq(n, i requires 0 <= i < n => BytesOf(Element(data, start, i), 32))
  }

  function Uints(data: string, start: nat, n: nat): (elements: seq<nat>)
    requires 2 * (start + 32 * n) <= |data|
    ensures |elements| == n
  {
    seq(n, i requires 0 <= i < n => HexValue(Element(data, start, i)))
  }

  function Bytes32Array(data: string, head: nat): Option<seq<Bytes>> {
    match ArrayAt(data, head)
    case None => None
    case Some((start, n)) => Some(Bytes32s(data, start, n))
  }

  function AddressArray(data: string, head: nat): Option<seq<nat>> {
    match ArrayAt(data, head)
    case None => None
    case Some((start, n)) => Some(Uints(data, start, n))
  }

  function DecodePutBatch(data: string): Option<Call> {
    match (Bytes32Array(data, 0), Bytes32Array(data, 32))
    case (Some(keys), Some(values)) => Some(PutBatch(keys, values))
    case _ => None
  }

  function DecodeStagePutBatch(data: string): Option<Call> {
    match (Bytes32Array(data, 0), Bytes32Array(data, 32), Bytes16At(data, 64))
    case (Some(keys), Some(values), Some(id)) => Some(StagePutBatch(keys, values, id))
    case _ => None
  }

  function DecodeRemoveBatch(data: string): Option<Call> {
    match Bytes32Array(data, 0)
    case Some(keys) => Some(RemoveBatch(keys))
    case None => None
  }

  function DecodeStageRemoveBatch(data: string): Option<Call> {
    match (Bytes32Array(data, 0), Bytes16At(data, 32))
    case (Some(keys), Some(id)) => Some(StageRemoveBatch(keys, id))
    case _ => None
  }

  function DecodeCommitAll(data: string): Option<Call> {
    match (Bytes16At(data, 0), AddressArray(data, 32))
    case (Some(id), Some(stores)) => Some(CommitAll(id, stores))
    case _ => None
  }

  // ---------------------------------------------------------------- text made of words

  ghost predicate IsWord(w: string) {
    |w| == 64 && AllHex(w)
  }

  ghost predicate AllWords(words: seq<string>) {
    forall i :: 0 <= i < |words| ==> IsWord(words[i])
  }

  function Join(words: seq<string>): string {
    if words == [] then "" else Join(words[..|words| - 1]) + words[|words| - 1]
  }

  lemma {:induction false} JoinWords(words: seq<string>)
    requires AllWords(words)
    ensures |Join(words)| == 64 * |words| && AllHex(Join(words))
  {
    if words != [] {
      JoinWords(words[..|words| - 1]);
    }
  }

  lemma {:induction false} JoinAt(words: seq<string>, i: nat)
    requires AllWords(words) && i < |words|
    ensures |Join(words)| == 64 * |words| && Join(words)[64 * i..64 * i + 64] == words[i]
  {
    JoinWords(words);
    var front := words[..|words| - 1];
    JoinWords(front);
    if i < |front| {
      JoinAt(front, i);
      assert Join(words)[64 * i..64 * i + 64] == Join(front)[64 * i..64 * i + 64];
    }
  }

  lemma JoinOneMore(words: seq<string>, w: string)
    ensures Join(words + [w]) == Join(words) + w
  {
    assert (words + [w])[..|words|] == words;
  }

  lemma WordAtSlice(data: string, i: nat)
    requires 64 * i + 64 <= |data|
    ensures WordAt(data, 32 * i) == Some(data[64 * i..64 * i + 64])
  {
  }

  lemma WordInWords(words: seq<string>, i: nat)
    requires AllWords(words) && i < |words|
    ensures WordAt(Join(words), 32 * i) == Some(words[i])
  {
    JoinAt(words, i);
    WordAtSlice(Join(words), i);
  }

  lemma UintInWords(words: seq<string>, i: nat)
    requires AllWords(words) && i < |words|
    ensures UintAt(Join(words), 32 * i) == Some(HexValue(words[i]))
  {
    WordInWords(words, i);
  }

  lemma FoundArray(data: string, head: nat, offset: nat, n: nat)
    requires UintAt(data, head) == Some(offset) && UintAt(data, offset) == Some(n)
    requires 2 * (offset + 32 + 32 * n) <= |data|
    ensures ArrayAt(data, head) == Some((offset + 32, n))
  {
  }

  /** An array is found when its head word holds its offset and its words follow its length. */
  lemma ArrayInWords(words: seq<string>, head: nat, at: nat, n: nat)
    requires AllWords(words) && head < |words| && at + 1 + n <= |words|
    requires HexValue(words[head]) == 32 * at && HexValue(words[at]) == n
    ensures ArrayAt(Join(words), 32 * head) == Some((32 * (at + 1), n))
  {
    UintInWords(words, head);
    UintInWords(words, at);
    JoinWords(words);
    FoundArray(Join(words), 32 * head, 32 * at, n);
  }

  lemma ElementInWords(words: seq<string>, at: nat, i: nat)
    requires AllWords(words) && at + 1 + i < |words|
    ensures 2 * (32 * (at + 1) + 32 * i) + 64 <= |Join(words)|
    ensures Element(Join(words), 32 * (at + 1), i) == words[at + 1 + i]
  {
    JoinAt(words, at + 1 + i);
  }

  /** The words from `at` on are an array: its length and its elements. */
  ghost predicate ArrayLiesAt(words: seq<string>, at: nat, elements: seq<Bytes>) {
    && at + 1 + |elements| <= |words|
    && HexValue(words[at]) == |elements|
    && forall i :: 0 <= i < |elements| ==> |elements[i]| == 32 && words[at + 1 + i] == HexOf(elements[i])
  }

  lemma BytesOfHexOf(element: Bytes)
    ensures BytesOf(HexOf(element), |element|) == element
  {
    forall i | 0 <= i < |element|
      ensures ByteAt(HexOf(element), i) == element[i]
    {
      HexOfRoundTrip(element, i);
    }
  }

  lemma Bytes32sInWords(words: seq<string>, at: nat, elements: seq<Bytes>)
    requires AllWords(words) && ArrayLiesAt(words, at, elements)
    ensures |Join(words)| == 64 * |words|
    ensures Bytes32s(Join(words), 32 * (at + 1), |elements|) == elements
  {
    JoinWords(words);
    forall i | 0 <= i < |elements|
      ensures Bytes32s(Join(words), 32 * (at + 1), |elements|)[i] == elements[i]
    {
      ElementInWords(words, at, i);
      BytesOfHexOf(elements[i]);
    }
  }

  lemma Bytes32InWords(words: seq<string>, head: nat, at: nat, elements: seq<Bytes>)
    requires AllWords(words) && ArrayLiesAt(words, at, elements)
    requires head < |words| && HexValue(words[head]) == 32 * at
    ensures Bytes32Array(Join(words), 32 * head) == Some(elements)
  {
    ArrayInWords(words, head, at, |elements|);
    Bytes32sInWords(words, at, elements);
  }

  lemma UintsInWords(words: seq<string>, at: nat, elements: seq<nat>)
    requires AllWords(words) && at + 1 + |elements| <= |words|
    requires forall i :: 0 <= i < |elements| ==> HexValue(words[at + 1 + i]) == elements[i]
    ensures |Join(words)| == 64 * |words|
    ensures Uints(Join(words), 32 * (at + 1), |elements|) == elements
  {
    JoinWords(words);
    forall i | 0 <= i < |elements|
      ensures Uints(Join(words), 32 * (at + 1), |elements|)[i] == elements[i]
    {
      ElementInWords(words, at, i);
    }
  }

  lemma AddressesInWords(words: seq<string>, head: nat, at: nat, addresses: seq<nat>)
    requires AllWords(words) && head < |words| && at + 1 + |addresses| <= |words|
    requires HexValue(words[head]) == 32 * at && HexValue(words[at]) == |addresses|
    requires forall i :: 0 <= i < |addresses| ==> HexValue(words[at + 1 + i]) == addresses[i]
    ensures AddressArray(Join(words), 32 * head) == Some(addresses)
  {
    ArrayInWords(words, head, at, |addresses|);
    UintsInWords(words, at, addresses);
  }

  lemma IdInWords(words: seq<string>, head: nat, id: TxId, padding: Bytes)
    requires AllWords(words) && head < |words|
    requires words[head] == HexOf(id + padding) && |padding| == 16
    ensures Bytes16At(Join(words), 32 * head) == Some(id)
  {
    WordInWords(words, head);
    BytesOfHexOf(id + padding);
    assert forall i :: 0 <= i < 16 ==> BytesOf(words[head], 16)[i] == BytesOf(words[head], 32)[i];
    assert BytesOf(words[head], 16) == id;
  }
}
