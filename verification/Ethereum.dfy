/** The connector's side of the wire: call data it writes, and scan results it reads. */
module Ethereum {
  import opened Types
  import opened Hex
  import opened Abi

  /** Sizes are unsigned 64-bit numbers, the row count of a scan an unsigned 32-bit one. */
  const SIZES: nat := 0x1_0000_0000_0000_0000
  const COUNTS: nat := 0x1_0000_0000

  // ---------------------------------------------------------------- words

  /** Keys and values fill the front of a 32-byte word. */
  function Pad(data: Bytes): (word: Bytes)
    requires |data| <= 32
    ensures |word| == 32 && word[..|data|] == data && forall i :: |data| <= i < 32 ==> word[i] == 0
  {
    data + seq(32 - |data|, i => 0)
  }

  lemma PadInjective(a: Bytes, b: Bytes)
    requires |a| == |b| <= 32 && Pad(a) == Pad(b)
    ensures a == b
  {
    assert a == Pad(a)[..|a|];
  }

  predicate IsNil(id: TxId) {
    forall i :: 0 <= i < |id| ==> id[i] == 0
  }

  lemma OnlyNilIsNil(id: TxId)
    ensures IsNil(id) <==> id == NilId()
  {
  }

  lemma HexOfMore(word: Bytes, i: nat)
    requires i < |word|
    ensures HexOf(word[..i + 1]) == HexOf(word[..i]) + NumericToHex(word[i], 2)
  {
    ByteAtWidthTwo(word[i]);
    assert word[..i + 1][..i] == word[..i];
  }

  method ByteArrayToHex(data: Bytes) returns (s: string)
    requires |data| <= 32
    ensures s == HexOf(Pad(data)) && IsWord(s)
  {
    var word := Pad(data);
    s := "";
    for i := 0 to |data|
      invariant s == HexOf(word[..i])
    {
      HexOfMore(word, i);
      s := s + NumericToHex(data[i], 2);
    }
    for i := |data| to 32
      invariant s == HexOf(word[..i])
    {
      HexOfMore(word, i);
      s := s + NumericToHex(0, 2);
    }
    assert word[..32] == word;
    HexOfIsHex(word);
  }

  lemma Power16At16()
    ensures Power16(16) == SIZES
  {
    assert Power16(2) == 0x100;
    assert Power16(4) == 0x1_0000;
    assert Power16(6) == 0x100_0000;
    assert Power16(8) == 0x1_0000_0000;
    assert Power16(10) == 0x100_0000_0000;
    assert Power16(12) == 0x1_0000_0000_0000;
    assert Power16(14) == 0x100_0000_0000_0000;
  }

  lemma NumberWord(n: nat)
    requires n < SIZES
    ensures IsWord(NumericToHex(n, 64)) && HexValue(NumericToHex(n, 64)) == n
  {
    Power16At16();
    NumeralLength(n, 16);
    NumeralRoundTrip(n);
    SetWKeepsValue(HexNumeral(n), 64);
  }

  lemma PaddedWord(data: Bytes)
    requires |data| <= 32
    ensures IsWord(HexOf(Pad(data)))
  {
    HexOfIsHex(Pad(data));
  }

  // ---------------------------------------------------------------- arrays of words

  predicate AllBytes32(elements: seq<Bytes>) {
    forall i :: 0 <= i < |elements| ==> |elements[i]| == 32
  }

  function PadAll(items: seq<Bytes>): (words: seq<Bytes>)
    requires forall i :: 0 <= i < |items| ==> |items[i]| <= 32
    ensures |words| == |items| && AllBytes32(words)
  {
    seq(|items|, i requires 0 <= i < |items| => Pad(items[i]))
  }

  /** An array in call data: its length, then its elements. */
  function Section(elements: seq<Bytes>): seq<string> {
    [NumericToHex(|elements|, 64)] + seq(|elements|, i requires 0 <= i < |elements| => HexOf(elements[i]))
  }

  lemma SectionIsWords(elements: seq<Bytes>)
    requires |elements| < SIZES && AllBytes32(elements)
    ensures AllWords(Section(elements))
  {
    NumberWord(|elements|);
    forall i | 0 <= i < |elements|
      ensures IsWord(HexOf(elements[i]))
    {
      HexOfIsHex(elements[i]);
    }
  }

  /** Where the parts of a concatenation are. */
  lemma Middle<T>(a: seq<T>, b: seq<T>, c: seq<T>)
    ensures |a + b + c| == |a| + |b| + |c|
    ensures forall i :: 0 <= i < |a| ==> (a + b + c)[i] == a[i]
    ensures forall i :: 0 <= i < |b| ==> (a + b + c)[|a| + i] == b[i]
  {
  }

  lemma SectionAt(before: seq<string>, elements: seq<Bytes>, after: seq<string>)
    requires |elements| < SIZES && AllBytes32(elements)
    ensures ArrayLiesAt(before + Section(elements) + after, |before|, elements)
    ensures forall i :: 0 <= i < |before| ==> (before + Section(elements) + after)[i] == before[i]
  {
    var words := before + Section(elements) + after;
    Middle(before, Section(elements), after);
    NumberWord(|elements|);
    forall i | 0 <= i < |elements|
      ensures |elements[i]| == 32 && words[|before| + 1 + i] == HexOf(elements[i])
    {
      assert words[|before| + (1 + i)] == Section(elements)[1 + i];
    }
    assert words[|before| + 0] == Section(elements)[0];
  }

  lemma {:induction false} JoinConcat(a: seq<string>, b: seq<string>)
    ensures Join(a + b) == Join(a) + Join(b)
  {
    if b == [] {
      assert a + b == a;
    } else {
      var front, last := b[..|b| - 1], b[|b| - 1];
      assert a + b == (a + front) + [last];
      JoinOneMore(a + front, last);
      JoinConcat(a, front);
      assert Join(a) + Join(front) + last == Join(a) + (Join(front) + last);
    }
  }

  lemma SectionStarts(elements: seq<Bytes>)
    ensures Join(Section(elements)[..1]) == NumericToHex(|elements|, 64)
    ensures Section(elements)[..|elements| + 1] == Section(elements)
  {
    assert Section(elements)[..1] == [] + [NumericToHex(|elements|, 64)];
    JoinOneMore([], NumericToHex(|elements|, 64));
  }

  lemma SectionGrows(elements: seq<Bytes>, i: nat)
    requires i < |elements|
    ensures Join(Section(elements)[..i + 2]) == Join(Section(elements)[..i + 1]) + HexOf(elements[i])
  {
    assert Section(elements)[..i + 2] == Section(elements)[..i + 1] + [HexOf(elements[i])];
    JoinOneMore(Section(elements)[..i + 1], HexOf(elements[i]));
  }

  /** Writes the number of items and then each item. */
  method AppendArray(data: string, items: seq<Bytes>) returns (out: string)
    requires forall i :: 0 <= i < |items| ==> |items[i]| <= 32
    ensures out == data + Join(Section(PadAll(items)))
  {
    var size := |items|;
    ghost var elements := PadAll(items);
    SectionStarts(elements);
    out := NumericToHex(size, 64);
    for i := 0 to size
      invariant out == Join(Section(elements)[..i + 1])
    {
      var hexItem := ByteArrayToHex(items[i]);
      SectionGrows(elements, i);
      out := out + hexItem;
    }
    out := data + out;
  }

  // ---------------------------------------------------------------- put_batch and remove_batch

  ghost predicate RowsFit(rows: seq<Row>) {
    forall i :: 0 <= i < |rows| ==> |rows[i].key| <= 32 && |rows[i].value| <= 32
  }

  function KeysIn(rows: seq<Row>): seq<Bytes> {
    seq(|rows|, i requires 0 <= i < |rows| => rows[i].key)
  }

  function ValuesIn(rows: seq<Row>): seq<Bytes> {
    seq(|rows|, i requires 0 <= i < |rows| => rows[i].value)
  }

  /** The head of a call: its offsets, and its transaction id unless that is nil. */
  function Head(offsets: seq<nat>, id: TxId): seq<string> {
    seq(|offsets|, i requires 0 <= i < |offsets| => NumericToHex(offsets[i], 64))
    + if IsNil(id) then [] else [HexOf(Pad(id))]
  }

  lemma HeadIsWords(offsets: seq<nat>, id: TxId)
    requires forall i :: 0 <= i < |offsets| ==> offsets[i] < SIZES
    ensures AllWords(Head(offsets, id))
    ensures forall i :: 0 <= i < |offsets| ==> HexValue(Head(offsets, id)[i]) == offsets[i]
  {
    forall i | 0 <= i < |offsets|
      ensures IsWord(NumericToHex(offsets[i], 64)) && HexValue(NumericToHex(offsets[i], 64)) == offsets[i]
    {
      NumberWord(offsets[i]);
    }
    PaddedWord(id);
  }

  lemma JoinedAreWords(a: seq<string>, b: seq<string>, c: seq<string>)
    requires AllWords(a) && AllWords(b) && AllWords(c)
    ensures AllWords(a + b + c)
  {
  }

  /** The decoder finds an array at the offset that a head word holds. */
  lemma ArrayDecodes(before: seq<string>, elements: seq<Bytes>, after: seq<string>, head: nat)
    requires AllWords(before) && AllWords(after) && head < |before| && HexValue(before[head]) == 32 * |before|
    requires |elements| < SIZES && AllBytes32(elements)
    ensures Bytes32Array(Join(before + Section(elements) + after), 32 * head) == Some(elements)
  {
    SectionIsWords(elements);
    JoinedAreWords(before, Section(elements), after);
    SectionAt(before, elements, after);
    Bytes32InWords(before + Section(elements) + after, head, |before|, elements);
  }

  lemma FirstArray(head: seq<string>, elements: seq<Bytes>, after: seq<string>)
    requires AllWords(head) && AllWords(after) && |head| > 0 && HexValue(head[0]) == 32 * |head|
    requires |elements| < SIZES && AllBytes32(elements)
    ensures Bytes32Array(Join(head + Section(elements) + after), 0) == Some(elements)
  {
    ArrayDecodes(head, elements, after, 0);
  }

  lemma SecondArray(head: seq<string>, between: seq<string>, elements: seq<Bytes>)
    requires AllWords(head) && AllWords(between) && |head| > 1 && HexValue(head[1]) == 32 * (|head| + |between|)
    requires |elements| < SIZES && AllBytes32(elements)
    ensures Bytes32Array(Join(head + between + Section(elements)), 32) == Some(elements)
  {
    JoinedAreWords(head, between, []);
    assert head + between + [] == head + between;
    ArrayDecodes(head + between, elements, [], 1);
    assert head + between + Section(elements) + [] == head + between + Section(elements);
  }

  lemma IdAfterOffsets(offsets: seq<nat>, id: TxId, after: seq<string>)
    requires forall i :: 0 <= i < |offsets| ==> offsets[i] < SIZES
    requires !IsNil(id) && AllWords(after)
    ensures Bytes16At(Join(Head(offsets, id) + after), 32 * |offsets|) == Some(id)
  {
    HeadIsWords(offsets, id);
    IdInWords(Head(offsets, id) + after, |offsets|, id, Pad(id)[16..]);
  }

  function PutOffsets(n: nat, id: TxId): seq<nat> {
    if IsNil(id) then [64, 96 + 32 * n] else [96, 128 + 32 * n]
  }

  lemma PutOffsetsLead(n: nat, id: TxId)
    requires 128 + 32 * n < SIZES
    ensures var head := Head(PutOffsets(n, id), id);
            && AllWords(head) && |head| > 1
            && HexValue(head[0]) == 32 * |head| && HexValue(head[1]) == 32 * (|head| + 1 + n)
  {
    HeadIsWords(PutOffsets(n, id), id);
  }

  /** The head's offsets lead to the two arrays, in both forms of the call. */
  lemma TwoArraysDecode(keys: seq<Bytes>, values: seq<Bytes>, id: TxId)
    requires |keys| == |values| && 128 + 32 * |keys| < SIZES
    requires AllBytes32(keys) && AllBytes32(values)
    ensures var data := Join(Head(PutOffsets(|keys|, id), id) + Section(keys) + Section(values));
            Bytes32Array(data, 0) == Some(keys) && Bytes32Array(data, 32) == Some(values)
  {
    var head := Head(PutOffsets(|keys|, id), id);
    PutOffsetsLead(|keys|, id);
    SectionIsWords(keys);
    SectionIsWords(values);
    FirstArray(head, keys, Section(values));
    SecondArray(head, Section(keys), values);
  }

  lemma WordsConcat(a: seq<string>, b: seq<string>)
    requires AllWords(a) && AllWords(b)
    ensures AllWords(a + b)
  {
  }

  lemma OffsetsFit(n: nat, id: TxId)
    requires 128 + 32 * n < SIZES
    ensures |PutOffsets(n, id)| == 2 && forall i :: 0 <= i < 2 ==> PutOffsets(n, id)[i] < SIZES
  {
  }

  lemma Regroup<T>(a: seq<T>, b: seq<T>, c: seq<T>)
    ensures a + (b + c) == a + b + c
  {
  }

  lemma IdDecodes(keys: seq<Bytes>, values: seq<Bytes>, id: TxId)
    requires |keys| == |values| && 128 + 32 * |keys| < SIZES && !IsNil(id)
    requires AllBytes32(keys) && AllBytes32(values)
    ensures Bytes16At(Join(Head(PutOffsets(|keys|, id), id) + Section(keys) + Section(values)), 64) == Some(id)
  {
    var offsets := PutOffsets(|keys|, id);
    OffsetsFit(|keys|, id);
    SectionIsWords(keys);
    SectionIsWords(values);
    WordsConcat(Section(keys), Section(values));
    IdAfterOffsets(offsets, id, Section(keys) + Section(values));
    Regroup(Head(offsets, id), Section(keys), Section(values));
  }

  /** Offsets are 64-bit numbers. */
  function Wrap(n: nat): nat {
    n % SIZES
  }

  lemma WrapFits(n: nat)
    requires n < SIZES
    ensures Wrap(n) == n
  {
  }

  lemma JoinOne(a: string)
    ensures Join([a]) == a
  {
    assert [a] == [] + [a];
    JoinOneMore([], a);
  }

  lemma JoinTwo(a: string, b: string)
    ensures Join([a, b]) == a + b
  {
    JoinOne(a);
    assert [a, b] == [a] + [b];
    JoinOneMore([a], b);
  }

  lemma JoinThree(a: string, b: string, c: string)
    ensures Join([a, b, c]) == a + b + c
  {
    JoinTwo(a, b);
    assert [a, b, c] == [a, b] + [c];
    JoinOneMore([a, b], c);
  }

  method PutBatchHead(size: nat, id: TxId) returns (data: string)
    requires 128 + 32 * size < SIZES
    ensures data == Join(Head(PutOffsets(size, id), id))
  {
    ghost var head := Head(PutOffsets(size, id), id);
    if IsNil(id) {
      var second := Wrap(96 + 32 * size);
      WrapFits(96 + 32 * size);
      data := NumericToHex(64, 64) + NumericToHex(second, 64);
      assert head == [NumericToHex(64, 64), NumericToHex(96 + 32 * size, 64)];
      JoinTwo(head[0], head[1]);
    } else {
      var second := Wrap(128 + 32 * size);
      WrapFits(128 + 32 * size);
      data := NumericToHex(96, 64) + NumericToHex(second, 64);
      var hexId := ByteArrayToHex(id);
      data := data + hexId;
      assert head == [NumericToHex(96, 64), NumericToHex(128 + 32 * size, 64), hexId];
      JoinThree(head[0], head[1], head[2]);
    }
  }

  method PutBatchPayload(rows: seq<Row>, id: TxId) returns (data: string)
    requires RowsFit(rows)
    requires 128 + 32 * |rows| < SIZES
    ensures id == NilId() ==>
              DecodePutBatch(data) == Some(PutBatch(PadAll(KeysIn(rows)), PadAll(ValuesIn(rows))))
    ensures id != NilId() ==>
              DecodeStagePutBatch(data) == Some(StagePutBatch(PadAll(KeysIn(rows)), PadAll(ValuesIn(rows)), id))
  {
    ghost var head, keys, values := Head(PutOffsets(|rows|, id), id), PadAll(KeysIn(rows)), PadAll(ValuesIn(rows));
    OnlyNilIsNil(id);
    TwoArraysDecode(keys, values, id);
    if !IsNil(id) {
      IdDecodes(keys, values, id);
    }
    JoinConcat(head, Section(keys));
    JoinConcat(head + Section(keys), Section(values));

    data := PutBatchHead(|rows|, id);
    data := AppendArray(data, KeysIn(rows));
    data := AppendArray(data, ValuesIn(rows));
  }

  function RemoveOffsets(id: TxId): seq<nat> {
    [if IsNil(id) then 32 else 64]
  }

  method RemoveBatchHead(id: TxId) returns (data: string)
    ensures data == Join(Head(RemoveOffsets(id), id))
  {
    ghost var head := Head(RemoveOffsets(id), id);
    if IsNil(id) {
      data := NumericToHex(32, 64);
      assert head == [data];
      JoinOne(data);
    } else {
      data := NumericToHex(64, 64);
      var hexId := ByteArrayToHex(id);
      assert head == [data, hexId];
      JoinTwo(data, hexId);
      data := data + hexId;
    }
  }

  lemma KeysDecode(keys: seq<Bytes>, id: TxId)
    requires |keys| < SIZES && AllBytes32(keys)
    ensures var data := Join(Head(RemoveOffsets(id), id) + Section(keys));
            Bytes32Array(data, 0) == Some(keys) && (!IsNil(id) ==> Bytes16At(data, 32) == Some(id))
  {
    var head := Head(RemoveOffsets(id), id);
    HeadIsWords(RemoveOffsets(id), id);
    assert HexValue(head[0]) == RemoveOffsets(id)[0] == 32 * |head|;
    FirstArray(head, keys, []);
    assert head + Section(keys) + [] == head + Section(keys);
    if !IsNil(id) {
      SectionIsWords(keys);
      IdAfterOffsets(RemoveOffsets(id), id, Section(keys));
    }
  }

  method RemoveBatchPayload(keys: seq<Bytes>, id: TxId) returns (data: string)
    requires forall i :: 0 <= i < |keys| ==> |keys[i]| <= 32
    requires |keys| < SIZES
    ensures id == NilId() ==> DecodeRemoveBatch(data) == Some(RemoveBatch(PadAll(keys)))
    ensures id != NilId() ==> DecodeStageRemoveBatch(data) == Some(StageRemoveBatch(PadAll(keys), id))
  {
    OnlyNilIsNil(id);
    data := RemoveBatchHead(id);
    data := AppendArray(data, keys);
    JoinConcat(Head(RemoveOffsets(id), id), Section(PadAll(keys)));
    KeysDecode(PadAll(keys), id);
  }

  // ---------------------------------------------------------------- atomic_commit

  function StripPrefix(address: string): string {
    if |address| >= 2 && address[..2] == "0x" then address[2..] else address
  }

  function LowerChar(c: char): char {
    if 'A' <= c <= 'Z' then (c as int - 'A' as int + 'a' as int) as char else c
  }

  function ToLower(s: string): string {
    seq(|s|, i requires 0 <= i < |s| => LowerChar(s[i]))
  }

  lemma {:induction false} ToLowerKeepsValue(s: string)
    requires AllHex(s)
    ensures AllHex(ToLower(s)) && HexValue(ToLower(s)) == HexValue(s)
  {
    if s != "" {
      ToLowerKeepsValue(s[..|s| - 1]);
      assert ToLower(s)[..|s| - 1] == ToLower(s[..|s| - 1]);
    }
  }

  /** An address in the configuration: hex digits of either case, with or without "0x". */
  ghost predicate IsAddress(address: string) {
    AllHex(StripPrefix(address)) && |StripPrefix(address)| <= 64
  }

  ghost predicate AllAddresses(addresses: seq<string>) {
    forall i :: 0 <= i < |addresses| ==> IsAddress(addresses[i])
  }

  function AddressValue(address: string): nat {
    HexValue(StripPrefix(address))
  }

  /** The prefix makes no difference: digits are never taken for it. */
  lemma PrefixIsNoDigit(digits: string)
    requires AllHex(digits)
    ensures AddressValue("0x" + digits) == HexValue(digits) == AddressValue(digits)
    ensures IsAddress("0x" + digits) <==> |digits| <= 64
    ensures IsAddress(digits) <==> |digits| <= 64
  {
    assert ("0x" + digits)[..2] == "0x" && ("0x" + digits)[2..] == digits;
    assert |digits| >= 2 ==> digits[..2][1] == digits[1] && IsHex(digits[1]);
  }

  function AddressValues(addresses: seq<string>): seq<nat> {
    seq(|addresses|, i requires 0 <= i < |addresses| => AddressValue(addresses[i]))
  }

  function AddressWord(address: string): string {
    SetW(ToLower(StripPrefix(address)), 64)
  }

  lemma AddressWordValue(address: string)
    requires IsAddress(address)
    ensures IsWord(AddressWord(address)) && HexValue(AddressWord(address)) == AddressValue(address)
  {
    ToLowerKeepsValue(StripPrefix(address));
    SetWKeepsValue(ToLower(StripPrefix(address)), 64);
  }

  /** The number of stores goes out in decimal. */
  function CommitAllHead(id: TxId, n: nat): seq<string> {
    [HexOf(Pad(id)), SetW("40", 64), SetW(DecimalNumeral(n), 64)]
  }

  function AddressWords(addresses: seq<string>): seq<string> {
    seq(|addresses|, i requires 0 <= i < |addresses| => AddressWord(addresses[i]))
  }

  function CommitAllWords(id: TxId, addresses: seq<string>): seq<string> {
    CommitAllHead(id, |addresses|) + AddressWords(addresses)
  }

  function Power10(k: nat): nat {
    if k == 0 then 1 else 10 * Power10(k - 1)
  }

  lemma {:induction false} DecimalLength(n: nat, k: nat)
    requires k > 0 && n < Power10(k)
    ensures |DecimalNumeral(n)| <= k
  {
    if n >= 10 {
      DecimalLength(n / 10, k - 1);
    }
  }

  lemma CountWord(n: nat)
    requires n < SIZES
    ensures IsWord(SetW(DecimalNumeral(n), 64))
    ensures n <= 9 ==> HexValue(SetW(DecimalNumeral(n), 64)) == n
    ensures n >= 10 ==> HexValue(SetW(DecimalNumeral(n), 64)) >= n + 6
  {
    assert Power10(4) == 10000;
    assert Power10(8) == 10000 * Power10(4) by {
      assert Power10(6) == 100 * Power10(4);
    }
    assert Power10(12) == 10000 * Power10(8) by {
      assert Power10(10) == 100 * Power10(8);
    }
    assert Power10(16) == 10000 * Power10(12) by {
      assert Power10(14) == 100 * Power10(12);
    }
    assert Power10(20) == 10000 * Power10(16) by {
      assert Power10(18) == 100 * Power10(16);
    }
    DecimalLength(n, 20);
    DecimalReadAsHex(n);
    SetWKeepsValue(DecimalNumeral(n), 64);
  }

  lemma CommitAllHeadIsWords(id: TxId, n: nat)
    requires n < SIZES
    ensures AllWords(CommitAllHead(id, n)) && HexValue(CommitAllHead(id, n)[1]) == 64
  {
    PaddedWord(id);
    CountWord(n);
    SetWKeepsValue("40", 64);
    assert "40"[..1] == "4" && "4"[..0] == "";
    assert HexValue("4") == 4;
  }

  lemma AddressesAreWords(addresses: seq<string>)
    requires AllAddresses(addresses)
    ensures AllWords(AddressWords(addresses))
    ensures forall i :: 0 <= i < |addresses| ==> HexValue(AddressWords(addresses)[i]) == AddressValues(addresses)[i]
  {
    forall i | 0 <= i < |addresses|
      ensures IsWord(AddressWord(addresses[i]))
      ensures HexValue(AddressWord(addresses[i])) == AddressValues(addresses)[i]
    {
      AddressWordValue(addresses[i]);
    }
  }

  lemma CommitAllIsWords(id: TxId, addresses: seq<string>)
    requires AllAddresses(addresses) && |addresses| < SIZES
    ensures AllWords(CommitAllWords(id, addresses))
    ensures HexValue(CommitAllWords(id, addresses)[1]) == 64
    ensures forall i :: 0 <= i < |addresses| ==>
              HexValue(CommitAllWords(id, addresses)[3 + i]) == AddressValues(addresses)[i]
  {
    CommitAllHeadIsWords(id, |addresses|);
    AddressesAreWords(addresses);
    WordsConcat(CommitAllHead(id, |addresses|), AddressWords(addresses));
    forall i | 0 <= i < |addresses|
      ensures HexValue(CommitAllWords(id, addresses)[3 + i]) == AddressValues(addresses)[i]
    {
      assert CommitAllWords(id, addresses)[3 + i] == AddressWords(addresses)[i];
    }
  }

  lemma LongArrayReverts(data: string, count: nat)
    requires UintAt(data, 32) == Some(64) && UintAt(data, 64) == Some(count)
    requires |data| < 64 * (3 + count)
    ensures DecodeCommitAll(data) == None
  {
  }

  /**
   * Up to nine stores the contract gets the id and the list; from ten on the length it reads is too
   * big for the data, and the call reverts.
   */
  lemma CommitAllDecodes(id: TxId, addresses: seq<string>)
    requires AllAddresses(addresses) && |addresses| < SIZES
    ensures var data, n := Join(CommitAllWords(id, addresses)), |addresses|;
            && (n <= 9 ==> DecodeCommitAll(data) == Some(CommitAll(id, AddressValues(addresses))))
            && (n >= 10 ==> DecodeCommitAll(data) == None && UintAt(data, 64) != Some(n))
  {
    var words, n := CommitAllWords(id, addresses), |addresses|;
    CommitAllIsWords(id, addresses);
    CountWord(n);
    IdInWords(words, 0, id, Pad(id)[16..]);
    if n <= 9 {
      AddressesInWords(words, 1, 2, AddressValues(addresses));
    } else {
      JoinWords(words);
      WordInWords(words, 1);
      WordInWords(words, 2);
      LongArrayReverts(Join(words), HexValue(words[2]));
    }
  }

  method AppendAddresses(data: string, addresses: seq<string>) returns (out: string)
    ensures out == data + Join(AddressWords(addresses))
  {
    ghost var words := AddressWords(addresses);
    out := "";
    for i := 0 to |addresses|
      invariant out == Join(words[..i])
    {
      var address := addresses[i];
      if |address| >= 2 && address[..2] == "0x" {
        address := address[2..];
      }
      address := ToLower(address);
      JoinOneMore(words[..i], SetW(address, 64));
      assert words[..i + 1] == words[..i] + [SetW(address, 64)];
      out := out + SetW(address, 64);
    }
    assert words[..|addresses|] == words;
    out := data + out;
  }

  method CommitAllPayload(id: TxId, addresses: seq<string>) returns (data: string)
    ensures data == Join(CommitAllWords(id, addresses))
  {
    data := ByteArrayToHex(id);
    data := data + SetW("40", 64) + SetW(DecimalNumeral(|addresses|), 64);
    JoinThree(HexOf(Pad(id)), SetW("40", 64), SetW(DecimalNumeral(|addresses|), 64));
    JoinConcat(CommitAllHead(id, |addresses|), AddressWords(addresses));
    data := AppendAddresses(data, addresses);
  }
}
