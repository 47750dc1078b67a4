/** Reading the result of a table scan: two arrays of words, taken apart by position. */
module EthereumScan {
  import opened Types
  import opened Hex
  import opened Abi
  import opened Ethereum

  // ---------------------------------------------------------------- split

  lemma DivideText(size: nat, length: nat)
    requires length > 0
    ensures length * (size / length) + size % length == size && size % length < length
    ensures (size / length) * length == length * (size / length)
  {
  }

  lemma NextPiece(i: nat, full: nat, length: nat)
    requires i < full
    ensures i * length + length == (i + 1) * length <= full * length
  {
  }

  /** Cuts a text into pieces of the given length; what is left over is a shorter last piece. */
  method Split(str: string, length: nat) returns (pieces: seq<string>)
    requires length > 0
    ensures Join(pieces) == str
    ensures forall i :: 0 <= i < |pieces| - 1 ==> |pieces[i]| == length
    ensures pieces != [] ==> 0 < |pieces[|pieces| - 1]| <= length
  {
    var full := |str| / length;
    DivideText(|str|, length);
    pieces := [];
    ghost var at := 0;
    for i := 0 to full
      invariant at == i * length
      invariant |pieces| == i && forall j :: 0 <= j < i ==> |pieces[j]| == length
      invariant at <= |str| && Join(pieces) == str[..at]
    {
      NextPiece(i, full, length);
      var piece := str[i * length..i * length + length];
      JoinOneMore(pieces, piece);
      pieces := pieces + [piece];
      assert str[..at + length] == str[..at] + piece;
      at := at + length;
    }
    if |str| % length != 0 {
      JoinOneMore(pieces, str[length * full..]);
      pieces := pieces + [str[length * full..]];
      assert str == str[..at] + str[at..];
    } else {
      assert str[..at] == str;
    }
  }

  lemma {:induction false} PiecesLength(pieces: seq<string>)
    requires forall i :: 0 <= i < |pieces| - 1 ==> |pieces[i]| == 64
    ensures pieces == [] ==> Join(pieces) == ""
    ensures pieces != [] ==> |Join(pieces)| == 64 * (|pieces| - 1) + |pieces[|pieces| - 1]|
  {
    if |pieces| > 1 {
      PiecesLength(pieces[..|pieces| - 1]);
    }
  }

  /** Text made of words splits back into those words. */
  lemma {:induction false} WordsSplitOneWay(words: seq<string>, pieces: seq<string>)
    requires AllWords(words)
    requires Join(pieces) == Join(words)
    requires forall i :: 0 <= i < |pieces| - 1 ==> |pieces[i]| == 64
    requires pieces != [] ==> 0 < |pieces[|pieces| - 1]| <= 64
    ensures pieces == words
  {
    PiecesLength(pieces);
    JoinWords(words);
    if words != [] && pieces != [] {
      var w, p := |words| - 1, |pieces| - 1;
      assert |pieces[p]| == 64 && w == p;
      assert Join(words) == Join(words[..w]) + words[w] == Join(pieces[..p]) + pieces[p];
      JoinWords(words[..w]);
      assert Join(words[..w]) == Join(words)[..64 * w] == Join(pieces[..p]);
      assert words[w] == Join(words)[64 * w..] == pieces[p];
      WordsSplitOneWay(words[..w], pieces[..p]);
      assert words == words[..w] + [words[w]] && pieces == pieces[..p] + [pieces[p]];
    }
  }

  // ---------------------------------------------------------------- the rows of a scan

  function ScanHead(n: nat): seq<string> {
    [NumericToHex(64, 64), NumericToHex(96 + 32 * n, 64)]
  }

  /** What the contract returns: the arrays of keys and values, encoded as the ABI prescribes. */
  function ScanWords(keys: seq<Bytes>, values: seq<Bytes>): seq<string> {
    ScanHead(|keys|) + Section(keys) + Section(values)
  }

  lemma ScanHeadLeads(n: nat)
    requires 96 + 32 * n < SIZES
    ensures AllWords(ScanHead(n))
    ensures HexValue(ScanHead(n)[0]) == 32 * |ScanHead(n)|
    ensures HexValue(ScanHead(n)[1]) == 32 * (|ScanHead(n)| + 1 + n)
  {
    NumberWord(64);
    NumberWord(96 + 32 * n);
  }

  lemma ScanWordsAreAbi(keys: seq<Bytes>, values: seq<Bytes>)
    requires |keys| == |values| && 128 + 32 * |keys| < SIZES
    requires AllBytes32(keys) && AllBytes32(values)
    ensures AllWords(ScanWords(keys, values))
    ensures Bytes32Array(Join(ScanWords(keys, values)), 0) == Some(keys)
    ensures Bytes32Array(Join(ScanWords(keys, values)), 32) == Some(values)
  {
    ScanHeadLeads(|keys|);
    SectionIsWords(keys);
    SectionIsWords(values);
    FirstArray(ScanHead(|keys|), keys, Section(values));
    SecondArray(ScanHead(|keys|), Section(keys), values);
  }

  // ---------------------------------------------------------------- reading text

  /** A C string ends with a zero character. */
  function CharAt(s: string, i: nat): char {
    if i < |s| then s[i] else '\0'
  }

  predicate IsSpace(c: char) {
    c == ' ' || 9 <= c as int <= 13
  }

  /**
   * `strtoul` to base 16 on two characters, cut to 8 bits: it skips a space or takes a sign, and stops
   * at the first character that is not a digit.
   */
  function ParseByte(a: char, b: char): byte {
    if IsHex(a) then if IsHex(b) then 16 * DigitValue(a) + DigitValue(b) else DigitValue(a)
    else if !IsHex(b) then 0
    else if IsSpace(a) || a == '+' then DigitValue(b)
    else if a == '-' && DigitValue(b) > 0 then 256 - DigitValue(b)
    else 0
  }

  function ParsedBytes(s: string, length: nat): (data: Bytes)
    ensures |data| == length
  {
    seq(length, i requires 0 <= i < length => ParseByte(CharAt(s, 2 * i), CharAt(s, 2 * i + 1)))
  }

  lemma HexParses(s: string, length: nat)
    requires AllHex(s) && 2 * length <= |s|
    ensures ParsedBytes(s, length) == BytesOf(s, length)
  {
  }

  /** Reading length bytes does not go past the end of the text. */
  predicate LongEnough(s: string, length: nat) {
    2 * length <= |s| + 1
  }

  /** Reads length bytes of hex text into the buffer, from position at. */
  method Parse32ByteHexString(s: string, out: array<byte>, at: nat, length: nat)
    requires LongEnough(s, length) && at + length <= out.Length
    modifies out
    ensures out[..] == old(out[..at]) + ParsedBytes(s, length) + old(out[at + length..])
  {
    for i := 0 to length
      invariant out[..at] == old(out[..at])
      invariant forall j :: 0 <= j < i ==> out[at + j] == ParseByte(CharAt(s, 2 * j), CharAt(s, 2 * j + 1))
      invariant out[at + i..] == old(out[at + i..])
    {
      out[at + i] := ParseByte(CharAt(s, 2 * i), CharAt(s, 2 * i + 1));
    }
    assert out[..][at..at + length] == out[at..at + length] == ParsedBytes(s, length);
    assert out[..][..at] == out[..at] && out[..][at + length..] == out[at + length..];
    CutInThree(out[..], at, at + length);
  }

  /** Reading a number stops at the first character that is not a digit. */
  function LeadingDigits(s: string): string {
    if s == "" || !IsHex(s[0]) then "" else [s[0]] + LeadingDigits(s[1..])
  }

  lemma {:induction false} AllDigitsLead(s: string)
    requires AllHex(s)
    ensures LeadingDigits(s) == s
  {
    if s != "" {
      AllDigitsLead(s[1..]);
    }
  }

  function SkipSpace(s: string): string {
    if s != "" && IsSpace(s[0]) then SkipSpace(s[1..]) else s
  }

  function SkipSign(s: string): string {
    if s != "" && (s[0] == '+' || s[0] == '-') then s[1..] else s
  }

  function SkipBase(s: string): string {
    if |s| >= 2 && (s[..2] == "0x" || s[..2] == "0X") then s[2..] else s
  }

  /**
   * A stream reads a number in hex: it skips white space, takes a sign and the prefix of the base, and stops
   * at the first character that is not a digit. A number that does not fit 32 bits reads as the largest
   * one, and a negative one is counted down from their end.
   */
  function StreamNumber(s: string): (count: nat)
    ensures count < COUNTS
  {
    var text := SkipSpace(s);
    var value := HexValue(LeadingDigits(SkipBase(SkipSign(text))));
    if value >= COUNTS then COUNTS - 1
    else if text != "" && text[0] == '-' && value > 0 then COUNTS - value
    else value
  }

  /** `strtoul` to base 16 on any text, cut to 8 bits: a negative number counts down from the end. */
  function Strtoul8(s: string): byte {
    var text := SkipSpace(s);
    var value := HexValue(LeadingDigits(SkipBase(SkipSign(text)))) % 256;
    if text != "" && text[0] == '-' && value > 0 then 256 - value else value
  }

  lemma OneDigit(a: char)
    ensures LeadingDigits([a]) == if IsHex(a) then [a] else ""
    ensures HexValue([a]) == DigitValue(a)
  {
    assert [a][1..] == "" && [a][..0] == "";
  }

  lemma TwoDigits(a: char, b: char)
    ensures LeadingDigits([a, b]) == if !IsHex(a) then "" else if IsHex(b) then [a, b] else [a]
    ensures HexValue([a, b]) == 16 * DigitValue(a) + DigitValue(b)
  {
    OneDigit(a);
    OneDigit(b);
    assert [a, b][1..] == [b] && [a, b][..1] == [a];
  }

  lemma DigitFirst(a: char, b: char)
    requires IsHex(a)
    ensures ParseByte(a, b) == Strtoul8([a, b])
  {
    TwoDigits(a, b);
    OneDigit(a);
    assert [a, b][2..] == "" && [a, b][..2] == [a, b];
  }

  lemma NoDigitFirst(a: char, b: char)
    requires !IsHex(a)
    ensures ParseByte(a, b) == Strtoul8([a, b])
  {
    TwoDigits(a, b);
    OneDigit(b);
    assert [a, b][1..] == [b] && [b][1..] == "" && [a, b][..2] == [a, b];
    assert SkipSpace([b]) == if IsSpace(b) then "" else [b];
  }

  /** The cases of two characters are those of the whole grammar. */
  lemma ParseByteIsStrtoul(a: char, b: char)
    ensures ParseByte(a, b) == Strtoul8([a, b])
  {
    if IsHex(a) {
      DigitFirst(a, b);
    } else {
      NoDigitFirst(a, b);
    }
  }

  lemma HexHasNoPrefix(s: string)
    requires AllHex(s)
    ensures SkipSpace(s) == s && SkipSign(s) == s && SkipBase(s) == s && (s != "" ==> s[0] != '-')
  {
    if |s| >= 2 {
      assert IsHex(s[0]) && IsHex(s[1]) && s[..2][1] == s[1];
      assert "0x"[1] == 'x' && "0X"[1] == 'X';
    }
  }

  lemma HexNumberReads(s: string)
    requires AllHex(s)
    ensures StreamNumber(s) == if HexValue(s) < COUNTS then HexValue(s) else COUNTS - 1
  {
    HexHasNoPrefix(s);
    AllDigitsLead(s);
  }

  /** The row count. */
  function ResultsSize(results: seq<string>): nat {
    if |results| > 2 then StreamNumber(results[2]) else 0
  }

  /** The loop's bound is computed in 32 bits. */
  function RowsRead(count: nat): nat {
    if 3 + count < COUNTS then count else 0
  }

  /** The words of row i of n are there, and long enough. */
  predicate RowReadable(results: seq<string>, n: nat, i: nat, keyLength: nat, valueLength: nat) {
    && 4 + n + i < |results|
    && LongEnough(results[3 + i], keyLength) && LongEnough(results[4 + n + i], valueLength)
  }

  function ParsedRow(results: seq<string>, n: nat, i: nat, keyLength: nat, valueLength: nat): Row
    requires 4 + n + i < |results|
  {
    Row(ParsedBytes(results[3 + i], keyLength), ParsedBytes(results[4 + n + i], valueLength))
  }

  /** Where the loop ends: the sum is cut to 32 bits. */
  function ScanBound(count: nat): (bound: nat)
    requires 0 < count < COUNTS
    ensures bound == if RowsRead(count) == 0 then 3 + count - COUNTS else 3 + count
    ensures RowsRead(count) == 0 ==> bound < 3
  {
    (3 + count) % COUNTS
  }

  method ReadRow(keyWord: string, valueWord: string, keyLength: nat, valueLength: nat) returns (row: Row)
    requires LongEnough(keyWord, keyLength) && LongEnough(valueWord, valueLength)
    ensures row == Row(ParsedBytes(keyWord, keyLength), ParsedBytes(valueWord, valueLength))
  {
    var key := new byte[keyLength];
    var value := new byte[valueLength];
    Parse32ByteHexString(keyWord, key, 0, keyLength);
    Parse32ByteHexString(valueWord, value, 0, valueLength);
    row := Row(key[..], value[..]);
  }

  /** Nothing comes back when a row is not there or cut short: the behaviour is then not defined. */
  method TableScanRows(results: seq<string>, keyLength: nat, valueLength: nat) returns (rows: Option<seq<Row>>)
    ensures rows.Some? <==> forall i :: 0 <= i < RowsRead(ResultsSize(results)) ==>
                              RowReadable(results, RowsRead(ResultsSize(results)), i, keyLength, valueLength)
    ensures rows.Some? ==>
              && |rows.value| == RowsRead(ResultsSize(results))
              && forall i :: 0 <= i < |rows.value| ==>
                   RowReadable(results, |rows.value|, i, keyLength, valueLength)
                   && rows.value[i] == ParsedRow(results, |rows.value|, i, keyLength, valueLength)
  {
    var read: seq<Row> := [];
    var count := ResultsSize(results);
    if count == 0 {
      return Some(read);
    }
    var bound := ScanBound(count);
    var i := 3;
    while i < bound
      invariant 3 <= i && |read| == i - 3
      invariant i <= if bound < 3 then 3 else bound
      invariant forall j :: 0 <= j < |read| ==>
                  RowReadable(results, count, j, keyLength, valueLength)
                  && read[j] == ParsedRow(results, count, j, keyLength, valueLength)
    {
      var valueIndex := i + count + 1;
      if valueIndex >= |results|
         || !LongEnough(results[i], keyLength) || !LongEnough(results[valueIndex], valueLength) {
        assert !RowReadable(results, count, i - 3, keyLength, valueLength);
        return None;
      }
      var row := ReadRow(results[i], results[valueIndex], keyLength, valueLength);
      read := read + [row];
      i := i + 1;
    }
    return Some(read);
  }

  // ---------------------------------------------------------------- the round trip

  ghost predicate TableWords(keys: seq<Bytes>, values: seq<Bytes>) {
    && |keys| == |values|
    && 128 + 32 * |keys| < SIZES
    && (forall i :: 0 <= i < |keys| ==> |keys[i]| == 32 && |values[i]| == 32)
  }

  lemma ScanWordAt(keys: seq<Bytes>, values: seq<Bytes>, i: nat)
    requires |keys| == |values| && i < |keys|
    ensures ScanWords(keys, values)[3 + i] == HexOf(keys[i])
    ensures ScanWords(keys, values)[4 + |keys| + i] == HexOf(values[i])
  {
    var words := ScanWords(keys, values);
    assert words[3 + i] == Section(keys)[1 + i];
    assert words[4 + |keys| + i] == Section(values)[1 + i];
  }

  lemma BytesOfPrefix(element: Bytes, length: nat)
    requires length <= |element|
    ensures BytesOf(HexOf(element), length) == element[..length]
  {
    BytesOfHexOf(element);
    assert forall i :: 0 <= i < length ==> BytesOf(HexOf(element), length)[i] == BytesOf(HexOf(element), |element|)[i];
  }

  ghost function FrontRows(keys: seq<Bytes>, values: seq<Bytes>, keyLength: nat, valueLength: nat): seq<Row>
    requires TableWords(keys, values) && keyLength <= 32 && valueLength <= 32
  {
    seq(|keys|, i requires 0 <= i < |keys| => Row(keys[i][..keyLength], values[i][..valueLength]))
  }

  lemma ScanSize(keys: seq<Bytes>, values: seq<Bytes>)
    requires TableWords(keys, values)
    ensures |ScanWords(keys, values)| == 4 + 2 * |keys|
    ensures RowsRead(ResultsSize(ScanWords(keys, values))) == if 3 + |keys| < COUNTS then |keys| else 0
  {
    NumberWord(|keys|);
    HexNumberReads(NumericToHex(|keys|, 64));
    assert ScanWords(keys, values)[2] == NumericToHex(|keys|, 64);
  }

  lemma ScanRowIs(keys: seq<Bytes>, values: seq<Bytes>, keyLength: nat, valueLength: nat, i: nat)
    requires TableWords(keys, values) && keyLength <= 32 && valueLength <= 32 && i < |keys|
    ensures RowReadable(ScanWords(keys, values), |keys|, i, keyLength, valueLength)
    ensures ParsedRow(ScanWords(keys, values), |keys|, i, keyLength, valueLength)
         == Row(keys[i][..keyLength], values[i][..valueLength])
  {
    ScanSize(keys, values);
    ScanWordAt(keys, values, i);
    HexOfIsHex(keys[i]);
    HexOfIsHex(values[i]);
    HexParses(HexOf(keys[i]), keyLength);
    HexParses(HexOf(values[i]), valueLength);
    BytesOfPrefix(keys[i], keyLength);
    BytesOfPrefix(values[i], valueLength);
  }

  lemma RowsOfScan(keys: seq<Bytes>, values: seq<Bytes>, keyLength: nat, valueLength: nat, read: Option<seq<Row>>)
    requires TableWords(keys, values) && keyLength <= 32 && valueLength <= 32
    requires var n := if 3 + |keys| < COUNTS then |keys| else 0;
             && (read.Some? <==> forall i :: 0 <= i < n ==>
                   RowReadable(ScanWords(keys, values), n, i, keyLength, valueLength))
             && (read.Some? ==> |read.value| == n && forall i :: 0 <= i < n ==>
                   RowReadable(ScanWords(keys, values), n, i, keyLength, valueLength)
                   && read.value[i] == ParsedRow(ScanWords(keys, values), n, i, keyLength, valueLength))
    ensures read.Some?
    ensures read.value == if 3 + |keys| < COUNTS then FrontRows(keys, values, keyLength, valueLength) else []
  {
    forall i | 0 <= i < |keys|
      ensures RowReadable(ScanWords(keys, values), |keys|, i, keyLength, valueLength)
      ensures ParsedRow(ScanWords(keys, values), |keys|, i, keyLength, valueLength)
           == Row(keys[i][..keyLength], values[i][..valueLength])
    {
      ScanRowIs(keys, values, keyLength, valueLength, i);
    }
  }

  /**
   * Scanning a table recovers the front of every key and of every value, in order, for as long as
   * the 32-bit loop bound does not wrap around; from then on it reads no row at all.
   */
  method ScanTable(response: string, keyLength: nat, valueLength: nat, ghost keys: seq<Bytes>, ghost values: seq<Bytes>)
    returns (rows: seq<Row>)
    requires keyLength <= 32 && valueLength <= 32
    requires TableWords(keys, values) && response == Join(ScanWords(keys, values))
    ensures 3 + |keys| < COUNTS ==> rows == FrontRows(keys, values, keyLength, valueLength)
    ensures 3 + |keys| >= COUNTS ==> rows == []
  {
    ScanWordsAreAbi(keys, values);
    var results := Split(response, 64);
    WordsSplitOneWay(ScanWords(keys, values), results);
    ScanSize(keys, values);
    var read := TableScanRows(results, keyLength, valueLength);
    RowsOfScan(keys, values, keyLength, valueLength, read);
    rows := read.value;
  }

  ghost predicate RowsOfSize(rows: seq<Row>, keyLength: nat, valueLength: nat) {
    && keyLength <= 32 && valueLength <= 32 && 128 + 32 * |rows| < SIZES
    && forall i :: 0 <= i < |rows| ==> |rows[i].key| == keyLength && |rows[i].value| == valueLength
  }

  /** Rows that went out padded to words come back from a scan byte for byte. */
  lemma PaddedRowsComeBack(rows: seq<Row>, keyLength: nat, valueLength: nat)
    requires RowsOfSize(rows, keyLength, valueLength)
    ensures TableWords(PadAll(KeysIn(rows)), PadAll(ValuesIn(rows)))
    ensures FrontRows(PadAll(KeysIn(rows)), PadAll(ValuesIn(rows)), keyLength, valueLength) == rows
  {
  }
}
