/** Hexadecimal text: what the connector's string streams write, and how it is read back. */
module Hex {
  import opened Types

  const DIGITS := "0123456789abcdef"

  function Digit(d: nat): (c: char)
    requires d < 16
  {
    DIGITS[d]
  }

  predicate IsHex(c: char) {
    '0' <= c <= '9' || 'a' <= c <= 'f' || 'A' <= c <= 'F'
  }

  predicate AllHex(s: string) {
    forall i :: 0 <= i < |s| ==> IsHex(s[i])
  }

  /** Characters that are not digits count as zero. */
  function DigitValue(c: char): (d: nat)
    ensures d < 16
  {
    if '0' <= c <= '9' then c as int - '0' as int
    else if 'a' <= c <= 'f' then c as int - 'a' as int + 10
    else if 'A' <= c <= 'F' then c as int - 'A' as int + 10
    else 0
  }

  /** Digits count up from '0' to '9', and on from 'a'. */
  lemma DigitRoundTrip(d: nat)
    requires d < 16
    ensures Digit(d) as int == if d < 10 then '0' as int + d else 'a' as int + (d - 10)
    ensures IsHex(Digit(d)) && DigitValue(Digit(d)) == d
  {
  }

  /** The number a string of hex digits stands for. */
  function HexValue(s: string): nat {
    if s == "" then 0 else 16 * HexValue(s[..|s| - 1]) + DigitValue(s[|s| - 1])
  }

  /** A number in hex, without leading zeros. */
  function HexNumeral(n: nat): (s: string)
    ensures AllHex(s) && |s| > 0
  {
    DigitRoundTrip(n % 16);
    if n < 16 then [Digit(n)] else HexNumeral(n / 16) + [Digit(n % 16)]
  }

  /** A number in decimal, without leading zeros. */
  function DecimalNumeral(n: nat): (s: string)
    ensures AllHex(s) && |s| > 0
  {
    DigitRoundTrip(n % 10);
    if n < 10 then [Digit(n)] else DecimalNumeral(n / 10) + [Digit(n % 10)]
  }

  function Repeat(c: char, n: nat): string {
    seq(n, i => c)
  }

  /** `setw(width) << setfill('0')`: fills on the left, never cuts. */
  function SetW(s: string, width: nat): (t: string)
    ensures |t| == if |s| < width then width else |s|
    ensures AllHex(s) ==> AllHex(t)
  {
    if |s| < width then Repeat('0', width - |s|) + s else s
  }

  /** `numeric_to_hex` */
  function NumericToHex(n: nat, size: nat): (s: string)
    ensures AllHex(s) && |s| >= size
  {
    SetW(HexNumeral(n), size)
  }

  // ---------------------------------------------------------------- numbers

  lemma {:induction false} NumeralRoundTrip(n: nat)
    ensures HexValue(HexNumeral(n)) == n
  {
    DigitRoundTrip(n % 16);
    if n < 16 {
      assert HexNumeral(n)[..0] == "";
    } else {
      NumeralRoundTrip(n / 16);
      var s := HexNumeral(n);
      assert s[..|s| - 1] == HexNumeral(n / 16);
    }
  }

  /** A decimal numeral read as hex is too big as soon as it has two digits. */
  lemma {:induction false} DecimalReadAsHex(n: nat)
    ensures n < 10 ==> HexValue(DecimalNumeral(n)) == n
    ensures n >= 10 ==> HexValue(DecimalNumeral(n)) >= n + 6
  {
    var s := DecimalNumeral(n);
    DigitRoundTrip(n % 10);
    if n < 10 {
      assert s[..0] == "";
    } else {
      DecimalReadAsHex(n / 10);
      assert s[..|s| - 1] == DecimalNumeral(n / 10);
    }
  }

  lemma {:induction false} LeadingZeros(k: nat, s: string)
    ensures HexValue(Repeat('0', k) + s) == HexValue(s)
    decreases |s|, k
  {
    var t := Repeat('0', k) + s;
    if s != "" {
      LeadingZeros(k, s[..|s| - 1]);
      assert t[..|t| - 1] == Repeat('0', k) + s[..|s| - 1];
    } else if k > 0 {
      LeadingZeros(k - 1, s);
      assert t[..|t| - 1] == Repeat('0', k - 1) + s;
    }
  }

  lemma SetWKeepsValue(s: string, width: nat)
    ensures HexValue(SetW(s, width)) == HexValue(s)
  {
    if |s| < width {
      LeadingZeros(width - |s|, s);
    }
  }


  function Power16(k: nat): nat {
    if k == 0 then 1 else 16 * Power16(k - 1)
  }

  lemma {:induction false} NumeralLength(n: nat, k: nat)
    requires k > 0 && n < Power16(k)
    ensures |HexNumeral(n)| <= k
  {
    if n >= 16 {
      NumeralLength(n / 16, k - 1);
    }
  }

  // ---------------------------------------------------------------- bytes

  function HexOfByte(b: byte): (s: string)
    ensures |s| == 2
  {
    [Digit(b / 16), Digit(b % 16)]
  }

  /** Two digits for each byte. */
  function HexOf(data: Bytes): (s: string)
    ensures |s| == 2 * |data|
  {
    if data == [] then "" else HexOf(data[..|data| - 1]) + HexOfByte(data[|data| - 1])
  }

  /** The byte at position i of hex text. */
  function ByteAt(s: string, i: nat): byte
    requires 2 * i + 2 <= |s|
  {
    16 * DigitValue(s[2 * i]) + DigitValue(s[2 * i + 1])
  }

  function BytesOf(s: string, length: nat): (data: Bytes)
    requires 2 * length <= |s|
    ensures |data| == length
  {
    seq(length, i requires 0 <= i < length => ByteAt(s, i))
  }

  lemma {:induction false} HexOfRoundTrip(data: Bytes, i: nat)
    requires i < |data|
    ensures ByteAt(HexOf(data), i) == data[i]
  {
    var last := |data| - 1;
    DigitRoundTrip(data[last] / 16);
    DigitRoundTrip(data[last] % 16);
    if i < last {
      HexOfRoundTrip(data[..last], i);
    }
  }

  lemma {:induction false} HexOfIsHex(data: Bytes)
    ensures AllHex(HexOf(data))
  {
    if data != [] {
      HexOfIsHex(data[..|data| - 1]);
      DigitRoundTrip(data[|data| - 1] / 16);
      DigitRoundTrip(data[|data| - 1] % 16);
    }
  }

  /** What the stream writes for one byte, at width two, is its two digits. */
  lemma ByteAtWidthTwo(b: byte)
    ensures NumericToHex(b, 2) == HexOfByte(b)
  {
    if b < 16 {
      assert HexNumeral(b) == [Digit(b)];
      assert Repeat('0', 1) == "0";
    } else {
      assert HexNumeral(b) == HexNumeral(b / 16) + [Digit(b % 16)];
    }
  }
}
