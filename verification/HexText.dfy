/** ByteToHex and HexToByte (src/plugin/core/config/myrc4.cc). */
module HexText {
  import opened Bytes

  /** A signed C++ `char`; a C string is the characters before its NUL. */
  type Char = c: int | -128 <= c < 128

  const ZERO := 48
  const NINE := 57
  const UPPER_A := 65
  const UPPER_F := 70

  function Digit(n: nat): (c: Char)
    requires n < 16
  {
    n + if n > 9 then UPPER_A - 10 else ZERO
  }

  /** What HexToByte takes a character for: unbounded below, and 16 or more for a rejected one. */
  function Value(c: Char): int {
    c - if c >= UPPER_A then UPPER_A - 10 else ZERO
  }

  predicate IsDigit(c: Char) {
    ZERO <= c <= NINE || UPPER_A <= c <= UPPER_F
  }

  function Hex(bytes: seq<Byte>): (s: seq<Char>)
    ensures |s| == 2 * |bytes|
  {
    seq(2 * |bytes|, i requires 0 <= i < 2 * |bytes| =>
      Digit(if i % 2 == 0 then bytes[i / 2] / 16 else bytes[i / 2] % 16))
  }

  predicate Accepted(s: seq<Char>) {
    |s| > 0 && |s| % 2 == 0 && forall i :: 0 <= i < |s| ==> Value(s[i]) < 16
  }

  /** The byte of a pair of characters: the sum is cut to eight bits. */
  function Pair(high: Char, low: Char): Byte {
    (Value(high) * 16 + Value(low)) % 0x100
  }

  function Unhex(s: seq<Char>): (bytes: seq<Byte>)
    requires |s| % 2 == 0
    ensures |bytes| == |s| / 2
  {
    seq(|s| / 2, i requires 0 <= i < |s| / 2 => Pair(s[2 * i], s[2 * i + 1]))
  }

  lemma DigitRoundTrip(n: nat)
    requires n < 16
    ensures IsDigit(Digit(n)) && Value(Digit(n)) == n
  {
  }

  lemma HexPair(bytes: seq<Byte>, i: nat)
    requires i < |bytes|
    ensures Hex(bytes)[2 * i] == Digit(bytes[i] / 16) && Hex(bytes)[2 * i + 1] == Digit(bytes[i] % 16)
  {
  }

  lemma HexIsDigits(bytes: seq<Byte>)
    ensures forall i :: 0 <= i < 2 * |bytes| ==> IsDigit(Hex(bytes)[i]) && Value(Hex(bytes)[i]) < 16
  {
  }

  /** Each byte is written as two of the sixteen digits, its high half first. */
  lemma HexDigits(bytes: seq<Byte>, i: nat)
    requires i < |bytes|
    ensures Hex(bytes)[2 * i] == "0123456789ABCDEF"[bytes[i] / 16] as int
    ensures Hex(bytes)[2 * i + 1] == "0123456789ABCDEF"[bytes[i] % 16] as int
  {
    HexPair(bytes, i);
    assert forall n: nat :: n < 16 ==> Digit(n) == "0123456789ABCDEF"[n] as int;
  }

  /** HexToByte undoes ByteToHex, and takes what it wrote, exactly for the non-empty byte strings. */
  lemma BytesSurviveHex(bytes: seq<Byte>)
    ensures Accepted(Hex(bytes)) <==> bytes != []
    ensures Unhex(Hex(bytes)) == bytes
  {
    HexIsDigits(bytes);
    forall i | 0 <= i < |bytes|
      ensures Unhex(Hex(bytes))[i] == bytes[i]
    {
      HexPair(bytes, i);
      DigitRoundTrip(bytes[i] / 16);
      DigitRoundTrip(bytes[i] % 16);
    }
  }

  /** ByteToHex undoes HexToByte exactly for text made of the sixteen digits with upper-case letters. */
  lemma TextSurvivesIff(s: seq<Char>)
    requires Accepted(s)
    ensures Hex(Unhex(s)) == s <==> forall i :: 0 <= i < |s| ==> IsDigit(s[i])
  {
    HexIsDigits(Unhex(s));
    if forall i :: 0 <= i < |s| ==> IsDigit(s[i]) {
      forall k | 0 <= k < |s| / 2
        ensures Hex(Unhex(s))[2 * k] == s[2 * k] && Hex(Unhex(s))[2 * k + 1] == s[2 * k + 1]
      {
        HexPair(Unhex(s), k);
        PairOfDigits(s[2 * k], s[2 * k + 1]);
      }
      SamePairs(Hex(Unhex(s)), s);
    }
  }

  lemma SamePairs(s: seq<Char>, t: seq<Char>)
    requires |s| == |t| && |s| % 2 == 0
    requires forall k :: 0 <= k < |s| / 2 ==> s[2 * k] == t[2 * k] && s[2 * k + 1] == t[2 * k + 1]
    ensures s == t
  {
    forall i | 0 <= i < |s|
      ensures s[i] == t[i]
    {
      assert i == 2 * (i / 2) || i == 2 * (i / 2) + 1;
    }
  }

  lemma HalvesOfByte(a: nat, b: nat)
    requires a < 16 && b < 16
    ensures (a * 16 + b) % 0x100 == a * 16 + b && (a * 16 + b) / 16 == a && (a * 16 + b) % 16 == b
  {
  }

  lemma DigitOfValue(c: Char)
    requires IsDigit(c)
    ensures 0 <= Value(c) < 16 && Digit(Value(c)) == c
  {
  }

  lemma PairOfDigits(high: Char, low: Char)
    requires IsDigit(high) && IsDigit(low)
    ensures Digit(Pair(high, low) / 16) == high && Digit(Pair(high, low) % 16) == low
  {
    var a, b := Value(high), Value(low);
    DigitOfValue(high);
    DigitOfValue(low);
    HalvesOfByte(a, b);
    assert Pair(high, low) / 16 == a && Pair(high, low) % 16 == b;
  }

  /** Besides the digits HexToByte takes every character up to the question mark, control codes included. */
  lemma AcceptedIff(s: seq<Char>)
    ensures Accepted(s) <==>
      |s| > 0 && |s| % 2 == 0 && forall i :: 0 <= i < |s| ==> s[i] < UPPER_A - 1 || UPPER_A <= s[i] <= UPPER_F
  {
    assert forall c: Char :: Value(c) < 16 <==> c < UPPER_A - 1 || UPPER_A <= c <= UPPER_F;
  }

  /** ByteToHex: a fresh C string. */
  method ByteToHex(vByte: seq<Byte>) returns (tmp: array<Char>)
    ensures fresh(tmp) && tmp[..] == Hex(vByte) + [0]
  {
    tmp := new Char[|vByte| * 2 + 1];
    for i := 0 to |vByte|
      invariant forall j :: 0 <= j < 2 * i ==> tmp[j] == Hex(vByte)[j]
    {
      HexPair(vByte, i);
      var tmp2 := vByte[i] / 16;
      tmp[i * 2] := Digit(tmp2);
      tmp2 := vByte[i] % 16;
      tmp[i * 2 + 1] := Digit(tmp2);
    }
    tmp[|vByte| * 2] := 0;
  }

  /** HexToByte: null for text it rejects. */
  method HexToByte(szHex: seq<Char>) returns (pbBuf: array?<Byte>)
    ensures pbBuf != null <==> Accepted(szHex)
    ensures pbBuf != null ==> fresh(pbBuf) && pbBuf[..] == Unhex(szHex)
  {
    if |szHex| <= 0 || 0 != |szHex| % 2 {
      return null;
    }
    var buffer := new Byte[|szHex| / 2];
    for i := 0 to |szHex| / 2
      invariant forall j :: 0 <= j < 2 * i ==> Value(szHex[j]) < 16
      invariant forall j :: 0 <= j < i ==> buffer[j] == Unhex(szHex)[j]
    {
      var tmp1 := Value(szHex[i * 2]);
      if tmp1 >= 16 {
        return null;
      }
      var tmp2 := Value(szHex[i * 2 + 1]);
      if tmp2 >= 16 {
        return null;
      }
      buffer[i] := (tmp1 * 16 + tmp2) % 0x100;
    }
    pbBuf := buffer;
  }
}
