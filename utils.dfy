/** The bit and byte conversions of utils.py: one bit of a byte, a byte as
    eight '0'/'1' characters, an ASCII string as its space-separated byte
    strings, counting the bits of such a string, and an integer as big-endian
    bytes. */
module Utils {
  import opened PyBuiltins

  /** Bit number `bitNum` of `byte`, counting from the right. */
  function GetBit(byte: nat, bitNum: nat): (r: nat)
    ensures r <= 1
    ensures byte < Pow2(bitNum) ==> r == 0
  {
    (byte / Pow2(bitNum)) % 2
  }

  lemma GetBitExamples()
    ensures GetBit(0xB5, 9) == 0 && GetBit(0xB5, 8) == 0 && GetBit(0xB5, 7) == 1
    ensures GetBit(0xB5, 2) == 1 && GetBit(0xB5, 1) == 0 && GetBit(0xB5, 0) == 1
  {
  }

  /** `str(get_bit(byte, bitNum))`. */
  function BitCharOf(byte: nat, bitNum: nat): (c: char)
    ensures c == '0' || c == '1'
  {
    BitChar(GetBit(byte, bitNum))
  }

  /** The eight bits of `byte` as characters, most significant first. */
  function ByteToBits(byte: nat): (r: string)
    ensures |r| == 8 && IsBinary(r)
  {
    seq(8, i requires 0 <= i < 8 => BitCharOf(byte, 7 - i))
  }

  /** Reading the first m characters of `ByteToBits(b)` in base 2 gives the top m bits of b. */
  lemma {:induction false} ByteToBitsPrefix(byte: nat, m: nat)
    requires byte < 256 && m <= 8
    ensures FromBinary(ByteToBits(byte)[..m]) == byte / Pow2(8 - m)
    decreases m
  {
    var r := ByteToBits(byte);
    if m == 0 {
      assert Pow2(8) == 256;
    } else {
      ByteToBitsPrefix(byte, m - 1);
      assert r[..m][..m - 1] == r[..m - 1];
      var q := byte / Pow2(8 - m);
      DivModNested(byte, Pow2(8 - m), 2);
      assert Pow2(8 - m) * 2 == Pow2(8 - (m - 1));
      assert byte / Pow2(8 - (m - 1)) == q / 2;
      assert r[m - 1] == BitChar(q % 2);
    }
  }

  /** `byte_to_bits` is undone by `int(s, 2)`. */
  lemma ByteToBitsRoundTrip(byte: nat)
    requires byte < 256
    ensures FromBinary(ByteToBits(byte)) == byte
  {
    ByteToBitsPrefix(byte, 8);
    assert ByteToBits(byte)[..8] == ByteToBits(byte);
  }

  /** Compares `ByteToBits(byte)` with an expected string one position at a time. */
  lemma ByteToBitsIs(byte: nat, expected: string)
    requires expected == [BitCharOf(byte, 7), BitCharOf(byte, 6), BitCharOf(byte, 5), BitCharOf(byte, 4),
                          BitCharOf(byte, 3), BitCharOf(byte, 2), BitCharOf(byte, 1), BitCharOf(byte, 0)]
    ensures ByteToBits(byte) == expected
  {
  }

  lemma ByteToBitsExamples()
    ensures ByteToBits(14) == "00001110"
  {
    ByteToBitsIs(14, "00001110");
  }

  /** The zero byte is eight '0' characters. */
  lemma ByteToBitsZero()
    ensures ByteToBits(0) == "00000000"
  {
    ByteToBitsIs(0, "00000000");
  }

  /** The strings `bytes(s, 'ascii')` accepts. */
  predicate IsAscii(s: string)
  {
    forall i :: 0 <= i < |s| ==> s[i] as int < 128
  }

  /** `bytes(s, 'ascii')`: one byte per character, the character's code. */
  function GetBytes(s: string): (r: seq<nat>)
    requires IsAscii(s)
    ensures |r| == |s| && AreBytes(r)
    ensures forall i :: 0 <= i < |s| ==> r[i] as char == s[i]
  {
    seq(|s|, i requires 0 <= i < |s| => s[i] as nat)
  }

  /** `[byte_to_bits(b) for b in bs]` */
  function ByteTokens(bs: seq<nat>): (r: seq<string>)
    ensures |r| == |bs|
    ensures ByteStrings(r)
  {
    seq(|bs|, i requires 0 <= i < |bs| => ByteToBits(bs[i]))
  }

  /** Byte strings read back with `int(t, 2)` each, as one big-endian number. */
  function TokensValue(ts: seq<string>): nat
    requires ByteStrings(ts)
  {
    if ts == [] then 0 else TokensValue(ts[..|ts| - 1]) * 256 + FromBinary(ts[|ts| - 1])
  }

  /** Reading the byte strings of a byte list back gives the list's big-endian value. */
  lemma {:induction false} ByteTokensValue(bs: seq<nat>)
    requires AreBytes(bs)
    ensures TokensValue(ByteTokens(bs)) == FromBase256(bs)
  {
    if bs != [] {
      var front := bs[..|bs| - 1];
      ByteTokensValue(front);
      assert ByteTokens(bs)[..|bs| - 1] == ByteTokens(front);
      ByteToBitsRoundTrip(bs[|bs| - 1]);
    }
  }

  /** Every entry is eight '0'/'1' characters: the shape of one byte string. */
  predicate ByteStrings(ts: seq<string>)
  {
    forall i :: 0 <= i < |ts| ==> |ts[i]| == 8 && IsBinary(ts[i]) && ' ' !in ts[i]
  }

  /** `get_bits_as_string`: the byte strings of the ASCII codes, joined by
      single spaces. Splitting at the spaces gives the byte strings back. */
  function GetBitsAsString(s: string): (r: string)
    requires IsAscii(s)
    ensures s == "" <==> r == ""
    ensures s != "" ==> Split(r) == ByteTokens(GetBytes(s))
  {
    var ts := ByteTokens(GetBytes(s));
    if s != "" then
      SplitJoin(ts);
      JoinSize(ts);
      Join(ts)
    else
      Join(ts)
  }

  /** `get_number_of_bits_from_bit_string`: the length without the spaces. */
  function GetNumberOfBitsFromBitString(bitString: string): (n: nat)
    ensures n <= |bitString|
    ensures ' ' !in bitString ==> n == |bitString|
  {
    if ' ' !in bitString then CountAbsent(bitString, ' '); |bitString| - Count(bitString, ' ')
    else |bitString| - Count(bitString, ' ')
  }

  /** A string of n characters becomes 9n - 1 characters (8 per byte, one space between). */
  lemma BitStringLength(s: string)
    requires IsAscii(s)
    ensures |GetBitsAsString(s)| == if |s| == 0 then 0 else 9 * |s| - 1
    ensures GetNumberOfBitsFromBitString(GetBitsAsString(s)) == 8 * |s|
  {
    var ts := ByteTokens(GetBytes(s));
    assert NoSpaces(ts);
    if |s| > 0 {
      JoinSize(ts);
    }
  }

  lemma GetBitsAsStringExamples()
    ensures GetBitsAsString("0") == "00110000"
    ensures GetBitsAsString("2") == "00110010"
  {
    ByteToBitsIs(48, "00110000");
    ByteToBitsIs(50, "00110010");
    assert GetBytes("0") == [48];
    assert GetBytes("2") == [50];
  }

  /** `int_to_bytes`: big-endian bytes of `num`, one more than `bit_length() // 8`. */
  function IntToBytes(num: nat): (r: seq<nat>)
    ensures |r| == BitLength(num) / 8 + 1 && AreBytes(r)
    ensures FromBase256(r) == num
  {
    var w := BitLength(num) / 8 + 1;
    Pow2Monotonic(BitLength(num), 8 * w);
    Pow2TimesEight(w);
    ToBytesBigValue(num, w);
    ToBytesBig(num, w)
  }

  /** A number whose bit length is a multiple of 8 gets a leading zero byte. */
  lemma IntToBytesLeadingZero(num: nat)
    requires BitLength(num) % 8 == 0
    ensures IntToBytes(num)[0] == 0
  {
    var k := BitLength(num) / 8;
    Pow2TimesEight(k);
    ToBytesBigLeadingZero(num, k);
  }

  lemma IntToBytesExamples()
    ensures IntToBytes(400) == [1, 144]
  {
    assert BitLength(0) == 0;
    assert BitLength(1) == 1;
    assert BitLength(3) == 2;
    assert BitLength(6) == 3;
    assert BitLength(12) == 4;
    assert BitLength(25) == 5;
    assert BitLength(50) == 6;
    assert BitLength(100) == 7;
    assert BitLength(200) == 8;
    assert BitLength(400) == 9;
    assert ToBytesBig(400, 2) == [1, 144];
  }
}
