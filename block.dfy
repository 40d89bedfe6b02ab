/** One 512-bit block of block.py. A block holds `packagedBits`, 64 byte
    strings of eight '0'/'1' characters each, and `hexaLst`, the message words
    that hash_main.py appends to it later. The three Python subclasses
    (CompleteBlock, MidBlock, PaddedBlock) become three constructors of one
    class tagged with a `BlockKind`. */
module Blocks {
  import opened PyBuiltins
  import opened Utils

  /** The all-zero byte string and the padding marker (a 1 bit, then zeros). */
  const Zero8: string := "00000000"
  const Marker: string := "10000000"

  datatype BlockKind = Complete | Mid | Padded

  /** CompleteBlock: the last 64 entries of the space-split bit string (all
      of them when there are fewer). */
  function CompleteLayout(bitString: string): (r: seq<string>)
    ensures |r| == if |Split(bitString)| >= 64 then 64 else |Split(bitString)|
    ensures forall i :: 0 <= i < |r| ==> r[i] == Split(bitString)[|Split(bitString)| - |r| + i]
  {
    PyTakeLast(Split(bitString), 64)
  }

  /** MidBlock: the split bit string, the marker, then zero bytes up to 512 bits
      (no room is left for a length field). Over n byte strings with
      448 <= 8n < 512 this is exactly 64 entries. */
  function MidLayout(bitString: string, bitLength: nat): (r: seq<string>)
    ensures var n := |Split(bitString)|;
      && |r| > n && r[..n] == Split(bitString) && r[n] == Marker
      && r[n + 1..] == Repeat(Zero8, |r| - n - 1)
    ensures bitLength == 8 * |Split(bitString)| && 448 <= bitLength < 512 ==> |r| == 64
  {
    var ts := Split(bitString);
    var r := ts + [Marker] + Repeat(Zero8, (512 - 1 - bitLength - 7) / 8);
    assert r[..|ts|] == ts;
    assert r[|ts| + 1..] == Repeat(Zero8, (512 - 1 - bitLength - 7) / 8);
    r
  }

  /** The 8-entry length field: the big-endian bytes of `fixedBitLength` mod 2^64,
      each as a byte string. */
  function LengthTokens(fixedBitLength: nat): (r: seq<string>)
    ensures |r| == 8 && ByteStrings(r)
  {
    assert Pow256(8) == LengthModulus;
    ByteTokens(ToBytesBig(fixedBitLength % LengthModulus, 8))
  }

  /** 2^64: the length field keeps the bit length modulo this. */
  const LengthModulus: nat := 0x1_0000_0000_0000_0000

  /** PaddedBlock: the split bit string (nothing when it is empty), one marker
      byte that is all zeros when `bitLength` is 0, zero bytes up to 448 bits,
      then the length field. Over n <= 55 byte strings (8n bits) this is
      exactly 64 entries. */
  function PaddedLayout(bitString: string, bitLength: nat, fixedBitLength: nat): (r: seq<string>)
    ensures var n := if bitString != "" then |Split(bitString)| else 0;
      && |r| > n && r[..n] == (if bitString != "" then Split(bitString) else [])
      && r[n] == (if bitLength == 0 then Zero8 else Marker)
    ensures var n := if bitString != "" then |Split(bitString)| else 0;
      bitLength == 8 * n && n <= 55 ==> |r| == 64
  {
    var ts := if bitString != "" then Split(bitString) else [];
    var r := ts
      + [if bitLength == 0 then Zero8 else Marker]
      + Repeat(Zero8, (448 - 1 - bitLength - 7) / 8)
      + LengthTokens(fixedBitLength);
    assert r[..|ts|] == ts;
    r
  }

  /** Every PaddedBlock ends with the length field. */
  lemma PaddedLayoutEndsWithLength(bitString: string, bitLength: nat, fixedBitLength: nat)
    ensures var p := PaddedLayout(bitString, bitLength, fixedBitLength);
      |p| >= 8 && p[|p| - 8..] == LengthTokens(fixedBitLength)
  {
  }

  /** `int_to_bytes` fits its value exactly in its own length. */
  lemma IntToBytesFits(num: nat)
    ensures num < Pow256(|IntToBytes(num)|)
    ensures IntToBytes(num) == ToBytesBig(num, |IntToBytes(num)|)
  {
    var w := BitLength(num) / 8 + 1;
    Pow2Monotonic(BitLength(num), 8 * w);
    Pow2TimesEight(w);
  }

  lemma ByteTokensSuffix(bs: seq<nat>, k: nat)
    requires k <= |bs|
    ensures ByteTokens(bs)[k..] == ByteTokens(bs[k..])
  {
  }

  lemma ByteTokensOfZeros(n: nat, bs: seq<nat>)
    ensures ByteTokens(Repeat(0, n) + bs) == Repeat(Zero8, n) + ByteTokens(bs)
  {
    ByteToBitsZero();
  }

  /** When `int_to_bytes(fixedBitLength)` has at least 8 bytes, its last 8
      byte strings are the big-endian encoding of `fixedBitLength` mod 2^64. */
  lemma LengthFieldKeepsLowBytes(fixedBitLength: nat)
    requires |IntToBytes(fixedBitLength)| >= 8
    ensures ByteTokens(IntToBytes(fixedBitLength))[|IntToBytes(fixedBitLength)| - 8..]
         == LengthTokens(fixedBitLength)
  {
    var bytes := IntToBytes(fixedBitLength);
    IntToBytesFits(fixedBitLength);
    LowBytesTokens(fixedBitLength, |bytes|, bytes);
  }

  lemma LowBytesTokens(n: nat, w: nat, bytes: seq<nat>)
    requires 8 <= w && n < Pow256(w) && bytes == ToBytesBig(n, w)
    ensures ByteTokens(bytes)[w - 8..] == LengthTokens(n)
  {
    assert Pow256(8) == LengthModulus;
    ToBytesBigSuffix(n, w, 8);
    ByteTokensSuffix(bytes, w - 8);
  }

  /** When `int_to_bytes(fixedBitLength)` has fewer than 8 bytes, padding it
      on the left with zero byte strings gives the same 8-byte encoding. */
  lemma LengthFieldZeroExtends(fixedBitLength: nat)
    requires |IntToBytes(fixedBitLength)| < 8
    ensures Repeat(Zero8, 8 - |IntToBytes(fixedBitLength)|) + ByteTokens(IntToBytes(fixedBitLength))
         == LengthTokens(fixedBitLength)
  {
    var bytes := IntToBytes(fixedBitLength);
    IntToBytesFits(fixedBitLength);
    ZeroExtendedTokens(fixedBitLength, |bytes|, bytes);
  }

  lemma ZeroExtendedTokens(n: nat, w: nat, bytes: seq<nat>)
    requires w < 8 && n < Pow256(w) && bytes == ToBytesBig(n, w)
    ensures Repeat(Zero8, 8 - w) + ByteTokens(bytes) == LengthTokens(n)
  {
    ToBytesBigZeroExtend(n, w, 8);
    assert Pow256(8) == LengthModulus;
    LengthTokensSmall(n);
    ByteTokensOfZeros(8 - w, bytes);
  }

  /** Below 2^64 the length field is the 8-byte rendering of the length itself. */
  lemma LengthTokensSmall(n: nat)
    requires n < LengthModulus
    ensures LengthTokens(n) == ByteTokens(ToBytesBig(n, 8))
  {
    DivModUnique(n, LengthModulus, 0, n);
  }

  /** The length field, each byte string read back with `int(t, 2)`, most
      significant first, is `fixedBitLength` mod 2^64. */
  lemma LengthTokensValue(fixedBitLength: nat)
    ensures TokensValue(LengthTokens(fixedBitLength)) == fixedBitLength % LengthModulus
  {
    assert Pow256(8) == LengthModulus;
    var bytes := ToBytesBig(fixedBitLength % LengthModulus, 8);
    ToBytesBigValue(fixedBitLength % LengthModulus, 8);
    ByteTokensValue(bytes);
  }

  /** The loop `for i in range(-8, 0, 1)` of `_populate_packaged_bits`:
      appends the last 8 entries of `lst`, in order. */
  method AppendLastEight(bits: seq<string>, lst: seq<string>) returns (r: seq<string>)
    requires |lst| >= 8
    ensures r == bits + lst[|lst| - 8..]
  {
    var n := |lst|;
    r := bits;
    var i := -8;
    while i < 0
      invariant -8 <= i <= 0
      invariant r == bits + lst[n - 8..n + i]
    {
      r := r + [lst[n + i]];
      i := i + 1;
    }
    assert lst[n - 8..n + 0] == lst[n - 8..];
  }

  /** The end of `_populate_packaged_bits`: appends the byte strings of
      `int_to_bytes(fixedBitLength)`, keeping only the last 8 when there are
      at least 8 and padding on the left with zero bytes otherwise. */
  method AppendLengthField(bits: seq<string>, fixedBitLength: nat) returns (r: seq<string>)
    ensures r == bits + LengthTokens(fixedBitLength)
  {
    var lengthAsBytes := IntToBytes(fixedBitLength);
    var lengthAsBitsLst := ByteTokens(lengthAsBytes);
    var n := |lengthAsBitsLst|;
    LengthFieldOf(fixedBitLength, lengthAsBitsLst);
    if n * 8 >= 64 {
      r := AppendLastEight(bits, lengthAsBitsLst);
      return;
    }
    var zeros := Repeat(Zero8, 8 - n);
    r := bits + zeros;
    r := r + lengthAsBitsLst;
    assert r == bits + (zeros + lengthAsBitsLst);
  }

  /** Both branches of the length field, stated on the byte strings of
      `int_to_bytes(fixedBitLength)`. */
  lemma LengthFieldOf(fixedBitLength: nat, lst: seq<string>)
    requires lst == ByteTokens(IntToBytes(fixedBitLength))
    ensures |lst| >= 8 ==> lst[|lst| - 8..] == LengthTokens(fixedBitLength)
    ensures |lst| < 8 ==> Repeat(Zero8, 8 - |lst|) + lst == LengthTokens(fixedBitLength)
  {
    var bytes := IntToBytes(fixedBitLength);
    IntToBytesFits(fixedBitLength);
    FieldOfEncoding(fixedBitLength, |bytes|, bytes, lst);
  }

  /** Both branches of the length field over a w-byte big-endian encoding. */
  lemma FieldOfEncoding(n: nat, w: nat, bytes: seq<nat>, lst: seq<string>)
    requires n < Pow256(w) && bytes == ToBytesBig(n, w) && lst == ByteTokens(bytes)
    ensures |lst| >= 8 ==> lst[|lst| - 8..] == LengthTokens(n)
    ensures |lst| < 8 ==> Repeat(Zero8, 8 - |lst|) + lst == LengthTokens(n)
  {
    if w >= 8 {
      LowBytesTokens(n, w, bytes);
    } else {
      ZeroExtendedTokens(n, w, bytes);
    }
  }

  class Block {
    const kind: BlockKind
    const packagedBits: seq<string>
    var hexaLst: seq<string>

    constructor CompleteBlock(bitString: string)
      ensures kind == Complete && packagedBits == CompleteLayout(bitString)
      ensures hexaLst == []
    {
      var bitLst := Split(bitString);
      kind := Complete;
      packagedBits := PyTakeLast(bitLst, 64);
      hexaLst := [];
    }

    constructor MidBlock(bitString: string, bitLength: nat)
      ensures kind == Mid && packagedBits == MidLayout(bitString, bitLength)
      ensures hexaLst == []
    {
      var bits := Split(bitString);
      var numberOfZerosTo512 := 512 - 1 - bitLength;
      bits := bits + [Marker];
      bits := bits + Repeat(Zero8, (numberOfZerosTo512 - 7) / 8);
      kind := Mid;
      packagedBits := bits;
      hexaLst := [];
    }

    constructor PaddedBlock(bitString: string, bitLength: nat, fixedBitLength: nat)
      ensures kind == Padded && packagedBits == PaddedLayout(bitString, bitLength, fixedBitLength)
      ensures hexaLst == []
    {
      var bits: seq<string> := [];
      var numberOfZerosTo448 := 448 - 1 - bitLength;
      if bitString != "" {
        bits := Split(bitString);
      }
      if bitLength == 0 {
        bits := bits + [Zero8];
      } else {
        bits := bits + [Marker];
      }
      bits := bits + Repeat(Zero8, (numberOfZerosTo448 - 7) / 8);
      bits := AppendLengthField(bits, fixedBitLength);
      kind := Padded;
      packagedBits := bits;
      hexaLst := [];
    }

    /** `update_hexa_lst`: appends one word and changes nothing else. */
    method UpdateHexaLst(hexaStr: string)
      modifies this
      ensures hexaLst == old(hexaLst) + [hexaStr]
    {
      hexaLst := hexaLst + [hexaStr];
    }

    /** `__str__`: the entries eight to a line. */
    method ToString() returns (retStr: string)
      ensures retStr == Render(packagedBits)
    {
      var counter := 0;
      retStr := "";
      for k := 0 to |packagedBits|
        invariant retStr == Render(packagedBits[..k])
        invariant counter == if k == 0 then 0 else (k - 1) % 8 + 1
      {
        assert packagedBits[..k + 1][..k] == packagedBits[..k];
        CounterStep(k, counter);
        if counter == 8 {
          retStr := retStr + "\n";
          counter := 0;
        }
        retStr := retStr + packagedBits[k] + " ";
        counter := counter + 1;
      }
      assert packagedBits[..|packagedBits|] == packagedBits;
    }
  }

  /** The line counter of `__str__` before entry k: it reaches 8 exactly in
      front of entries 8, 16, 24, ... */
  lemma CounterStep(k: nat, counter: int)
    requires counter == if k == 0 then 0 else (k - 1) % 8 + 1
    ensures counter == 8 <==> (k > 0 && k % 8 == 0)
    ensures (if counter == 8 then 0 else counter) + 1 == k % 8 + 1
  {
  }

  /** Every entry followed by a space, with a newline in front of the entries
      at positions 8, 16, 24, ... (the 9th, 17th, 25th, ...). */
  function Render(bits: seq<string>): string
  {
    if bits == [] then ""
    else
      var k := |bits| - 1;
      Render(bits[..k]) + (if k > 0 && k % 8 == 0 then "\n" else "") + bits[k] + " "
  }

  /** Rendering n byte strings takes 9 characters per entry plus one newline per full line after the first. */
  lemma {:induction false} RenderLength(bits: seq<string>)
    requires ByteStrings(bits)
    ensures |Render(bits)| == 9 * |bits| + (if bits == [] then 0 else (|bits| - 1) / 8)
    decreases |bits|
  {
    if bits != [] {
      RenderLength(bits[..|bits| - 1]);
    }
  }

  // ---------------------------------------------------------------------
  // Layouts of byte-aligned input
  // ---------------------------------------------------------------------

  lemma NoSpacesInByteStrings(ts: seq<string>)
    requires ByteStrings(ts)
    ensures NoSpaces(ts)
  {
  }

  /** A CompleteBlock over n >= 64 byte strings keeps exactly the last 64 of them. */
  lemma CompleteLayoutOfBytes(ts: seq<string>)
    requires |ts| >= 64 && ByteStrings(ts)
    ensures CompleteLayout(Join(ts)) == ts[|ts| - 64..]
    ensures |CompleteLayout(Join(ts))| == 64
  {
    NoSpacesInByteStrings(ts);
    SplitJoin(ts);
    CompleteLayoutOfSplit(Join(ts), ts);
  }

  lemma CompleteLayoutOfSplit(bitString: string, ts: seq<string>)
    requires Split(bitString) == ts && |ts| >= 64
    ensures CompleteLayout(bitString) == ts[|ts| - 64..]
  {
  }

  /** A MidBlock over 56 <= n <= 63 byte strings is those bytes, the marker and
      63 - n zero bytes: 64 entries, no length field. */
  lemma MidLayoutOfBytes(ts: seq<string>)
    requires 56 <= |ts| <= 63 && ByteStrings(ts)
    ensures MidLayout(Join(ts), 8 * |ts|) == ts + [Marker] + Repeat(Zero8, 63 - |ts|)
    ensures |MidLayout(Join(ts), 8 * |ts|)| == 64
  {
    NoSpacesInByteStrings(ts);
    SplitJoin(ts);
    MidLayoutOfSplit(Join(ts), ts, 8 * |ts|);
  }

  lemma MidLayoutOfSplit(bitString: string, ts: seq<string>, bitLength: nat)
    requires Split(bitString) == ts && bitLength == 8 * |ts| && 56 <= |ts| <= 63
    ensures MidLayout(bitString, bitLength) == ts + [Marker] + Repeat(Zero8, 63 - |ts|)
  {
    assert (512 - 1 - bitLength - 7) / 8 == 63 - |ts|;
  }

  /** A PaddedBlock over n <= 55 byte strings is those bytes, one marker byte
      ('10000000', or '00000000' when n is 0), 55 - n zero bytes and the length
      field: 64 entries. */
  lemma PaddedLayoutOfBytes(ts: seq<string>, fixedBitLength: nat)
    requires |ts| <= 55 && ByteStrings(ts)
    ensures PaddedLayout(Join(ts), 8 * |ts|, fixedBitLength)
         == ts + [if |ts| == 0 then Zero8 else Marker] + Repeat(Zero8, 55 - |ts|) + LengthTokens(fixedBitLength)
    ensures |PaddedLayout(Join(ts), 8 * |ts|, fixedBitLength)| == 64
  {
    if |ts| > 0 {
      NoSpacesInByteStrings(ts);
      SplitJoin(ts);
      assert Join(ts) != "" by {
        JoinSize(ts);
      }
    }
    PaddedLayoutOfSplit(Join(ts), ts, 8 * |ts|, fixedBitLength);
  }

  lemma PaddedLayoutOfSplit(bitString: string, ts: seq<string>, bitLength: nat, fixedBitLength: nat)
    requires bitLength == 8 * |ts| && |ts| <= 55
    requires bitString == "" <==> ts == []
    requires bitString != "" ==> Split(bitString) == ts
    ensures PaddedLayout(bitString, bitLength, fixedBitLength)
         == ts + [if |ts| == 0 then Zero8 else Marker] + Repeat(Zero8, 55 - |ts|) + LengthTokens(fixedBitLength)
  {
    assert (448 - 1 - bitLength - 7) / 8 == 55 - |ts|;
  }
}
