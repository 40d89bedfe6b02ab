/** The operation boxes of hash_main.py. Every value travels as a string of
    hex digits: the mixing functions F, G, H and I, the modular additions
    (modulo 100000000, a decimal constant), and the left shift, which
    rotates the binary digits of its input within 4 bits per hex digit. */
module HashOps {
  import opened PyBuiltins

  /** The modulus of every addition box: one hundred million, not 2^32. */
  const Modulus: nat := 100000000

  /** A result of an addition box: lower-case hex, at most 7 digits, below the modulus. */
  predicate Reduced(s: string)
  {
    IsLowerHex(s) && |s| <= 7 && ParseHex(s) < Modulus
  }

  lemma ReducedIsHex(s: string)
    requires Reduced(s)
    ensures IsHex(s)
  {
    assert forall i :: 0 <= i < |s| ==> IsLowerHexChar(s[i]);
  }

  /** The addition boxes `_red_one`, `_red_two`, `_red_three`, `_red_four` and
      `_wrap_up_operation`, which all parse both operands as hex, add them
      modulo 10^8 and render the sum in lower-case hex without a prefix. */
  function ModAdd(x: string, y: string): (r: string)
    requires IsHex(x) && IsHex(y)
    ensures Reduced(r) && IsHex(r)
    ensures ParseHex(r) == (ParseHex(x) + ParseHex(y)) % Modulus
    ensures r == Hex((ParseHex(x) + ParseHex(y)) % Modulus)
  {
    ReducedHex((ParseHex(y) + ParseHex(x)) % Modulus)
  }

  function ReducedHex(n: nat): (r: string)
    requires n < Modulus
    ensures Reduced(r) && IsHex(r)
    ensures ParseHex(r) == n
    ensures r == Hex(n)
  {
    assert Pow16(7) == 268435456;
    HexLengthBound(n, false, 7);
    Hex(n)
  }

  /** The value of an addition box for two given operands. */
  lemma ModAddValue(x: string, y: string)
    requires IsHex(x) && IsHex(y)
    ensures ParseHex(ModAdd(x, y)) == (ParseHex(x) + ParseHex(y)) % Modulus
  {
    var r := ModAdd(x, y);
    assert ParseHex(r) == (ParseHex(x) + ParseHex(y)) % Modulus;
  }

  /** `ModAddValue` with the operands' values named by the caller. */
  lemma ModAddValueOf(x: string, y: string, px: nat, py: nat)
    requires IsHex(x) && IsHex(y) && px == ParseHex(x) && py == ParseHex(y)
    ensures ParseHex(ModAdd(x, y)) == (px + py) % Modulus
  {
    ModAddValue(x, y);
  }

  /** The order of the operands does not matter. */
  lemma ModAddCommutes(x: string, y: string)
    requires IsHex(x) && IsHex(y)
    ensures ModAdd(x, y) == ModAdd(y, x)
  {
  }

  /** Reducing the first summand first does not change the sum modulo 10^8. */
  lemma AddModLeft(a: nat, x: nat, y: nat)
    requires a == x % Modulus
    ensures (a + y) % Modulus == (x + y) % Modulus
  {
    var q := x / Modulus;
    var t := a + y;
    DivModUnique(t + q * Modulus, Modulus, t / Modulus + q, t % Modulus);
  }

  /** Two chained boxes add all three values modulo 10^8: the first box's
      reduction does not change the sum. `px`, `py` and `pz` are the values
      of the three operands. */
  lemma ModAddChain(x: string, y: string, z: string, px: nat, py: nat, pz: nat)
    requires IsHex(x) && IsHex(y) && IsHex(z)
    requires px == ParseHex(x) && py == ParseHex(y) && pz == ParseHex(z)
    ensures ParseHex(ModAdd(ModAdd(x, y), z)) == (px + py + pz) % Modulus
  {
    var xy := ModAdd(x, y);
    var r := ModAdd(xy, z);
    ModAddValue(x, y);
    ModAddValue(xy, z);
    ChainSum(ParseHex(xy), px, py, pz, ParseHex(r));
  }

  lemma ChainSum(a: nat, x: nat, y: nat, z: nat, r: nat)
    requires a == (x + y) % Modulus && r == (a + z) % Modulus
    ensures r == (x + y + z) % Modulus
  {
    AddModLeft(a, x + y, z);
  }


  // ---------------------------------------------------------------------
  // Mixing functions
  // ---------------------------------------------------------------------

  /** `_f_function`: `(b and c) or (not b and d)` on strings. A non-empty `b`
      makes `b and c` equal to `c`; when `c` is empty too, the result is the
      boolean False, which no later box accepts, so that case is excluded. */
  function FFunction(b: string, c: string, d: string): (r: string)
    requires b == "" || c != ""
    ensures r == c || r == d
  {
    if b != "" then c else d
  }

  /** `_g_function`: `(b and d) or (c and not d)` on strings. With `b` and `d`
      non-empty this is `d`; with `c` empty it is the empty `c`; the other
      cases give a boolean, which no later box accepts. */
  function GFunction(b: string, c: string, d: string): (r: string)
    requires (b != "" && d != "") || c == ""
    ensures r == d || r == ""
  {
    if b != "" && d != "" then d else c
  }

  /** On the non-empty words the rounds pass, F always selects `c` and G
      always selects `d`: string truthiness makes them ignore the bits of
      their other operands. */
  lemma FAndGOnWords(b: string, c: string, d: string)
    requires IsHex(b) && IsHex(c) && IsHex(d)
    ensures FFunction(b, c, d) == c
    ensures GFunction(b, c, d) == d
  {
  }

  /** `_h_function`: `hex(b ^ c ^ d)[2:]` of the three values. */
  function HFunction(b: string, c: string, d: string): (r: string)
    requires IsHex(b) && IsHex(c) && IsHex(d)
    ensures IsLowerHex(r)
  {
    Hex(Xor(Xor(ParseHex(b), ParseHex(c)), ParseHex(d)))
  }

  /** H is bitwise parity: each bit of its value is the sum of the three
      operands' bits mod 2. */
  lemma HFunctionBits(b: string, c: string, d: string, k: nat)
    requires IsHex(b) && IsHex(c) && IsHex(d)
    ensures Bit(ParseHex(HFunction(b, c, d)), k)
         == (Bit(ParseHex(b), k) + Bit(ParseHex(c), k) + Bit(ParseHex(d), k)) % 2
  {
    var x, y, z := ParseHex(b), ParseHex(c), ParseHex(d);
    assert ParseHex(HFunction(b, c, d)) == Xor(Xor(x, y), z);
    XorBits(Xor(x, y), z, k);
    XorBits(x, y, k);
    ParityAssoc(Bit(x, k), Bit(y, k), Bit(z, k));
  }

  lemma ParityAssoc(a: int, b: int, c: int)
    ensures ((a + b) % 2 + c) % 2 == (a + b + c) % 2
  {
  }

  /** The operand `b or not d` of `_i_function`: `b` when it is non-zero,
      otherwise the boolean `not d` as 1 or 0. */
  function IOperand(b: nat, d: nat): (r: nat)
    ensures b != 0 ==> r == b
    ensures b == 0 ==> r <= 1 && (r == 1 <==> d == 0)
  {
    if b != 0 then b else if d == 0 then 1 else 0
  }

  /** `_i_function`: `hex(c ^ (b or not d))[2:]` of the three values. */
  function IFunction(b: string, c: string, d: string): (r: string)
    requires IsHex(b) && IsHex(c) && IsHex(d)
    ensures IsLowerHex(r)
  {
    Hex(Xor(ParseHex(c), IOperand(ParseHex(b), ParseHex(d))))
  }

  /** With `b` non-zero, I flips the bits of `c` where `b` is set. */
  lemma IFunctionBitsNonZero(b: string, c: string, d: string, k: nat)
    requires IsHex(b) && IsHex(c) && IsHex(d) && ParseHex(b) != 0
    ensures Bit(ParseHex(IFunction(b, c, d)), k) == (Bit(ParseHex(c), k) + Bit(ParseHex(b), k)) % 2
  {
    XorBits(ParseHex(c), ParseHex(b), k);
  }

  /** With `b` zero, I keeps every bit of `c` above the lowest. */
  lemma IFunctionBitsZeroHigh(b: string, c: string, d: string, k: nat)
    requires IsHex(b) && IsHex(c) && IsHex(d) && ParseHex(b) == 0 && k > 0
    ensures Bit(ParseHex(IFunction(b, c, d)), k) == Bit(ParseHex(c), k)
  {
    var o := IOperand(ParseHex(b), ParseHex(d));
    assert ParseHex(IFunction(b, c, d)) == Xor(ParseHex(c), o);
    XorBits(ParseHex(c), o, k);
    HighBitOfSmall(o, k);
  }

  /** A value of at most 1 has no bit set above the lowest. */
  lemma HighBitOfSmall(o: nat, k: nat)
    requires o <= 1 && k > 0
    ensures Bit(o, k) == 0
  {
    BitOfZero(k - 1);
  }

  /** With `b` zero, I flips the lowest bit of `c` exactly when `d` is zero. */
  lemma IFunctionBitsZeroLow(b: string, c: string, d: string)
    requires IsHex(b) && IsHex(c) && IsHex(d) && ParseHex(b) == 0
    ensures Bit(ParseHex(IFunction(b, c, d)), 0)
         == if ParseHex(d) == 0 then 1 - Bit(ParseHex(c), 0) else Bit(ParseHex(c), 0)
  {
    var o := IOperand(ParseHex(b), ParseHex(d));
    XorBits(ParseHex(c), o, 0);
  }

  // ---------------------------------------------------------------------
  // Left shift
  // ---------------------------------------------------------------------

  /** The digit table of `_left_shift`, keyed by lower-case hex digits. */
  const HexToBinaryConversionTable: map<char, string> :=
    map['0' := "0000", '1' := "0001", '2' := "0010", '3' := "0011",
        '4' := "0100", '5' := "0101", '6' := "0110", '7' := "0111",
        '8' := "1000", '9' := "1001", 'a' := "1010", 'b' := "1011",
        'c' := "1100", 'd' := "1101", 'e' := "1110", 'f' := "1111"]

  /** Every hex digit, lowered, is a key of the table, and its entry is the
      digit's value in four binary digits. */
  lemma TableEntry(c: char)
    requires IsHexChar(c)
    ensures LowerChar(c) in HexToBinaryConversionTable
    ensures |HexToBinaryConversionTable[LowerChar(c)]| == 4
    ensures IsBinary(HexToBinaryConversionTable[LowerChar(c)])
    ensures FromBinary(HexToBinaryConversionTable[LowerChar(c)]) == DigitValue(c)
  {
    var l := LowerChar(c);
    assert DigitValue(c) == DigitValue(l);
    assert l in HexToBinaryConversionTable;
    FromBinaryFour(HexToBinaryConversionTable[l]);
  }

  /** A four-digit binary string read in base 2. */
  lemma FromBinaryFour(s: string)
    requires |s| == 4 && IsBinary(s)
    ensures FromBinary(s) == 8 * BitOf(s[0]) + 4 * BitOf(s[1]) + 2 * BitOf(s[2]) + BitOf(s[3])
  {
    assert s[..3][..2] == s[..2];
    assert s[..2][..1] == s[..1];
    assert s[..1][..0] == [];
    assert FromBinary(s[..1]) == BitOf(s[0]);
    assert FromBinary(s[..2]) == 2 * BitOf(s[0]) + BitOf(s[1]);
    assert FromBinary(s[..3]) == 4 * BitOf(s[0]) + 2 * BitOf(s[1]) + BitOf(s[2]);
  }

  function BitOf(c: char): nat
  {
    if c == '1' then 1 else 0
  }

  /** `''.join(table[ch.lower()] for ch in s)` */
  function HexToBinary(s: string): (r: string)
    requires AllHex(s)
    ensures |r| == 4 * |s| && IsBinary(r)
    ensures FromBinary(r) == ParseHex(s)
  {
    if s == [] then ""
    else
      var front := HexToBinary(s[..|s| - 1]);
      TableEntry(s[|s| - 1]);
      var digit := HexToBinaryConversionTable[LowerChar(s[|s| - 1])];
      FromBinaryAppend(front, digit);
      assert Pow2(4) == 16;
      front + digit
  }

  /** `_left_shift`: move the first `shiftVal` binary digits to the end and
      read the result back as lower-case hex. */
  function LeftShift(redThreeOutput: string, shiftVal: nat): (r: string)
    requires IsHex(redThreeOutput)
    ensures IsLowerHex(r) && IsHex(r)
  {
    var binaryStr := HexToBinary(redThreeOutput);
    var copy := PyPrefix(binaryStr, shiftVal);
    var shifted := PySuffix(binaryStr, shiftVal) + copy;
    assert IsBinary(shifted);
    LowerOfHexUpper(FromBinary(shifted));
    Lower(HexUpper(FromBinary(shifted)))
  }

  /** Rotation of the w-bit value v by k places to the left: its low `w - k`
      bits move up by k places and its high bits come down below them. */
  function RotateLeft(v: nat, k: nat, w: nat): nat
    requires k <= w
  {
    ShiftUp(LowBits(v, w - k), k) + HighBits(v, w - k)
  }

  /** The low n bits of v. */
  function LowBits(v: nat, n: nat): nat
  {
    if n == 0 then 0 else v % 2 + 2 * LowBits(v / 2, n - 1)
  }

  /** v without its low n bits. */
  function HighBits(v: nat, n: nat): nat
  {
    if n == 0 then v else HighBits(v / 2, n - 1)
  }

  /** x moved up by k bits. */
  function ShiftUp(x: nat, k: nat): nat
  {
    if k == 0 then x else 2 * ShiftUp(x, k - 1)
  }

  lemma {:induction false} LowHighBits(v: nat, n: nat)
    ensures LowBits(v, n) == v % Pow2(n) && HighBits(v, n) == v / Pow2(n)
  {
    if n > 0 {
      LowHighBits(v / 2, n - 1);
      DivModNested(v, 2, Pow2(n - 1));
    }
  }

  lemma {:induction false} ShiftUpMul(x: nat, k: nat)
    ensures ShiftUp(x, k) == x * Pow2(k)
  {
    if k > 0 {
      ShiftUpMul(x, k - 1);
      MulAssoc(x, 2, Pow2(k - 1));
    }
  }

  lemma MulAssoc(x: int, y: int, z: int)
    ensures x * (y * z) == y * (x * z)
  {
  }

  /** The rotation in terms of the remainder and the quotient by 2^(w-k). */
  lemma RotateLeftValue(v: nat, k: nat, w: nat)
    requires k <= w
    ensures RotateLeft(v, k, w) == (v % Pow2(w - k)) * Pow2(k) + v / Pow2(w - k)
  {
    LowHighBits(v, w - k);
    ShiftUpMul(v % Pow2(w - k), k);
  }

  /** Cutting a binary string after k digits splits its value by 2^(w-k). */
  lemma FromBinarySplit(bs: string, k: nat)
    requires IsBinary(bs) && k <= |bs|
    ensures FromBinary(bs[..k]) == FromBinary(bs) / Pow2(|bs| - k)
    ensures FromBinary(bs[k..]) == FromBinary(bs) % Pow2(|bs| - k)
  {
    var hi, lo := bs[..k], bs[k..];
    assert hi + lo == bs;
    FromBinaryAppend(hi, lo);
    FromBinaryBound(lo);
    DivModUnique(FromBinary(bs), Pow2(|bs| - k), FromBinary(hi), FromBinary(lo));
  }

  lemma BinarySlices(bs: string, k: nat)
    requires IsBinary(bs) && k <= |bs|
    ensures IsBinary(bs[..k]) && IsBinary(bs[k..]) && IsBinary(bs[k..] + bs[..k])
  {
  }

  /** The value the left shift returns is that of the rotated binary string. */
  lemma LeftShiftValue(s: string, shiftVal: nat)
    requires IsHex(s)
    ensures var bs := HexToBinary(s);
      IsBinary(PySuffix(bs, shiftVal) + PyPrefix(bs, shiftVal))
      && ParseHex(LeftShift(s, shiftVal)) == FromBinary(PySuffix(bs, shiftVal) + PyPrefix(bs, shiftVal))
  {
    var bs := HexToBinary(s);
    LowerOfHexUpper(FromBinary(PySuffix(bs, shiftVal) + PyPrefix(bs, shiftVal)));
  }

  /** The left shift is a rotation within 4 bits per input digit. */
  lemma LeftShiftRotates(s: string, shiftVal: nat)
    requires IsHex(s) && shiftVal <= 4 * |s|
    ensures ParseHex(LeftShift(s, shiftVal)) == RotateLeft(ParseHex(s), shiftVal, 4 * |s|)
  {
    var bs := HexToBinary(s);
    LeftShiftValue(s, shiftVal);
    SwapHalves(bs, shiftVal, PySuffix(bs, shiftVal) + PyPrefix(bs, shiftVal));
    RotatedBinary(bs, shiftVal);
  }

  lemma SwapHalves(bs: string, k: nat, swapped: string)
    requires k <= |bs| && swapped == PySuffix(bs, k) + PyPrefix(bs, k)
    ensures swapped == bs[k..] + bs[..k]
  {
  }

  /** Moving the first k binary digits to the end rotates the value. */
  lemma RotatedBinary(bs: string, k: nat)
    requires IsBinary(bs) && k <= |bs|
    ensures IsBinary(bs[k..] + bs[..k])
    ensures FromBinary(bs[k..] + bs[..k]) == RotateLeft(FromBinary(bs), k, |bs|)
  {
    RotatedParts(bs, k);
    JoinedRotation(FromBinary(bs), k, |bs|, FromBinary(bs[k..]), FromBinary(bs[..k]), FromBinary(bs[k..] + bs[..k]));
  }

  /** The two parts of a binary string moved past each other, and their values. */
  lemma RotatedParts(bs: string, k: nat)
    requires IsBinary(bs) && k <= |bs|
    ensures IsBinary(bs[..k]) && IsBinary(bs[k..]) && IsBinary(bs[k..] + bs[..k])
    ensures FromBinary(bs[k..] + bs[..k]) == FromBinary(bs[k..]) * Pow2(k) + FromBinary(bs[..k])
    ensures FromBinary(bs[k..]) == FromBinary(bs) % Pow2(|bs| - k)
    ensures FromBinary(bs[..k]) == FromBinary(bs) / Pow2(|bs| - k)
  {
    BinarySlices(bs, k);
    var hi, lo := bs[..k], bs[k..];
    FromBinaryAppend(lo, hi);
    FromBinarySplit(bs, k);
    assert |hi| == k;
  }

  /** The low part moved up past the high part is the rotation. */
  lemma JoinedRotation(v: nat, k: nat, w: nat, low: nat, high: nat, joined: nat)
    requires k <= w && low == v % Pow2(w - k) && high == v / Pow2(w - k)
    requires joined == low * Pow2(k) + high
    ensures joined == RotateLeft(v, k, w)
  {
    RotateLeftValue(v, k, w);
  }

  /** A shift longer than the binary digits leaves the value unchanged. */
  lemma LeftShiftWraps(s: string, shiftVal: nat)
    requires IsHex(s) && shiftVal > 4 * |s|
    ensures ParseHex(LeftShift(s, shiftVal)) == ParseHex(s)
  {
    LeftShiftValue(s, shiftVal);
    WideSwap(HexToBinary(s), shiftVal);
  }

  /** Swapping around a cut past the end changes nothing. */
  lemma WideSwap(bs: string, k: nat)
    requires k > |bs|
    ensures PySuffix(bs, k) + PyPrefix(bs, k) == bs
  {
  }

  /** The left shift returns canonical lower-case hex: `hex` of its own value. */
  lemma LeftShiftCanonical(s: string, shiftVal: nat)
    requires IsHex(s)
    ensures LeftShift(s, shiftVal) == Hex(ParseHex(LeftShift(s, shiftVal)))
  {
    var bs := HexToBinary(s);
    LowerOfHexUpper(FromBinary(PySuffix(bs, shiftVal) + PyPrefix(bs, shiftVal)));
  }

  /** The left shift, as a string: `hex` of the rotated value. */
  lemma LeftShiftRotatesHex(s: string, shiftVal: nat)
    requires IsHex(s) && shiftVal <= 4 * |s|
    ensures LeftShift(s, shiftVal) == Hex(RotateLeft(ParseHex(s), shiftVal, 4 * |s|))
  {
    LeftShiftCanonical(s, shiftVal);
    LeftShiftRotates(s, shiftVal);
  }

  /** A shift longer than the binary digits returns `hex` of the input's value. */
  lemma LeftShiftWrapsHex(s: string, shiftVal: nat)
    requires IsHex(s) && shiftVal > 4 * |s|
    ensures LeftShift(s, shiftVal) == Hex(ParseHex(s))
  {
    LeftShiftCanonical(s, shiftVal);
    LeftShiftWraps(s, shiftVal);
  }

  lemma DivModDecompose(v: nat, p: nat)
    requires p > 0
    ensures v == (v / p) * p + v % p
  {
  }

  lemma MulMonotone(a: nat, b: nat, c: nat)
    requires a <= b
    ensures a * c <= b * c
  {
  }

  /** The part of v above its low `w - k` bits has at most k bits. */
  lemma HighPartBound(v: nat, p: nat, m: nat)
    requires p > 0 && v < p * m
    ensures v / p < m
  {
    DivModDecompose(v, p);
    if v / p >= m {
      MulMonotone(m, v / p, p);
    }
  }

  /** Swapping the low and high parts of a value below p * m keeps it below p * m. */
  lemma SwapPartsBound(v: nat, p: nat, m: nat)
    requires p > 0 && v < p * m
    ensures 0 <= (v % p) * m + v / p < p * m
  {
    HighPartBound(v, p, m);
    var r, q := v % p, v / p;
    MulMonotone(0, r, m);
    MulMonotone(r, p - 1, m);
    assert (p - 1) * m == p * m - m;
  }

  /** The rotation keeps the value below 2^w. */
  lemma RotateLeftBound(v: nat, k: nat, w: nat)
    requires k <= w && v < Pow2(w)
    ensures RotateLeft(v, k, w) < Pow2(w)
  {
    var p, m := Pow2(w - k), Pow2(k);
    Pow2Add(w - k, k);
    assert Pow2(w) == p * m;
    RotateLeftValue(v, k, w);
    SwapPartsBound(v, p, m);
  }
}
