/** hash_main.py: the `hash` function. The input's blocks are loaded as
    sixteen 8-digit words each; every block runs four rounds of sixteen
    steps over four words (a, b, c, d); the words are added to the ORIGINAL
    initial values; and the four final words, zero-padded to 8 digits, are
    concatenated into a 32-digit result. */
module HashMain {
  import opened PyBuiltins
  import opened Utils
  import opened Blocks
  import opened BlockCollections
  import opened HashOps

  // ---------------------------------------------------------------------
  // Tables
  // ---------------------------------------------------------------------

  /** The 64 k-values, as written (mixed case, 8 digits each), four to a quad and eight to a row. */
  const KQuad0: seq<string> := ["D76AA478", "E8C7B756", "242070DB", "C1BDCEEE"]
  const KQuad1: seq<string> := ["f57c0faf", "4787C62A", "A8304613", "FD469501"]
  const KQuad2: seq<string> := ["698098D8", "8B44F7AF", "FFFF5BB1", "895CD7BE"]
  const KQuad3: seq<string> := ["6B901122", "FD987193", "A679438E", "49B40821"]
  const KQuad4: seq<string> := ["F61E2562", "C040B340", "265E5A51", "E9B6C7AA"]
  const KQuad5: seq<string> := ["D62F105D", "02441453", "D8A1E681", "E7D3FBC8"]
  const KQuad6: seq<string> := ["21E1CDE6", "C33707D6", "F4D50D87", "455A14ED"]
  const KQuad7: seq<string> := ["A9E3E905", "FCEFA3F8", "676F02D9", "8D2A4C8A"]
  const KQuad8: seq<string> := ["FFFA3942", "8771F681", "699D6122", "FDE5380C"]
  const KQuad9: seq<string> := ["A4BEEA44", "4BDECFA9", "F6BB4B60", "BEBFBC70"]
  const KQuad10: seq<string> := ["289B7EC6", "EAA127FA", "D4EF3085", "04881D05"]
  const KQuad11: seq<string> := ["D9D4D039", "E6DB99E5", "1FA27CF8", "C4AC5665"]
  const KQuad12: seq<string> := ["F4292244", "432AFF97", "AB9423A7", "FC93A039"]
  const KQuad13: seq<string> := ["655B59C3", "8F0CCC92", "FFEFF47D", "85845DD1"]
  const KQuad14: seq<string> := ["6FA87E4F", "FE2CE6E0", "A3014314", "4E0811A1"]
  const KQuad15: seq<string> := ["F7537E82", "BD3AF235", "2AD7D2BB", "EB86D391"]
  const KRow0: seq<string> := KQuad0 + KQuad1
  const KRow1: seq<string> := KQuad2 + KQuad3
  const KRow2: seq<string> := KQuad4 + KQuad5
  const KRow3: seq<string> := KQuad6 + KQuad7
  const KRow4: seq<string> := KQuad8 + KQuad9
  const KRow5: seq<string> := KQuad10 + KQuad11
  const KRow6: seq<string> := KQuad12 + KQuad13
  const KRow7: seq<string> := KQuad14 + KQuad15
  const KValues: seq<string> := KRow0 + KRow1 + KRow2 + KRow3 + KRow4 + KRow5 + KRow6 + KRow7

  const RoundOneShiftMap: map<int, nat> :=
    map[0 := 7, 4 := 7, 8 := 7, 12 := 7, 1 := 12, 5 := 12, 9 := 12, 13 := 12,
        2 := 17, 6 := 17, 10 := 17, 14 := 17, 3 := 22, 7 := 22, 11 := 22, 15 := 22]
  const RoundTwoShiftMap: map<int, nat> :=
    map[0 := 5, 4 := 5, 8 := 5, 12 := 5, 1 := 9, 5 := 9, 9 := 9, 13 := 9,
        2 := 14, 6 := 14, 10 := 14, 14 := 14, 3 := 20, 7 := 20, 11 := 20, 15 := 20]
  const RoundThreeShiftMap: map<int, nat> :=
    map[0 := 4, 4 := 4, 8 := 4, 12 := 4, 1 := 11, 5 := 11, 9 := 11, 13 := 11,
        2 := 16, 6 := 16, 10 := 16, 14 := 16, 3 := 13, 7 := 13, 11 := 13, 15 := 13]
  const RoundFourShiftMap: map<int, nat> :=
    map[0 := 6, 4 := 6, 8 := 6, 12 := 6, 1 := 10, 5 := 10, 9 := 10, 13 := 10,
        2 := 15, 6 := 15, 10 := 15, 14 := 15, 3 := 21, 7 := 21, 11 := 21, 15 := 21]

  /** The order in which rounds two to four read the sixteen words of a block. */
  const RoundTwoMIndices: seq<int> := [1, 6, 11, 0, 5, 10, 15, 4, 9, 14, 3, 8, 13, 2, 7, 12]
  const RoundThreeMIndices: seq<int> := [5, 8, 11, 14, 1, 4, 7, 10, 13, 0, 3, 6, 9, 12, 15, 2]
  const RoundFourMIndices: seq<int> := [0, 7, 14, 5, 12, 3, 10, 1, 8, 15, 6, 13, 4, 11, 2, 9]

  /** Every entry is 8 hex digits. */
  predicate EightDigitWords(ks: seq<string>)
  {
    forall i :: 0 <= i < |ks| ==> |ks[i]| == 8 && IsHex(ks[i])
  }

  lemma EightDigitWordsAppend(xs: seq<string>, ys: seq<string>)
    requires EightDigitWords(xs) && EightDigitWords(ys)
    ensures EightDigitWords(xs + ys)
  {
  }

  lemma KQuad0Shape() ensures |KQuad0| == 4 && EightDigitWords(KQuad0) {}
  lemma KQuad1Shape() ensures |KQuad1| == 4 && EightDigitWords(KQuad1) {}
  lemma KQuad2Shape() ensures |KQuad2| == 4 && EightDigitWords(KQuad2) {}
  lemma KQuad3Shape() ensures |KQuad3| == 4 && EightDigitWords(KQuad3) {}
  lemma KQuad4Shape() ensures |KQuad4| == 4 && EightDigitWords(KQuad4) {}
  lemma KQuad5Shape() ensures |KQuad5| == 4 && EightDigitWords(KQuad5) {}
  lemma KQuad6Shape() ensures |KQuad6| == 4 && EightDigitWords(KQuad6) {}
  lemma KQuad7Shape() ensures |KQuad7| == 4 && EightDigitWords(KQuad7) {}
  lemma KQuad8Shape() ensures |KQuad8| == 4 && EightDigitWords(KQuad8) {}
  lemma KQuad9Shape() ensures |KQuad9| == 4 && EightDigitWords(KQuad9) {}
  lemma KQuad10Shape() ensures |KQuad10| == 4 && EightDigitWords(KQuad10) {}
  lemma KQuad11Shape() ensures |KQuad11| == 4 && EightDigitWords(KQuad11) {}
  lemma KQuad12Shape() ensures |KQuad12| == 4 && EightDigitWords(KQuad12) {}
  lemma KQuad13Shape() ensures |KQuad13| == 4 && EightDigitWords(KQuad13) {}
  lemma KQuad14Shape() ensures |KQuad14| == 4 && EightDigitWords(KQuad14) {}
  lemma KQuad15Shape() ensures |KQuad15| == 4 && EightDigitWords(KQuad15) {}

  lemma KRow0Shape()
    ensures |KRow0| == 8 && EightDigitWords(KRow0)
  {
    KQuad0Shape(); KQuad1Shape();
    EightDigitWordsAppend(KQuad0, KQuad1);
  }

  lemma KRow1Shape()
    ensures |KRow1| == 8 && EightDigitWords(KRow1)
  {
    KQuad2Shape(); KQuad3Shape();
    EightDigitWordsAppend(KQuad2, KQuad3);
  }

  lemma KRow2Shape()
    ensures |KRow2| == 8 && EightDigitWords(KRow2)
  {
    KQuad4Shape(); KQuad5Shape();
    EightDigitWordsAppend(KQuad4, KQuad5);
  }

  lemma KRow3Shape()
    ensures |KRow3| == 8 && EightDigitWords(KRow3)
  {
    KQuad6Shape(); KQuad7Shape();
    EightDigitWordsAppend(KQuad6, KQuad7);
  }

  lemma KRow4Shape()
    ensures |KRow4| == 8 && EightDigitWords(KRow4)
  {
    KQuad8Shape(); KQuad9Shape();
    EightDigitWordsAppend(KQuad8, KQuad9);
  }

  lemma KRow5Shape()
    ensures |KRow5| == 8 && EightDigitWords(KRow5)
  {
    KQuad10Shape(); KQuad11Shape();
    EightDigitWordsAppend(KQuad10, KQuad11);
  }

  lemma KRow6Shape()
    ensures |KRow6| == 8 && EightDigitWords(KRow6)
  {
    KQuad12Shape(); KQuad13Shape();
    EightDigitWordsAppend(KQuad12, KQuad13);
  }

  lemma KRow7Shape()
    ensures |KRow7| == 8 && EightDigitWords(KRow7)
  {
    KQuad14Shape(); KQuad15Shape();
    EightDigitWordsAppend(KQuad14, KQuad15);
  }

  /** There are 64 k-values, each 8 hex digits. */
  lemma KValuesShape()
    ensures |KValues| == 64 && EightDigitWords(KValues)
  {
    KRow0Shape(); KRow1Shape(); KRow2Shape(); KRow3Shape();
    KRow4Shape(); KRow5Shape(); KRow6Shape(); KRow7Shape();
    EightDigitWordsAppend(KRow0, KRow1);
    EightDigitWordsAppend(KRow0 + KRow1, KRow2);
    EightDigitWordsAppend(KRow0 + KRow1 + KRow2, KRow3);
    EightDigitWordsAppend(KRow0 + KRow1 + KRow2 + KRow3, KRow4);
    EightDigitWordsAppend(KRow0 + KRow1 + KRow2 + KRow3 + KRow4, KRow5);
    EightDigitWordsAppend(KRow0 + KRow1 + KRow2 + KRow3 + KRow4 + KRow5, KRow6);
    EightDigitWordsAppend(KRow0 + KRow1 + KRow2 + KRow3 + KRow4 + KRow5 + KRow6, KRow7);
  }

  /** Each shift map covers steps 0 to 15 and repeats with period 4. */
  lemma ShiftMapsPeriodic(i: int)
    requires 0 <= i < 16
    ensures i in RoundOneShiftMap && RoundOneShiftMap[i] == [7, 12, 17, 22][i % 4]
    ensures i in RoundTwoShiftMap && RoundTwoShiftMap[i] == [5, 9, 14, 20][i % 4]
    ensures i in RoundThreeShiftMap && RoundThreeShiftMap[i] == [4, 11, 16, 13][i % 4]
    ensures i in RoundFourShiftMap && RoundFourShiftMap[i] == [6, 10, 15, 21][i % 4]
  {
    RoundOneShiftPeriodic(i); RoundTwoShiftPeriodic(i); RoundThreeShiftPeriodic(i); RoundFourShiftPeriodic(i);
  }

  lemma RoundOneShiftPeriodic(i: int)
    requires 0 <= i < 16
    ensures i in RoundOneShiftMap && RoundOneShiftMap[i] == [7, 12, 17, 22][i % 4]
  {
  }

  lemma RoundTwoShiftPeriodic(i: int)
    requires 0 <= i < 16
    ensures i in RoundTwoShiftMap && RoundTwoShiftMap[i] == [5, 9, 14, 20][i % 4]
  {
  }

  lemma RoundThreeShiftPeriodic(i: int)
    requires 0 <= i < 16
    ensures i in RoundThreeShiftMap && RoundThreeShiftMap[i] == [4, 11, 16, 13][i % 4]
  {
  }

  lemma RoundFourShiftPeriodic(i: int)
    requires 0 <= i < 16
    ensures i in RoundFourShiftMap && RoundFourShiftMap[i] == [6, 10, 15, 21][i % 4]
  {
  }

  /** The index tables step through the words by 5, 3 and 7 modulo 16. */
  lemma MIndicesFormula(i: int)
    requires 0 <= i < 16
    ensures RoundTwoMIndices[i] == (5 * i + 1) % 16
    ensures RoundThreeMIndices[i] == (3 * i + 5) % 16
    ensures RoundFourMIndices[i] == (7 * i) % 16
  {
  }

  /** The step at which each round reads word j: the inverses of `MIndicesFormula`. */
  lemma RoundTwoInverse(j: int)
    requires 0 <= j < 16
    ensures RoundTwoMIndices[(13 * j + 3) % 16] == j
  {
  }

  lemma RoundThreeInverse(j: int)
    requires 0 <= j < 16
    ensures RoundThreeMIndices[(11 * j + 9) % 16] == j
  {
  }

  lemma RoundFourInverse(j: int)
    requires 0 <= j < 16
    ensures RoundFourMIndices[(7 * j) % 16] == j
  {
  }

  /** Each index table reads every word of the block, and no word twice. */
  lemma MIndicesArePermutations()
    ensures |RoundTwoMIndices| == 16 && |RoundThreeMIndices| == 16 && |RoundFourMIndices| == 16
    ensures forall j :: 0 <= j < 16 ==> j in RoundTwoMIndices && j in RoundThreeMIndices && j in RoundFourMIndices
    ensures forall i, i' :: 0 <= i < i' < 16 ==> RoundTwoMIndices[i] != RoundTwoMIndices[i']
    ensures forall i, i' :: 0 <= i < i' < 16 ==> RoundThreeMIndices[i] != RoundThreeMIndices[i']
    ensures forall i, i' :: 0 <= i < i' < 16 ==> RoundFourMIndices[i] != RoundFourMIndices[i']
  {
    forall j | 0 <= j < 16
      ensures j in RoundTwoMIndices && j in RoundThreeMIndices && j in RoundFourMIndices
    {
      RoundTwoInverse(j);
      RoundThreeInverse(j);
      RoundFourInverse(j);
    }
    forall i, i' | 0 <= i < i' < 16
      ensures RoundTwoMIndices[i] != RoundTwoMIndices[i']
      ensures RoundThreeMIndices[i] != RoundThreeMIndices[i']
      ensures RoundFourMIndices[i] != RoundFourMIndices[i']
    {
      InverseUndoes(i);
      InverseUndoes(i');
    }
  }

  /** Applying the inverse step formula to a table entry gives back the step. */
  lemma InverseUndoes(i: int)
    requires 0 <= i < 16
    ensures (13 * RoundTwoMIndices[i] + 3) % 16 == i
    ensures (11 * RoundThreeMIndices[i] + 9) % 16 == i
    ensures (7 * RoundFourMIndices[i]) % 16 == i
  {
    RoundTwoUndoes(i);
    RoundThreeUndoes(i);
    RoundFourUndoes(i);
  }

  lemma RoundTwoUndoes(i: int)
    requires 0 <= i < 16
    ensures (13 * RoundTwoMIndices[i] + 3) % 16 == i
  {
  }

  lemma RoundThreeUndoes(i: int)
    requires 0 <= i < 16
    ensures (11 * RoundThreeMIndices[i] + 9) % 16 == i
  {
  }

  lemma RoundFourUndoes(i: int)
    requires 0 <= i < 16
    ensures (7 * RoundFourMIndices[i]) % 16 == i
  {
  }

  /** Every entry of an index table picks one of n words. */
  predicate IndicesBelow(indices: seq<int>, n: int)
  {
    forall i :: 0 <= i < |indices| ==> 0 <= indices[i] < n
  }

  /** Every step of every round has a shift, and every index is a word of the block. */
  lemma TablesCoverSteps()
    ensures forall i :: 0 <= i < 16 ==> i in RoundOneShiftMap && i in RoundTwoShiftMap && i in RoundThreeShiftMap && i in RoundFourShiftMap
    ensures |RoundTwoMIndices| == 16 && |RoundThreeMIndices| == 16 && |RoundFourMIndices| == 16
    ensures IndicesBelow(RoundTwoMIndices, 16) && IndicesBelow(RoundThreeMIndices, 16) && IndicesBelow(RoundFourMIndices, 16)
  {
    forall i | 0 <= i < 16
      ensures i in RoundOneShiftMap && i in RoundTwoShiftMap && i in RoundThreeShiftMap && i in RoundFourShiftMap
      ensures 0 <= RoundTwoMIndices[i] < 16 && 0 <= RoundThreeMIndices[i] < 16 && 0 <= RoundFourMIndices[i] < 16
    {
      ShiftMapsPeriodic(i);
      MIndicesFormula(i);
    }
  }

  // ---------------------------------------------------------------------
  // Rounds
  // ---------------------------------------------------------------------

  /** The four working words. */
  datatype Words = Words(a: string, b: string, c: string, d: string)

  /** The initialization vectors, as written. */
  const InitialWords: Words := Words("01234567", "89abcdef", "fedcba98", "76543210")

  predicate WordsOk(w: Words)
  {
    IsHex(w.a) && IsHex(w.b) && IsHex(w.c) && IsHex(w.d)
  }

  predicate AllReduced(w: Words)
  {
    Reduced(w.a) && Reduced(w.b) && Reduced(w.c) && Reduced(w.d)
  }

  predicate HexWords(ms: seq<string>)
  {
    forall i :: 0 <= i < |ms| ==> IsHex(ms[i])
  }

  /** What `_round_*` indexes: sixteen m-values, sixteen k-values, shifts for steps 0 to 15. */
  predicate RoundInputsOk(mValues: seq<string>, kValues: seq<string>, shiftMap: map<int, nat>)
  {
    && |mValues| >= 16 && HexWords(mValues)
    && |kValues| >= 16 && HexWords(kValues)
    && forall i :: 0 <= i < 16 ==> i in shiftMap
  }

  /** Which mixing function a round uses. */
  datatype Mix = F | G | H | I

  /** The mixing function a round calls. On hex words F passes c through and
      G passes d through; H and I give lower-case hex. */
  function MixOf(mix: Mix, b: string, c: string, d: string): (r: string)
    requires IsHex(b) && IsHex(c) && IsHex(d)
    ensures IsHex(r)
    ensures mix == F ==> r == c
    ensures mix == G ==> r == d
    ensures mix == H || mix == I ==> IsLowerHex(r)
  {
    match mix
    case F => FAndGOnWords(b, c, d); FFunction(b, c, d)
    case G => FAndGOnWords(b, c, d); GFunction(b, c, d)
    case H => HFunction(b, c, d)
    case I => IFunction(b, c, d)
  }

  /** The boxes of one step after the mixing function: three additions, the
      left shift, the fourth addition, and the words moved one place along. */
  function Boxes(mixOutput: string, w: Words, m: string, k: string, shift: nat): (r: Words)
    requires WordsOk(w) && IsHex(mixOutput) && IsHex(m) && IsHex(k)
    ensures WordsOk(r)
    ensures r.a == w.d && r.c == w.b && r.d == w.c
    ensures Reduced(r.b)
  {
    var redOneOutput := ModAdd(mixOutput, w.a);
    var redTwoOutput := ModAdd(redOneOutput, m);
    var redThreeOutput := ModAdd(redTwoOutput, k);
    var leftShiftOutput := LeftShift(redThreeOutput, shift);
    var redFourOutput := ModAdd(leftShiftOutput, w.b);
    Words(w.d, redFourOutput, w.b, w.c)
  }

  /** One step of a round: the mixing function of b, c and d, then the boxes. */
  function Step(mix: Mix, w: Words, m: string, k: string, shift: nat): (r: Words)
    requires WordsOk(w) && IsHex(m) && IsHex(k)
    ensures WordsOk(r)
    ensures r.a == w.d && r.c == w.b && r.d == w.c
    ensures Reduced(r.b)
  {
    Boxes(MixOf(mix, w.b, w.c, w.d), w, m, k, shift)
  }

  lemma BoxesLastInput(mixOutput: string, w: Words, m: string, k: string, shift: nat)
    requires WordsOk(w) && IsHex(mixOutput) && IsHex(m) && IsHex(k)
    ensures var t := ModAdd(ModAdd(ModAdd(mixOutput, w.a), m), k);
      Boxes(mixOutput, w, m, k, shift).b == ModAdd(LeftShift(t, shift), w.b)
  {
  }

  /** The value of a step's new b when the shift fits the width of the sum t
      of mix output, a, m and k (see `ModAddChain`): r, the value of t rotated
      left within 4 bits per digit of t, plus b, modulo 10^8. */
  lemma BoxesValueRotates(mixOutput: string, w: Words, m: string, k: string, shift: nat, t: string, r: nat)
    requires WordsOk(w) && IsHex(mixOutput) && IsHex(m) && IsHex(k)
    requires t == ModAdd(ModAdd(ModAdd(mixOutput, w.a), m), k) && shift <= 4 * |t|
    requires r == RotateLeft(ParseHex(t), shift, 4 * |t|)
    ensures ParseHex(Boxes(mixOutput, w, m, k, shift).b) == (r + ParseHex(w.b)) % Modulus
  {
    LeftShiftRotatesHex(t, shift);
    BoxesValueOf(mixOutput, w, m, k, shift, t, r);
  }

  /** The new b when the shift returns `hex` of the value r. */
  lemma BoxesValueOf(mixOutput: string, w: Words, m: string, k: string, shift: nat, t: string, r: nat)
    requires WordsOk(w) && IsHex(mixOutput) && IsHex(m) && IsHex(k)
    requires t == ModAdd(ModAdd(ModAdd(mixOutput, w.a), m), k) && LeftShift(t, shift) == Hex(r)
    ensures ParseHex(Boxes(mixOutput, w, m, k, shift).b) == (r + ParseHex(w.b)) % Modulus
  {
    ShiftAddValue(t, w.b, shift, r);
    BoxesLastInput(mixOutput, w, m, k, shift);
  }

  /** The fourth box, when the shift returns `hex` of the value r. */
  lemma ShiftAddValue(t: string, b: string, shift: nat, r: nat)
    requires IsHex(t) && IsHex(b) && LeftShift(t, shift) == Hex(r)
    ensures ParseHex(ModAdd(LeftShift(t, shift), b)) == (r + ParseHex(b)) % Modulus
  {
    ShiftedAddValue(LeftShift(t, shift), b, r);
  }

  lemma ShiftedAddValue(u: string, b: string, r: nat)
    requires IsHex(u) && IsHex(b) && u == Hex(r)
    ensures ParseHex(ModAdd(u, b)) == (r + ParseHex(b)) % Modulus
  {
    ModAddValueOf(u, b, r, ParseHex(b));
  }

  /** A shift wider than the sum t leaves t as it is: the new b is r, the
      value of t, plus b, modulo 10^8. */
  lemma BoxesValueWraps(mixOutput: string, w: Words, m: string, k: string, shift: nat, t: string, r: nat)
    requires WordsOk(w) && IsHex(mixOutput) && IsHex(m) && IsHex(k)
    requires t == ModAdd(ModAdd(ModAdd(mixOutput, w.a), m), k) && shift > 4 * |t|
    requires r == ParseHex(t)
    ensures ParseHex(Boxes(mixOutput, w, m, k, shift).b) == (r + ParseHex(w.b)) % Modulus
  {
    LeftShiftWrapsHex(t, shift);
    BoxesValueOf(mixOutput, w, m, k, shift, t, r);
  }

  /** The words after the first n steps of a round. */
  function RunSteps(mix: Mix, w: Words, mValues: seq<string>, kValues: seq<string>, shiftMap: map<int, nat>, n: nat): (r: Words)
    requires n <= 16 && WordsOk(w) && RoundInputsOk(mValues, kValues, shiftMap)
    ensures WordsOk(r)
    ensures n >= 1 ==> Reduced(r.b)
    ensures n >= 2 ==> Reduced(r.c)
    ensures n >= 3 ==> Reduced(r.d)
    ensures n >= 4 ==> Reduced(r.a)
    decreases n
  {
    if n == 0 then w
    else
      var prev := RunSteps(mix, w, mValues, kValues, shiftMap, n - 1);
      Step(mix, prev, mValues[n - 1], kValues[n - 1], shiftMap[n - 1])
  }

  /** `_round_one`, `_round_two`, `_round_three` and `_round_four`, which
      differ only in the mixing function. */
  method Round(mix: Mix, a: string, b: string, c: string, d: string,
               mValues: seq<string>, shiftMap: map<int, nat>, kValues: seq<string>)
    returns (r: Words)
    requires WordsOk(Words(a, b, c, d)) && RoundInputsOk(mValues, kValues, shiftMap)
    ensures r == RunSteps(mix, Words(a, b, c, d), mValues, kValues, shiftMap, 16)
  {
    var a', b', c', d' := a, b, c, d;
    for i := 0 to 16
      invariant Words(a', b', c', d') == RunSteps(mix, Words(a, b, c, d), mValues, kValues, shiftMap, i)
    {
      var mixOutput := MixOf(mix, b', c', d');
      var redOneOutput := ModAdd(mixOutput, a');
      var redTwoOutput := ModAdd(redOneOutput, mValues[i]);
      var redThreeOutput := ModAdd(redTwoOutput, kValues[i]);
      var leftShiftOutput := LeftShift(redThreeOutput, shiftMap[i]);
      var redFourOutput := ModAdd(leftShiftOutput, b');
      a', b', c', d' := d', redFourOutput, b', c';
    }
    r := Words(a', b', c', d');
  }

  // ---------------------------------------------------------------------
  // Loading a block's words
  // ---------------------------------------------------------------------

  /** `"".join(ts)` */
  function Concat(ts: seq<string>): (r: string)
    ensures (forall i :: 0 <= i < |ts| ==> IsBinary(ts[i])) ==> IsBinary(r)
  {
    if ts == [] then "" else Concat(ts[..|ts| - 1]) + ts[|ts| - 1]
  }

  predicate BinaryEntries(ts: seq<string>)
  {
    forall i :: 0 <= i < |ts| ==> IsBinary(ts[i])
  }

  /** One word from four byte strings: `f'{int(full_str, 2):X}'`, with
      zeros added on the left up to 8 digits. At least 8 upper-case digits
      that read back as the big-endian value of the four strings. */
  function WordOf(curr: seq<string>): (r: string)
    requires |curr| == 4 && BinaryEntries(curr)
    ensures AllHex(r) && IsUpperHex(r) && |r| >= 8
    ensures ParseHex(r) == FromBinary(Concat(curr))
  {
    var fullStr := Concat(curr);
    PadWord(HexUpper(FromBinary(fullStr)))
  }

  /** The hex digits of a word, with zeros added on the left up to 8: the
      value and the case are kept, and up to 8 digits become exactly 8. */
  function PadWord(hexaStr: string): (r: string)
    ensures |r| == if |hexaStr| <= 8 then 8 else |hexaStr|
    ensures AllHex(hexaStr) ==> AllHex(r) && ParseHex(r) == ParseHex(hexaStr)
    ensures IsUpperHex(hexaStr) ==> IsUpperHex(r)
  {
    if hexaStr == "0" then
      LeadingZerosKeepValue(7, "0");
      assert Repeat('0', 7) + "0" == "00000000";
      "00000000"
    else if |hexaStr| < 8 then
      LeadingZerosKeepValue(8 - |hexaStr|, hexaStr);
      Repeat('0', 8 - |hexaStr|) + hexaStr
    else hexaStr
  }

  /** `ParseHexLeadingZeros` for strings that may not be hex. */
  lemma LeadingZerosKeepValue(n: nat, s: string)
    ensures AllHex(s) ==> AllHex(Repeat('0', n) + s) && ParseHex(Repeat('0', n) + s) == ParseHex(s)
  {
    if AllHex(s) {
      ParseHexLeadingZeros(n, s);
    }
  }

  lemma {:induction false} ConcatLength(ts: seq<string>)
    requires forall i :: 0 <= i < |ts| ==> |ts[i]| == 8
    ensures |Concat(ts)| == 8 * |ts|
    decreases |ts|
  {
    if ts != [] {
      ConcatLength(ts[..|ts| - 1]);
    }
  }

  /** A word is the 32-bit big-endian value of its four byte strings, as
      exactly 8 upper-case hex digits. */
  lemma WordOfMeaning(curr: seq<string>)
    requires |curr| == 4 && BinaryEntries(curr)
    requires forall i :: 0 <= i < 4 ==> |curr[i]| == 8
    ensures |WordOf(curr)| == 8 && IsUpperHex(WordOf(curr))
    ensures ParseHex(WordOf(curr)) == FromBinary(Concat(curr))
  {
    var fullStr := Concat(curr);
    ConcatLength(curr);
    var v := FromBinary(fullStr);
    FromBinaryBound(fullStr);
    Pow2TimesFour(8);
    HexLengthBound(v, true, 8);
  }

  /** The words `hash` loads from a block, four byte strings at a time. */
  function LoadWords(bits: seq<string>): (r: seq<string>)
    requires |bits| % 4 == 0 && BinaryEntries(bits)
    ensures |r| == |bits| / 4
    decreases |bits|
  {
    if bits == [] then []
    else LoadWords(bits[..|bits| - 4]) + [WordOf(bits[|bits| - 4..])]
  }

  /** Appending the next word keeps the loaded words equal to `LoadWords`
      of the byte strings consumed so far. */
  lemma LoadedAfterAppend(start: seq<string>, before: seq<string>, after: seq<string>, bits: seq<string>, taken: nat)
    requires taken % 4 == 0 && taken + 4 <= |bits| && BinaryEntries(bits)
    requires before == start + LoadWords(bits[..taken])
    requires BinaryEntries(bits[taken..taken + 4])
    requires after == before + [WordOf(bits[taken..taken + 4])]
    ensures after == start + LoadWords(bits[..taken + 4])
  {
    LoadWordsExtend(bits, taken);
  }

  lemma ByteStringsBinary(ts: seq<string>)
    requires ByteStrings(ts)
    ensures BinaryEntries(ts)
  {
  }

  lemma BinaryEntriesSlice(bits: seq<string>, lo: nat, hi: nat)
    requires BinaryEntries(bits) && lo <= hi <= |bits|
    ensures BinaryEntries(bits[lo..hi])
  {
    assert forall j :: 0 <= j < hi - lo ==> bits[lo..hi][j] == bits[lo + j];
  }

  /** Four more byte strings add one word at the end. */
  lemma LoadWordsExtend(bits: seq<string>, n: nat)
    requires n % 4 == 0 && n + 4 <= |bits| && BinaryEntries(bits)
    ensures LoadWords(bits[..n + 4]) == LoadWords(bits[..n]) + [WordOf(bits[n..n + 4])]
  {
    var p := bits[..n + 4];
    assert p[..|p| - 4] == bits[..n];
    assert p[|p| - 4..] == bits[n..n + 4];
  }

  /** Word i is loaded from byte strings 4i to 4i+3. */
  lemma {:induction false} LoadWordsAt(bits: seq<string>, i: int)
    requires |bits| % 4 == 0 && BinaryEntries(bits) && 0 <= i < |bits| / 4
    ensures LoadWords(bits)[i] == WordOf(bits[4 * i..4 * i + 4])
    decreases |bits|
  {
    var n := |bits|;
    if 4 * i + 4 < n {
      var front := bits[..n - 4];
      BinaryEntriesPrefix(bits, n - 4);
      LoadWordsAt(front, i);
      WordFromFront(bits, i, front);
    } else {
      WordFromLast(bits, i);
    }
  }

  /** A word of the front part is the same word of the whole. */
  lemma WordFromFront(bits: seq<string>, i: int, front: seq<string>)
    requires |bits| % 4 == 0 && BinaryEntries(bits) && 0 <= i && 4 * i + 4 < |bits|
    requires front == bits[..|bits| - 4] && BinaryEntries(front)
    requires LoadWords(front)[i] == WordOf(front[4 * i..4 * i + 4])
    ensures LoadWords(bits)[i] == WordOf(bits[4 * i..4 * i + 4])
  {
    var k := |bits| / 4;
    assert |bits| == 4 * k && |front| == 4 * (k - 1) && i < k - 1;
    FrontIndex(bits, i, front);
    SameGroup(bits, front, 4 * i);
  }

  /** The group of four at lo is the same in the whole and in its front part. */
  lemma SameGroup(bits: seq<string>, front: seq<string>, lo: nat)
    requires |bits| >= 4 && front == bits[..|bits| - 4] && lo + 4 <= |front|
    ensures front[lo..lo + 4] == bits[lo..lo + 4]
  {
    SliceOfPrefix(bits, |bits| - 4, lo, lo + 4);
  }

  lemma FrontIndex(bits: seq<string>, i: int, front: seq<string>)
    requires |bits| % 4 == 0 && BinaryEntries(bits) && 0 <= i && 4 * i + 4 < |bits|
    requires front == bits[..|bits| - 4] && BinaryEntries(front)
    ensures LoadWords(bits)[i] == LoadWords(front)[i]
  {
    LoadWordsLast(bits);
    IndexOfAppend(LoadWords(front), WordOf(bits[|bits| - 4..]), i);
  }

  /** The last word comes from the last four byte strings. */
  lemma WordFromLast(bits: seq<string>, i: int)
    requires |bits| % 4 == 0 && BinaryEntries(bits) && 0 <= i && 4 * i + 4 == |bits|
    ensures LoadWords(bits)[i] == WordOf(bits[4 * i..4 * i + 4])
  {
    LoadWordsLast(bits);
    IndexOfAppend(LoadWords(bits[..|bits| - 4]), WordOf(bits[|bits| - 4..]), i);
    LastGroup(bits, i);
  }

  lemma IndexOfAppend(front: seq<string>, last: string, i: int)
    requires 0 <= i <= |front|
    ensures (front + [last])[i] == if i < |front| then front[i] else last
  {
  }

  /** The last four byte strings give the last word. */
  lemma LoadWordsLast(bits: seq<string>)
    requires |bits| % 4 == 0 && |bits| >= 4 && BinaryEntries(bits)
    ensures BinaryEntries(bits[..|bits| - 4]) && BinaryEntries(bits[|bits| - 4..])
    ensures LoadWords(bits) == LoadWords(bits[..|bits| - 4]) + [WordOf(bits[|bits| - 4..])]
  {
  }

  lemma BinaryEntriesPrefix(bits: seq<string>, k: nat)
    requires BinaryEntries(bits) && k <= |bits|
    ensures BinaryEntries(bits[..k])
  {
  }

  lemma LastGroup(bits: seq<string>, i: int)
    requires |bits| % 4 == 0 && 0 <= i && 4 * i == |bits| - 4
    ensures bits[4 * i..4 * i + 4] == bits[|bits| - 4..]
  {
  }

  lemma SliceOfPrefix(s: seq<string>, k: nat, lo: nat, hi: nat)
    requires lo <= hi <= k <= |s|
    ensures s[..k][lo..hi] == s[lo..hi]
  {
  }

  /** Word i of a block is the big-endian value of byte strings 4i to 4i+3,
      as 8 upper-case hex digits. */
  lemma LoadWordsMeaning(bits: seq<string>)
    requires |bits| % 4 == 0 && ByteStrings(bits)
    ensures forall i :: 0 <= i < |bits| / 4 ==>
      && |LoadWords(bits)[i]| == 8 && IsUpperHex(LoadWords(bits)[i])
      && ParseHex(LoadWords(bits)[i]) == FromBinary(Concat(bits[4 * i..4 * i + 4]))
  {
    forall i | 0 <= i < |bits| / 4
      ensures |LoadWords(bits)[i]| == 8 && IsUpperHex(LoadWords(bits)[i])
      ensures ParseHex(LoadWords(bits)[i]) == FromBinary(Concat(bits[4 * i..4 * i + 4]))
    {
      LoadWordMeaning(bits, i);
    }
  }

  lemma LoadWordMeaning(bits: seq<string>, i: int)
    requires |bits| % 4 == 0 && ByteStrings(bits) && 0 <= i < |bits| / 4
    ensures |LoadWords(bits)[i]| == 8 && IsUpperHex(LoadWords(bits)[i])
    ensures ParseHex(LoadWords(bits)[i]) == FromBinary(Concat(bits[4 * i..4 * i + 4]))
  {
    ByteStringsBinary(bits);
    LoadWordsAt(bits, i);
    var curr := bits[4 * i..4 * i + 4];
    GroupOfByteStrings(bits, 4 * i, curr);
    WordOfMeaning(curr);
  }

  lemma GroupOfByteStrings(bits: seq<string>, lo: nat, curr: seq<string>)
    requires ByteStrings(bits) && lo + 4 <= |bits| && curr == bits[lo..lo + 4]
    ensures |curr| == 4 && BinaryEntries(curr)
    ensures forall j :: 0 <= j < 4 ==> |curr[j]| == 8
  {
    assert forall j :: 0 <= j < 4 ==> curr[j] == bits[lo + j];
  }

  /** The loaded words of a block are usable as m-values. */
  lemma LoadWordsHex(bits: seq<string>)
    requires |bits| == 64 && ByteStrings(bits)
    ensures |LoadWords(bits)| == 16 && HexWords(LoadWords(bits))
  {
    LoadWordsMeaning(bits);
  }

  // ---------------------------------------------------------------------
  // Blocks and the digest
  // ---------------------------------------------------------------------

  /** `[m[index] for index in indices]` */
  function Gathered(m: seq<string>, indices: seq<int>): (r: seq<string>)
    requires IndicesBelow(indices, |m|)
    ensures |r| == |indices|
    ensures forall i :: 0 <= i < |indices| ==> r[i] == m[indices[i]]
  {
    seq(|indices|, i requires 0 <= i < |indices| => m[indices[i]])
  }

  /** The copy loops that build `round_two_m`, `round_three_m` and `round_four_m`. */
  method Gather(m: seq<string>, indices: seq<int>) returns (r: seq<string>)
    requires IndicesBelow(indices, |m|)
    ensures r == Gathered(m, indices)
  {
    r := [];
    for i := 0 to |indices|
      invariant r == Gathered(m, indices[..i])
    {
      r := r + [m[indices[i]]];
    }
    assert indices[..|indices|] == indices;
  }

  lemma GatheredHex(m: seq<string>, indices: seq<int>)
    requires |indices| == 16 && HexWords(m)
    requires IndicesBelow(indices, |m|)
    ensures HexWords(Gathered(m, indices))
  {
  }

  /** The k-values each round reads: round one from the start, each later
      round from 16 further on. */
  lemma KSlicesOk()
    ensures |KValues| == 64 && HexWords(KValues)
    ensures |KValues[16..]| == 48 && HexWords(KValues[16..])
    ensures |KValues[16..][16..]| == 32 && HexWords(KValues[16..][16..])
    ensures |KValues[16..][16..][16..]| == 16 && HexWords(KValues[16..][16..][16..])
    ensures forall i :: 0 <= i < 16 ==>
      && KValues[16..][i] == KValues[16 + i]
      && KValues[16..][16..][i] == KValues[32 + i]
      && KValues[16..][16..][16..][i] == KValues[48 + i]
  {
    KValuesShape();
  }

  lemma InitialWordsOk()
    ensures WordsOk(InitialWords)
  {
    assert IsHex("01234567") && IsHex("89abcdef") && IsHex("fedcba98") && IsHex("76543210");
  }

  /** What each of the four rounds of a block is given meets `RoundInputsOk`. */
  lemma RoundInputsOfBlock(roundOneM: seq<string>)
    requires |roundOneM| == 16 && HexWords(roundOneM)
    ensures RoundInputsOk(roundOneM, KValues, RoundOneShiftMap)
    ensures RoundInputsOk(Gathered(roundOneM, RoundTwoMIndices), KValues[16..], RoundTwoShiftMap)
    ensures RoundInputsOk(Gathered(roundOneM, RoundThreeMIndices), KValues[16..][16..], RoundThreeShiftMap)
    ensures RoundInputsOk(Gathered(roundOneM, RoundFourMIndices), KValues[16..][16..][16..], RoundFourShiftMap)
  {
    KSlicesOk();
    TablesCoverSteps();
    GatheredHex(roundOneM, RoundTwoMIndices);
    GatheredHex(roundOneM, RoundThreeMIndices);
    GatheredHex(roundOneM, RoundFourMIndices);
  }

  /** The four rounds over one block; each round takes one step per word of
      the block, 16 in all. */
  function FourRounds(w: Words, roundOneM: seq<string>): (r: Words)
    requires WordsOk(w) && |roundOneM| == 16 && HexWords(roundOneM)
    ensures AllReduced(r)
  {
    TablesCoverSteps();
    RoundInputsOfBlock(roundOneM);
    var steps := |roundOneM|;
    var one := RunSteps(F, w, roundOneM, KValues, RoundOneShiftMap, steps);
    var two := RunSteps(G, one, Gathered(roundOneM, RoundTwoMIndices), KValues[16..], RoundTwoShiftMap, steps);
    var three := RunSteps(H, two, Gathered(roundOneM, RoundThreeMIndices), KValues[16..][16..], RoundThreeShiftMap, steps);
    RunSteps(I, three, Gathered(roundOneM, RoundFourMIndices), KValues[16..][16..][16..], RoundFourShiftMap, steps)
  }

  /** The wrap-up additions: each word of the rounds' output plus the
      ORIGINAL initialization vector in the same place, modulo 10^8. */
  function WrapUp(four: Words): (r: Words)
    requires WordsOk(four)
    ensures AllReduced(r)
    ensures ParseHex(r.a) == (ParseHex(four.a) + 0x01234567) % Modulus
    ensures ParseHex(r.b) == (ParseHex(four.b) + 0x89abcdef) % Modulus
    ensures ParseHex(r.c) == (ParseHex(four.c) + 0xfedcba98) % Modulus
    ensures ParseHex(r.d) == (ParseHex(four.d) + 0x76543210) % Modulus
  {
    InitialWordsValues();
    var r := AddWords(four, InitialWords);
    AddInitialWords(four, InitialWords, r);
    r
  }

  /** `AddWords` with the initialization vectors' values substituted. */
  lemma AddInitialWords(x: Words, ivs: Words, r: Words)
    requires WordsOk(x) && WordsOk(ivs) && r == AddWords(x, ivs)
    requires ParseHex(ivs.a) == 0x01234567 && ParseHex(ivs.b) == 0x89abcdef
    requires ParseHex(ivs.c) == 0xfedcba98 && ParseHex(ivs.d) == 0x76543210
    ensures ParseHex(r.a) == (ParseHex(x.a) + 0x01234567) % Modulus
    ensures ParseHex(r.b) == (ParseHex(x.b) + 0x89abcdef) % Modulus
    ensures ParseHex(r.c) == (ParseHex(x.c) + 0xfedcba98) % Modulus
    ensures ParseHex(r.d) == (ParseHex(x.d) + 0x76543210) % Modulus
  {
  }

  /** The values of the four initialization vectors. */
  lemma InitialWordsValues()
    ensures WordsOk(InitialWords)
    ensures ParseHex(InitialWords.a) == 0x01234567
    ensures ParseHex(InitialWords.b) == 0x89abcdef
    ensures ParseHex(InitialWords.c) == 0xfedcba98
    ensures ParseHex(InitialWords.d) == 0x76543210
  {
    InitialWordsOk();
    InitialWordAValue();
    InitialWordBValue();
    InitialWordCValue();
    InitialWordDValue();
  }

  lemma InitialWordAValue()
    ensures AllHex("01234567") && ParseHex("01234567") == 0x01234567
  {
    assert "01234567"[..7] == "0123456";
    assert "0123456"[..6] == "012345";
    assert "012345"[..5] == "01234";
    assert "01234"[..4] == "0123";
    assert "0123"[..3] == "012";
    assert "012"[..2] == "01";
    assert "01"[..1] == "0";
    assert "0"[..0] == "";
  }

  lemma InitialWordBValue()
    ensures AllHex("89abcdef") && ParseHex("89abcdef") == 0x89abcdef
  {
    assert "89abcdef"[..7] == "89abcde";
    assert "89abcde"[..6] == "89abcd";
    assert "89abcd"[..5] == "89abc";
    assert "89abc"[..4] == "89ab";
    assert "89ab"[..3] == "89a";
    assert "89a"[..2] == "89";
    assert "89"[..1] == "8";
    assert "8"[..0] == "";
  }

  lemma InitialWordCValue()
    ensures AllHex("fedcba98") && ParseHex("fedcba98") == 0xfedcba98
  {
    assert "fedcba98"[..7] == "fedcba9";
    assert "fedcba9"[..6] == "fedcba";
    assert "fedcba"[..5] == "fedcb";
    assert "fedcb"[..4] == "fedc";
    assert "fedc"[..3] == "fed";
    assert "fed"[..2] == "fe";
    assert "fe"[..1] == "f";
    assert "f"[..0] == "";
  }

  lemma InitialWordDValue()
    ensures AllHex("76543210") && ParseHex("76543210") == 0x76543210
  {
    assert "76543210"[..7] == "7654321";
    assert "7654321"[..6] == "765432";
    assert "765432"[..5] == "76543";
    assert "76543"[..4] == "7654";
    assert "7654"[..3] == "765";
    assert "765"[..2] == "76";
    assert "76"[..1] == "7";
    assert "7"[..0] == "";
  }

  /** Four addition boxes side by side, one per word. */
  function AddWords(x: Words, y: Words): (r: Words)
    requires WordsOk(x) && WordsOk(y)
    ensures AllReduced(r)
  {
    Words(ModAdd(x.a, y.a), ModAdd(x.b, y.b), ModAdd(x.c, y.c), ModAdd(x.d, y.d))
  }

  /** One block: the four rounds, then the wrap-up with the ORIGINAL
      initialization vectors (not the words the block started from). */
  function BlockStep(w: Words, roundOneM: seq<string>): (r: Words)
    requires WordsOk(w) && |roundOneM| == 16 && HexWords(roundOneM)
    ensures AllReduced(r)
  {
    var four := FourRounds(w, roundOneM);
    AllReducedWordsOk(four);
    WrapUp(four)
  }

  /** Every block holds 64 byte strings. */
  predicate BlocksOk(blocks: seq<seq<string>>)
  {
    forall i :: 0 <= i < |blocks| ==> |blocks[i]| == 64 && ByteStrings(blocks[i])
  }

  lemma AllReducedWordsOk(w: Words)
    requires AllReduced(w)
    ensures WordsOk(w)
  {
    ReducedIsHex(w.a);
    ReducedIsHex(w.b);
    ReducedIsHex(w.c);
    ReducedIsHex(w.d);
  }

  /** The words after the given blocks, in order. */
  function ProcessBlocks(w: Words, blocks: seq<seq<string>>): (r: Words)
    requires WordsOk(w) && BlocksOk(blocks)
    ensures WordsOk(r)
    ensures |blocks| > 0 ==> AllReduced(r)
    decreases |blocks|
  {
    if blocks == [] then w
    else
      var last := blocks[|blocks| - 1];
      assert BlocksOk(blocks[..|blocks| - 1]);
      LoadWordsHex(last);
      var r := BlockStep(ProcessBlocks(w, blocks[..|blocks| - 1]), LoadWords(last));
      AllReducedWordsOk(r);
      r
  }

  lemma WholePrefix<T>(s: seq<T>)
    ensures s[..|s|] == s
  {
  }

  /** One more block runs `BlockStep` on the words so far. */
  lemma ProcessBlocksExtend(w: Words, bs: seq<seq<string>>, j: nat)
    requires WordsOk(w) && BlocksOk(bs) && j < |bs|
    ensures |bs[j]| == 64 && ByteStrings(bs[j]) && BlocksOk(bs[..j]) && BlocksOk(bs[..j + 1])
    ensures |LoadWords(bs[j])| == 16 && HexWords(LoadWords(bs[j]))
    ensures ProcessBlocks(w, bs[..j + 1]) == BlockStep(ProcessBlocks(w, bs[..j]), LoadWords(bs[j]))
  {
    LoadWordsHex(bs[j]);
    assert bs[..j + 1][..j] == bs[..j];
  }

  function BitsOf(layouts: seq<Layout>): (r: seq<seq<string>>)
    ensures |r| == |layouts|
    ensures forall i :: 0 <= i < |layouts| ==> r[i] == layouts[i].bits
  {
    seq(|layouts|, i requires 0 <= i < |layouts| => layouts[i].bits)
  }

  /** `('0' * (8 - len(s))) + s`: up to 8 hex digits become exactly 8 of the
      same value; longer strings are kept. */
  function Pad8(s: string): (r: string)
    ensures |r| == if |s| <= 8 then 8 else |s|
    ensures AllHex(s) ==> AllHex(r) && ParseHex(r) == ParseHex(s)
  {
    var zeros := Repeat('0', 8 - |s|);
    LeadingZerosKeepValue(|zeros|, s);
    assert zeros == Repeat('0', |zeros|);
    zeros + s
  }

  /** The blocks of any ASCII input hold 64 byte strings each, and there is at least one. */
  lemma InputBlocks(inputString: string, bitString: string, bitLength: nat)
    requires IsAscii(inputString)
    requires bitString == GetBitsAsString(inputString)
    requires bitLength == GetNumberOfBitsFromBitString(bitString)
    ensures BlocksOk(BitsOf(Layouts(bitString, bitLength, bitLength)))
  {
    var ts := ByteTokens(GetBytes(inputString));
    BitStringLength(inputString);
    LayoutsOfBytesShape(ts, 8 * |inputString|);
  }

  /** The words `hash` holds after its block loop. */
  function FinalWords(inputString: string): (r: Words)
    requires IsAscii(inputString)
    ensures AllReduced(r)
  {
    var bitString := GetBitsAsString(inputString);
    var bitLength := GetNumberOfBitsFromBitString(bitString);
    InputBlocks(inputString, bitString, bitLength);
    InitialWordsOk();
    ProcessBlocks(InitialWords, BitsOf(Layouts(bitString, bitLength, bitLength)))
  }

  /** The four final words, each zero-padded to 8 digits, concatenated:
      four reduced words give a result in `DigestForm`, each group of 8
      holding one word's value. */
  function Concatenated(w: Words): (r: string)
    ensures AllReduced(w) ==> DigestForm(r)
    ensures AllReduced(w) ==>
      && ParseHex(r[..8]) == ParseHex(w.a) && ParseHex(r[8..16]) == ParseHex(w.b)
      && ParseHex(r[16..24]) == ParseHex(w.c) && ParseHex(r[24..]) == ParseHex(w.d)
  {
    var r := Pad8(w.a) + Pad8(w.b) + Pad8(w.c) + Pad8(w.d);
    ConcatenatedShape(w, r);
    r
  }

  lemma Pad8Reduced(s: string)
    requires Reduced(s)
    ensures |Pad8(s)| == 8 && IsLowerHex(Pad8(s)) && Pad8(s)[0] == '0'
    ensures ParseHex(Pad8(s)) == ParseHex(s)
  {
  }

  /** The form of every result: 32 lower-case hex digits in four groups of 8,
      each group below 10^8 and so starting with '0'. */
  predicate DigestForm(r: string)
  {
    && |r| == 32 && IsLowerHex(r)
    && r[0] == '0' && r[8] == '0' && r[16] == '0' && r[24] == '0'
    && ParseHex(r[..8]) < Modulus && ParseHex(r[8..16]) < Modulus
    && ParseHex(r[16..24]) < Modulus && ParseHex(r[24..]) < Modulus
  }

  /** The padded groups of four reduced words, side by side: 32 lower-case
      digits whose groups of 8 hold the words' values. */
  lemma ConcatenatedShape(w: Words, r: string)
    requires r == Pad8(w.a) + Pad8(w.b) + Pad8(w.c) + Pad8(w.d)
    ensures AllReduced(w) ==> DigestForm(r)
    ensures AllReduced(w) ==>
      && ParseHex(r[..8]) == ParseHex(w.a) && ParseHex(r[8..16]) == ParseHex(w.b)
      && ParseHex(r[16..24]) == ParseHex(w.c) && ParseHex(r[24..]) == ParseHex(w.d)
  {
    if !AllReduced(w) {
      return;
    }
    Pad8Reduced(w.a);
    Pad8Reduced(w.b);
    Pad8Reduced(w.c);
    Pad8Reduced(w.d);
    FourGroups(Pad8(w.a), Pad8(w.b), Pad8(w.c), Pad8(w.d), r);
  }

  /** Four groups of 8 lower-case digits side by side. */
  lemma FourGroups(pa: string, pb: string, pc: string, pd: string, r: string)
    requires |pa| == 8 && |pb| == 8 && |pc| == 8 && |pd| == 8
    requires IsLowerHex(pa) && IsLowerHex(pb) && IsLowerHex(pc) && IsLowerHex(pd)
    requires r == pa + pb + pc + pd
    ensures |r| == 32 && IsLowerHex(r)
    ensures r[..8] == pa && r[8..16] == pb && r[16..24] == pc && r[24..] == pd
    ensures r[0] == pa[0] && r[8] == pb[0] && r[16] == pc[0] && r[24] == pd[0]
  {
    assert r[..8] == pa;
    assert r[8..16] == pb;
    assert r[16..24] == pc;
    assert r[24..] == pd;
  }

  /** What `hash` returns, always in `DigestForm`. */
  function Digest(inputString: string): (r: string)
    requires IsAscii(inputString)
    ensures DigestForm(r)
  {
    Concatenated(FinalWords(inputString))
  }

  // ---------------------------------------------------------------------
  // The hash function
  // ---------------------------------------------------------------------

  /** The step of `hash`'s first loop that turns four byte strings into a
      word: upper-case hex of their value, zero-padded to 8 digits. */
  method AppendWord(block: Block, currSetOf4: seq<string>)
    requires |currSetOf4| == 4 && BinaryEntries(currSetOf4)
    modifies block
    ensures block.hexaLst == old(block.hexaLst) + [WordOf(currSetOf4)]
  {
    var fullStr := Concat(currSetOf4);
    var hexaStr := HexUpper(FromBinary(fullStr));
    if hexaStr == "0" {
      block.UpdateHexaLst("00000000");
    } else if |hexaStr| < 8 {
      var zeroes := Repeat('0', 8 - |hexaStr|);
      block.UpdateHexaLst(zeroes + hexaStr);
    } else {
      block.UpdateHexaLst(hexaStr);
    }
  }

  /** The body of `hash`'s first loop for one block: every fourth byte
      string, the last four are turned into a word and appended to the
      block's words. */
  method LoadBlock(block: Block)
    requires |block.packagedBits| == 64 && ByteStrings(block.packagedBits)
    modifies block
    ensures block.hexaLst == old(block.hexaLst) + LoadWords(block.packagedBits)
  {
    ghost var start := block.hexaLst;
    var bits := block.packagedBits;
    ByteStringsBinary(bits);
    var currSetOf4: seq<string> := [];
    ghost var taken := 0;
    for i := 0 to |bits|
      invariant taken % 4 == 0 && taken <= i && |currSetOf4| == i - taken < 4
      invariant currSetOf4 == bits[taken..i]
      invariant block.hexaLst == start + LoadWords(bits[..taken])
    {
      currSetOf4, taken := LoadStep(block, start, bits, taken, i, currSetOf4);
    }
    AllTaken(taken, |bits|);
    assert bits[..|bits|] == bits;
  }

  /** A multiple of four less than four below a multiple of four is that multiple. */
  lemma AllTaken(taken: nat, n: nat)
    requires taken % 4 == 0 && n % 4 == 0 && taken <= n < taken + 4
    ensures taken == n
  {
  }

  /** One pass of `LoadBlock`'s loop: byte string i joins the current set
      of four, and a full set becomes the next word. */
  method LoadStep(block: Block, ghost start: seq<string>, bits: seq<string>, ghost taken: nat, i: nat, currSetOf4: seq<string>)
    returns (curr: seq<string>, ghost taken': nat)
    requires BinaryEntries(bits) && taken % 4 == 0 && taken <= i < |bits|
    requires |currSetOf4| == i - taken < 4 && currSetOf4 == bits[taken..i]
    requires block.hexaLst == start + LoadWords(bits[..taken])
    modifies block
    ensures taken' % 4 == 0 && taken' <= i + 1 && |curr| == i + 1 - taken' < 4
    ensures curr == bits[taken'..i + 1]
    ensures block.hexaLst == start + LoadWords(bits[..taken'])
  {
    SliceExtend(bits, taken, i);
    curr := currSetOf4 + [bits[i]];
    if |curr| == 4 {
      AppendNextWord(block, start, bits, taken, i + 1, curr);
      return [], i + 1;
    }
    return curr, taken;
  }

  /** One word of `LoadBlock`: the four byte strings after the first
      `taken` become the next word of the block. */
  method AppendNextWord(block: Block, ghost start: seq<string>, bits: seq<string>, ghost taken: nat, ghost next: nat, currSetOf4: seq<string>)
    requires taken % 4 == 0 && next == taken + 4 && next <= |bits| && BinaryEntries(bits)
    requires currSetOf4 == bits[taken..next]
    requires block.hexaLst == start + LoadWords(bits[..taken])
    modifies block
    ensures block.hexaLst == start + LoadWords(bits[..next])
  {
    BinaryEntriesSlice(bits, taken, next);
    ghost var before := block.hexaLst;
    AppendWord(block, currSetOf4);
    LoadedAfterAppend(start, before, block.hexaLst, bits, taken);
  }

  lemma SliceExtend(bits: seq<string>, lo: nat, hi: nat)
    requires lo <= hi < |bits|
    ensures bits[lo..hi] + [bits[hi]] == bits[lo..hi + 1]
  {
  }

  /** The four rounds of `hash`'s second loop for one block, each with its
      m-values, shift map and k-values. */
  method RunRounds(a: string, b: string, c: string, d: string, roundOneM: seq<string>)
    returns (four: Words)
    requires WordsOk(Words(a, b, c, d)) && |roundOneM| == 16 && HexWords(roundOneM)
    ensures four == FourRounds(Words(a, b, c, d), roundOneM)
  {
    RoundInputsOfBlock(roundOneM);
    TablesCoverSteps();
    var one := Round(F, a, b, c, d, roundOneM, RoundOneShiftMap, KValues);
    var roundTwoM := Gather(roundOneM, RoundTwoMIndices);
    var roundTwoKValues := KValues[16..];
    var two := Round(G, one.a, one.b, one.c, one.d, roundTwoM, RoundTwoShiftMap, roundTwoKValues);
    var roundThreeM := Gather(roundOneM, RoundThreeMIndices);
    var roundThreeKValues := roundTwoKValues[16..];
    var three := Round(H, two.a, two.b, two.c, two.d, roundThreeM, RoundThreeShiftMap, roundThreeKValues);
    var roundFourM := Gather(roundOneM, RoundFourMIndices);
    var roundFourKValues := roundThreeKValues[16..];
    four := Round(I, three.a, three.b, three.c, three.d, roundFourM, RoundFourShiftMap, roundFourKValues);
  }

  /** The body of `hash`'s second loop for one block: the four rounds, then
      the wrap-up additions with the original initialization vectors
      (`originals`, which never change, so the model reads them from
      `InitialWords`). */
  method RunBlock(a: string, b: string, c: string, d: string, roundOneM: seq<string>)
    returns (w: Words)
    requires WordsOk(Words(a, b, c, d)) && |roundOneM| == 16 && HexWords(roundOneM)
    ensures w == BlockStep(Words(a, b, c, d), roundOneM)
  {
    var four := RunRounds(a, b, c, d, roundOneM);
    AllReducedWordsOk(four);
    InitialWordsOk();
    w := Words(ModAdd(four.a, InitialWords.a), ModAdd(four.b, InitialWords.b),
               ModAdd(four.c, InitialWords.c), ModAdd(four.d, InitialWords.d));
  }

  /** `hash`'s first loop: loads the words of every block of the collection. */
  method LoadBlocks(blocks: seq<Block>, ghost bs: seq<seq<string>>)
    requires |blocks| == |bs| && BlocksOk(bs)
    requires forall k :: 0 <= k < |blocks| ==> blocks[k].packagedBits == bs[k] && blocks[k].hexaLst == []
    requires forall k, k' :: 0 <= k < k' < |blocks| ==> blocks[k] != blocks[k']
    modifies set k | 0 <= k < |blocks| :: blocks[k]
    ensures forall k :: 0 <= k < |blocks| ==> blocks[k].hexaLst == LoadWords(bs[k])
  {
    for j := 0 to |blocks|
      invariant forall k :: 0 <= k < j ==> blocks[k].hexaLst == LoadWords(bs[k])
      invariant forall k :: j <= k < |blocks| ==> blocks[k].hexaLst == []
    {
      assert forall k :: 0 <= k < |blocks| && k != j ==> blocks[k] != blocks[j];
      LoadBlock(blocks[j]);
    }
  }

  /** `hash`'s second loop: runs every block, in the order of the collection,
      starting from the initialization vectors. */
  method RunBlocks(blocks: seq<Block>, ghost bs: seq<seq<string>>) returns (w: Words)
    requires |blocks| == |bs| && BlocksOk(bs)
    requires forall k :: 0 <= k < |blocks| ==> blocks[k].hexaLst == LoadWords(bs[k])
    ensures w == ProcessBlocks(InitialWords, bs)
  {
    var a, b, c, d := "01234567", "89abcdef", "fedcba98", "76543210";
    InitialWordsOk();
    for j := 0 to |blocks|
      invariant Words(a, b, c, d) == ProcessBlocks(InitialWords, bs[..j])
    {
      var roundOneM := blocks[j].hexaLst;
      ProcessBlocksExtend(InitialWords, bs, j);
      var next := RunBlock(a, b, c, d, roundOneM);
      a, b, c, d := next.a, next.b, next.c, next.d;
    }
    WholePrefix(bs);
    w := Words(a, b, c, d);
  }

  /** `hash`: the bit string and its length, the block collection, the two
      loops over its blocks, and the padded final words concatenated. */
  method Hash(inputString: string) returns (r: string)
    requires IsAscii(inputString)
    ensures r == Digest(inputString)
  {
    var bitString := GetBitsAsString(inputString);
    var bitLength := GetNumberOfBitsFromBitString(bitString);
    var blockCollection := new BlockCollection(bitString, bitLength);
    var blocks := blockCollection.collection;
    ghost var bs := BitsOf(Layouts(bitString, bitLength, bitLength));
    InputBlocks(inputString, bitString, bitLength);
    assert forall k :: 0 <= k < |blocks| ==> blocks[k].packagedBits == bs[k] by {
      assert LayoutsOf(blocks) == Layouts(bitString, bitLength, bitLength);
    }
    LoadBlocks(blocks, bs);
    var w := RunBlocks(blocks, bs);
    var a := Repeat('0', 8 - |w.a|) + w.a;
    var b := Repeat('0', 8 - |w.b|) + w.b;
    var c := Repeat('0', 8 - |w.c|) + w.c;
    var d := Repeat('0', 8 - |w.d|) + w.d;
    r := a + b + c + d;
  }
}
