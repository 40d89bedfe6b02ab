/** blockcollection.py: the list of 512-bit blocks a bit string is cut into.
    The recursion peels a CompleteBlock off the END of the bit string until
    fewer than 512 bits are left, then closes with a PaddedBlock (or with a
    MidBlock and a PaddedBlock holding only zeros and the length field). */
module BlockCollections {
  import opened PyBuiltins
  import opened Utils
  import opened Blocks

  /** What a block is made of, without its mutable word list. */
  datatype Layout = Layout(kind: BlockKind, bits: seq<string>)

  /** The layouts `_populate_collection` appends, in order. */
  function Layouts(bitString: string, bitLength: nat, fixedBitLength: nat): (r: seq<Layout>)
    ensures |r| >= 1
    decreases bitLength
  {
    if bitLength < 512 then ClosingLayouts(bitString, bitLength, fixedBitLength)
    else
      [Layout(Complete, CompleteLayout(bitString))]
      + Layouts(PyDropLast(bitString, 576), bitLength - 512, fixedBitLength)
  }

  /** The blocks that close the collection once fewer than 512 bits are left:
      a PaddedBlock alone below 448 bits, otherwise a MidBlock and a
      PaddedBlock over nothing. */
  function ClosingLayouts(bitString: string, bitLength: nat, fixedBitLength: nat): (r: seq<Layout>)
    requires bitLength < 512
    ensures |r| == if bitLength < 448 then 1 else 2
    ensures r[|r| - 1].kind == Padded && (|r| == 2 ==> r[0].kind == Mid)
    ensures bitString != "" ==>
      |Split(bitString)| < |r[0].bits| && r[0].bits[..|Split(bitString)|] == Split(bitString)
  {
    if bitLength < 448 then
      [Layout(Padded, PaddedLayout(bitString, bitLength, fixedBitLength))]
    else if bitLength == 448 then
      [Layout(Mid, MidLayout(bitString, bitLength)), Layout(Padded, PaddedLayout("", 0, fixedBitLength))]
    else
      [Layout(Mid, MidLayout(bitString, bitLength)), Layout(Padded, PaddedLayout("", 0, fixedBitLength))]
  }

  /** Only the last block is a PaddedBlock, so the length field appears once, at the very end. */
  lemma {:induction false} LayoutsKinds(bitString: string, bitLength: nat, fixedBitLength: nat)
    ensures var r := Layouts(bitString, bitLength, fixedBitLength);
      && r[|r| - 1].kind == Padded
      && |r[|r| - 1].bits| >= 8
      && r[|r| - 1].bits[|r[|r| - 1].bits| - 8..] == LengthTokens(fixedBitLength)
      && forall i :: 0 <= i < |r| - 1 ==> r[i].kind != Padded
    decreases bitLength
  {
    if bitLength < 448 {
      PaddedLayoutEndsWithLength(bitString, bitLength, fixedBitLength);
    } else if bitLength < 512 {
      PaddedLayoutEndsWithLength("", 0, fixedBitLength);
    } else {
      LayoutsKinds(PyDropLast(bitString, 576), bitLength - 512, fixedBitLength);
    }
  }

  /** The layouts of a list of blocks. */
  function LayoutsOf(blocks: seq<Block>): (r: seq<Layout>)
    ensures |r| == |blocks|
    ensures forall i :: 0 <= i < |blocks| ==> r[i] == Layout(blocks[i].kind, blocks[i].packagedBits)
  {
    seq(|blocks|, i requires 0 <= i < |blocks| => Layout(blocks[i].kind, blocks[i].packagedBits))
  }

  lemma LayoutsOfCons(b: Block, blocks: seq<Block>)
    ensures LayoutsOf([b] + blocks) == [Layout(b.kind, b.packagedBits)] + LayoutsOf(blocks)
  {
    assert forall i :: 1 <= i <= |blocks| ==> ([b] + blocks)[i] == blocks[i - 1];
  }

  class BlockCollection {
    var collection: seq<Block>

    /** Builds the blocks of `bitString`, whose length field is `bitLength`. */
    constructor(bitString: string, bitLength: nat)
      ensures LayoutsOf(collection) == Layouts(bitString, bitLength, bitLength)
      ensures forall i :: 0 <= i < |collection| ==> fresh(collection[i]) && collection[i].hexaLst == []
      ensures forall i, j :: 0 <= i < j < |collection| ==> collection[i] != collection[j]
    {
      collection := [];
      new;
      PopulateCollection(bitString, bitLength, bitLength);
    }

    /** The two closing blocks of a bit string of 448 to 511 bits: a MidBlock
        over the bit string, then a PaddedBlock over nothing. */
    method AppendClosingBlocks(bitString: string, bitLength: nat, fixedBitLength: nat)
      modifies this
      ensures |collection| == |old(collection)| + 2
      ensures collection[..|old(collection)|] == old(collection)
      ensures LayoutsOf(collection[|old(collection)|..])
           == [Layout(Mid, MidLayout(bitString, bitLength)), Layout(Padded, PaddedLayout("", 0, fixedBitLength))]
      ensures forall i :: |old(collection)| <= i < |collection| ==> fresh(collection[i]) && collection[i].hexaLst == []
      ensures collection[|collection| - 2] != collection[|collection| - 1]
    {
      ghost var start := |collection|;
      var m := new Block.MidBlock(bitString, bitLength);
      collection := collection + [m];
      var p := new Block.PaddedBlock("", 0, fixedBitLength);
      collection := collection + [p];
      assert collection[start..] == [m, p];
    }

    /** The one closing block of a bit string of fewer than 448 bits: a
        PaddedBlock over the bit string. */
    method AppendPaddedBlock(bitString: string, bitLength: nat, fixedBitLength: nat)
      modifies this
      ensures |collection| == |old(collection)| + 1
      ensures collection[..|old(collection)|] == old(collection)
      ensures LayoutsOf(collection[|old(collection)|..]) == [Layout(Padded, PaddedLayout(bitString, bitLength, fixedBitLength))]
      ensures fresh(collection[|collection| - 1]) && collection[|collection| - 1].hexaLst == []
    {
      ghost var start := |collection|;
      var p := new Block.PaddedBlock(bitString, bitLength, fixedBitLength);
      collection := collection + [p];
      assert collection[start..] == [p];
    }

    /** Appends the blocks of `bitString` and leaves the earlier ones in place. */
    method PopulateCollection(bitString: string, bitLength: nat, fixedBitLength: nat)
      modifies this
      ensures |collection| > |old(collection)|
      ensures collection[..|old(collection)|] == old(collection)
      ensures LayoutsOf(collection[|old(collection)|..]) == Layouts(bitString, bitLength, fixedBitLength)
      ensures forall i :: |old(collection)| <= i < |collection| ==> fresh(collection[i]) && collection[i].hexaLst == []
      ensures forall i, j :: |old(collection)| <= i < j < |collection| ==> collection[i] != collection[j]
      decreases bitLength, 1
    {
      ghost var start := |collection|;
      if bitLength < 448 {
        AppendPaddedBlock(bitString, bitLength, fixedBitLength);
      } else if bitLength == 448 {
        AppendClosingBlocks(bitString, bitLength, fixedBitLength);
      } else if 449 <= bitLength <= 511 {
        AppendClosingBlocks(bitString, bitLength, fixedBitLength);
      } else {
        AppendCompleteBlocks(bitString, bitLength, fixedBitLength);
      }
    }

    /** A bit string of 512 bits or more: a CompleteBlock over its last 64
        byte strings, then the blocks of the rest. */
    method AppendCompleteBlocks(bitString: string, bitLength: nat, fixedBitLength: nat)
      requires bitLength >= 512
      modifies this
      ensures |collection| > |old(collection)|
      ensures collection[..|old(collection)|] == old(collection)
      ensures LayoutsOf(collection[|old(collection)|..])
           == [Layout(Complete, CompleteLayout(bitString))] + Layouts(PyDropLast(bitString, 576), bitLength - 512, fixedBitLength)
      ensures forall i :: |old(collection)| <= i < |collection| ==> fresh(collection[i]) && collection[i].hexaLst == []
      ensures forall i, j :: |old(collection)| <= i < j < |collection| ==> collection[i] != collection[j]
      decreases bitLength, 0
    {
      ghost var start := |collection|;
      var c := new Block.CompleteBlock(bitString);
      collection := collection + [c];
      ghost var mid := collection;
      PopulateCollection(PyDropLast(bitString, 576), bitLength - 512, fixedBitLength);
      assert forall i :: |mid| <= i < |collection| ==> collection[i] != c;
      AddedAfterCons(old(collection), c, mid, collection);
    }
  }

  /** The blocks added after one block `c`: the collection grows by `c` and
      then by the added part, whose layouts and distinctness carry over. */
  lemma AddedAfterCons(before: seq<Block>, c: Block, mid: seq<Block>, after: seq<Block>)
    requires mid == before + [c]
    requires |after| > |mid| && after[..|mid|] == mid
    requires forall i :: |mid| <= i < |after| ==> after[i] != c
    requires forall i, j :: |mid| <= i < j < |after| ==> after[i] != after[j]
    ensures |after| > |before| && after[..|before|] == before
    ensures LayoutsOf(after[|before|..]) == [Layout(c.kind, c.packagedBits)] + LayoutsOf(after[|mid|..])
    ensures forall i, j :: |before| <= i < j < |after| ==> after[i] != after[j]
  {
    assert after[|before|..] == [c] + after[|mid|..];
    LayoutsOfCons(c, after[|mid|..]);
  }

  // ---------------------------------------------------------------------
  // Closed form for the bit string of n whole bytes
  // ---------------------------------------------------------------------

  /** The CompleteBlocks over the last `64 * (|ts| / 64)` byte strings of
      `ts`, last 64 first. */
  function CompleteLayouts(ts: seq<string>): (r: seq<Layout>)
    ensures |r| == |ts| / 64
  {
    if |ts| < 64 then []
    else [Layout(Complete, ts[|ts| - 64..])] + CompleteLayouts(ts[..|ts| - 64])
  }

  /** The closing blocks over the first `|rest|` < 64 byte strings. */
  function TailLayouts(rest: seq<string>, fixedBitLength: nat): (r: seq<Layout>)
    requires |rest| < 64
    ensures |r| == if |rest| <= 55 then 1 else 2
  {
    if |rest| <= 55 then
      [Layout(Padded, rest + [if rest == [] then Zero8 else Marker] + Repeat(Zero8, 55 - |rest|) + LengthTokens(fixedBitLength))]
    else
      [Layout(Mid, rest + [Marker] + Repeat(Zero8, 63 - |rest|)),
       Layout(Padded, Repeat(Zero8, 56) + LengthTokens(fixedBitLength))]
  }

  /** `bit_string[:-576]` of the bit string of n >= 64 bytes is the bit string
      of its first n - 64 bytes. */
  lemma DropLastBlock(ts: seq<string>)
    requires |ts| >= 64 && ByteStrings(ts)
    ensures PyDropLast(Join(ts), 576) == Join(ts[..|ts| - 64])
  {
    var n := |ts|;
    if n == 64 {
      JoinSize(ts);
    } else {
      var front, back := ts[..n - 64], ts[n - 64..];
      assert front + back == ts;
      JoinAppend(front, back);
      JoinSize(back);
      DropSeparatedSuffix(Join(ts), Join(front), Join(back));
    }
  }

  /** Dropping a 575-character piece and the space before it. */
  lemma DropSeparatedSuffix(s: string, a: string, b: string)
    requires s == a + " " + b && |b| == 575
    ensures PyDropLast(s, 576) == a
  {
    assert s[..|s| - 576] == a;
  }

  /** Fewer than 64 bytes give only the closing blocks. */
  lemma LayoutsOfShortBytes(ts: seq<string>, fixedBitLength: nat)
    requires |ts| < 64 && ByteStrings(ts)
    ensures Layouts(Join(ts), 8 * |ts|, fixedBitLength) == TailLayouts(ts, fixedBitLength)
  {
    var n := |ts|;
    if n <= 55 {
      PaddedLayoutOfBytes(ts, fixedBitLength);
    } else {
      MidLayoutOfBytes(ts);
      PaddedLayoutOfBytes([], fixedBitLength);
      assert [Zero8] + Repeat(Zero8, 55) == Repeat(Zero8, 56);
      assert PaddedLayout("", 0, fixedBitLength) == Repeat(Zero8, 56) + LengthTokens(fixedBitLength);
      assert 448 <= 8 * n <= 511;
    }
  }

  /** 64 bytes or more: one CompleteBlock over the last 64, then the blocks of the rest. */
  lemma LayoutsPeelBlock(ts: seq<string>, fixedBitLength: nat)
    requires |ts| >= 64 && ByteStrings(ts)
    ensures Layouts(Join(ts), 8 * |ts|, fixedBitLength)
         == [Layout(Complete, ts[|ts| - 64..])] + Layouts(Join(ts[..|ts| - 64]), 8 * (|ts| - 64), fixedBitLength)
  {
    CompleteLayoutOfBytes(ts);
    DropLastBlock(ts);
    PeelOne(Join(ts), 8 * |ts|, fixedBitLength, ts[|ts| - 64..], Join(ts[..|ts| - 64]));
  }

  /** One recursive call of `_populate_collection`, on named parts. */
  lemma PeelOne(bitString: string, bitLength: nat, fixedBitLength: nat, last: seq<string>, rest: string)
    requires bitLength >= 512 && CompleteLayout(bitString) == last && PyDropLast(bitString, 576) == rest
    ensures Layouts(bitString, bitLength, fixedBitLength)
         == [Layout(Complete, last)] + Layouts(rest, bitLength - 512, fixedBitLength)
  {
  }

  lemma CompleteLayoutsPeel(ts: seq<string>, r: nat)
    requires r <= |ts| - 64 && (|ts| - r) % 64 == 0
    ensures ts[..|ts| - 64][r..] == ts[r..][..|ts| - r - 64]
    ensures CompleteLayouts(ts[r..]) == [Layout(Complete, ts[|ts| - 64..])] + CompleteLayouts(ts[..|ts| - 64][r..])
  {
    var tail := ts[r..];
    assert tail[|tail| - 64..] == ts[|ts| - 64..];
    assert ts[..|ts| - 64][r..] == tail[..|tail| - 64];
  }

  /** The blocks of n whole bytes, peeled off the end 64 at a time. */
  function ByteLayouts(ts: seq<string>, fixedBitLength: nat): (r: seq<Layout>)
    ensures |r| >= 1
    decreases |ts|
  {
    if |ts| < 64 then TailLayouts(ts, fixedBitLength)
    else [Layout(Complete, ts[|ts| - 64..])] + ByteLayouts(ts[..|ts| - 64], fixedBitLength)
  }

  /** `_populate_collection` on the bit string of whole bytes peels them 64 at a time. */
  lemma {:induction false} LayoutsPeelBytes(ts: seq<string>, fixedBitLength: nat)
    requires ByteStrings(ts)
    ensures Layouts(Join(ts), 8 * |ts|, fixedBitLength) == ByteLayouts(ts, fixedBitLength)
    decreases |ts|
  {
    if |ts| < 64 {
      LayoutsOfShortBytes(ts, fixedBitLength);
    } else {
      LayoutsPeelBlock(ts, fixedBitLength);
      LayoutsPeelBytes(ts[..|ts| - 64], fixedBitLength);
    }
  }

  /** Peeling 64 at a time leaves the first n mod 64 byte strings for the closing blocks. */
  lemma {:induction false} ByteLayoutsClosed(ts: seq<string>, fixedBitLength: nat)
    ensures ByteLayouts(ts, fixedBitLength)
         == CompleteLayouts(ts[|ts| % 64..]) + TailLayouts(ts[..|ts| % 64], fixedBitLength)
    decreases |ts|
  {
    var n := |ts|;
    var r := n % 64;
    if n < 64 {
      assert ts[r..] == [] && ts[..r] == ts;
    } else {
      var front := ts[..n - 64];
      ByteLayoutsClosed(front, fixedBitLength);
      ByteLayoutsClosedStep(ts, fixedBitLength, front, r);
    }
  }

  /** One peel of `ByteLayoutsClosed`: the closed form for the front gives
      the closed form for the whole. */
  lemma ByteLayoutsClosedStep(ts: seq<string>, fixedBitLength: nat, front: seq<string>, r: nat)
    requires |ts| >= 64 && front == ts[..|ts| - 64] && r == |ts| % 64
    requires ByteLayouts(front, fixedBitLength)
          == CompleteLayouts(front[|front| % 64..]) + TailLayouts(front[..|front| % 64], fixedBitLength)
    ensures ByteLayouts(ts, fixedBitLength)
         == CompleteLayouts(ts[r..]) + TailLayouts(ts[..r], fixedBitLength)
  {
    PeelRemainder(|ts|, r);
    CompleteLayoutsPeel(ts, r);
    assert front[..r] == ts[..r];
    LayoutsAssoc([Layout(Complete, ts[|ts| - 64..])], CompleteLayouts(front[r..]), TailLayouts(ts[..r], fixedBitLength));
  }

  /** For the bit string of n whole bytes, the blocks are the n / 64 complete
      blocks taken from the end, then the closing blocks over the first
      n % 64 bytes. */
  lemma LayoutsOfBytes(ts: seq<string>, fixedBitLength: nat)
    requires ByteStrings(ts)
    ensures Layouts(Join(ts), 8 * |ts|, fixedBitLength)
         == CompleteLayouts(ts[|ts| % 64..]) + TailLayouts(ts[..|ts| % 64], fixedBitLength)
  {
    LayoutsPeelBytes(ts, fixedBitLength);
    ByteLayoutsClosed(ts, fixedBitLength);
  }

  /** For a whole number of 64-byte blocks (the empty input included), the
      last block is a PaddedBlock of zero bytes and the length field: the
      byte that would hold the '1' padding bit is '00000000'. */
  lemma WholeBlocksLackMarker(ts: seq<string>, fixedBitLength: nat)
    requires ByteStrings(ts) && |ts| % 64 == 0
    ensures var fs := Layouts(Join(ts), 8 * |ts|, fixedBitLength);
      fs[|fs| - 1] == Layout(Padded, Repeat(Zero8, 56) + LengthTokens(fixedBitLength))
  {
    LayoutsOfBytes(ts, fixedBitLength);
    assert ts[..|ts| % 64] == [];
    EmptyTail(CompleteLayouts(ts[|ts| % 64..]), fixedBitLength);
  }

  /** Closing over no bytes: one PaddedBlock of 56 zero bytes and the length field. */
  lemma EmptyTail(complete: seq<Layout>, fixedBitLength: nat)
    ensures var fs := complete + TailLayouts([], fixedBitLength);
      fs[|fs| - 1] == Layout(Padded, Repeat(Zero8, 56) + LengthTokens(fixedBitLength))
  {
    assert [Zero8] + Repeat(Zero8, 55) == Repeat(Zero8, 56);
  }

  /** Taking 64 away keeps the remainder by 64. */
  lemma PeelRemainder(n: nat, r: nat)
    requires n >= 64 && r == n % 64
    ensures (n - 64) % 64 == r && r <= n - 64
    ensures (n - r) % 64 == 0 && (n - 64 - r) % 64 == 0
  {
    DivModUnique(n - 64, 64, n / 64 - 1, r);
    DivModUnique(n - r, 64, n / 64, 0);
    DivModUnique(n - 64 - r, 64, n / 64 - 1, 0);
  }

  lemma LayoutsAssoc(a: seq<Layout>, b: seq<Layout>, c: seq<Layout>)
    ensures a + (b + c) == (a + b) + c
  {
  }

  lemma ByteStringsAppend(x: seq<string>, y: seq<string>)
    requires ByteStrings(x) && ByteStrings(y)
    ensures ByteStrings(x + y)
  {
  }

  lemma ZerosAreByteStrings(k: int)
    ensures ByteStrings(Repeat(Zero8, k))
  {
  }

  lemma TailLayoutsBytes(rest: seq<string>, fixedBitLength: nat)
    requires |rest| < 64 && ByteStrings(rest)
    ensures forall i :: 0 <= i < |TailLayouts(rest, fixedBitLength)| ==>
      |TailLayouts(rest, fixedBitLength)[i].bits| == 64 && ByteStrings(TailLayouts(rest, fixedBitLength)[i].bits)
  {
    var lt := LengthTokens(fixedBitLength);
    ZerosAreByteStrings(55 - |rest|);
    ZerosAreByteStrings(63 - |rest|);
    ZerosAreByteStrings(56);
    assert ByteStrings([Zero8]) && ByteStrings([Marker]);
    ByteStringsAppend(rest, [if rest == [] then Zero8 else Marker]);
    ByteStringsAppend(rest + [if rest == [] then Zero8 else Marker], Repeat(Zero8, 55 - |rest|));
    ByteStringsAppend(rest + [if rest == [] then Zero8 else Marker] + Repeat(Zero8, 55 - |rest|), lt);
    ByteStringsAppend(rest, [Marker]);
    ByteStringsAppend(rest + [Marker], Repeat(Zero8, 63 - |rest|));
    ByteStringsAppend(Repeat(Zero8, 56), lt);
  }

  /** Every block of n whole bytes holds 64 byte strings, and there are
      n / 64 + 1 of them, or n / 64 + 2 when n mod 64 is 56 or more. */
  lemma LayoutsOfBytesShape(ts: seq<string>, fixedBitLength: nat)
    requires ByteStrings(ts)
    ensures var fs := Layouts(Join(ts), 8 * |ts|, fixedBitLength);
      && |fs| == |ts| / 64 + (if |ts| % 64 <= 55 then 1 else 2)
      && forall i :: 0 <= i < |fs| ==> |fs[i].bits| == 64 && ByteStrings(fs[i].bits)
  {
    LayoutsOfBytes(ts, fixedBitLength);
    ClosedFormShape(ts, fixedBitLength, Layouts(Join(ts), 8 * |ts|, fixedBitLength));
  }

  /** The shape of the closed form of `LayoutsOfBytes`. */
  lemma ClosedFormShape(ts: seq<string>, fixedBitLength: nat, fs: seq<Layout>)
    requires ByteStrings(ts)
    requires fs == CompleteLayouts(ts[|ts| % 64..]) + TailLayouts(ts[..|ts| % 64], fixedBitLength)
    ensures |fs| == |ts| / 64 + (if |ts| % 64 <= 55 then 1 else 2)
    ensures forall i :: 0 <= i < |fs| ==> |fs[i].bits| == 64 && ByteStrings(fs[i].bits)
  {
    var n := |ts|;
    var r := n % 64;
    DivModUnique(n - r, 64, n / 64, 0);
    var c := CompleteLayouts(ts[r..]);
    var t := TailLayouts(ts[..r], fixedBitLength);
    CompleteLayoutsBytes(ts[r..]);
    TailLayoutsBytes(ts[..r], fixedBitLength);
    forall i | 0 <= i < |fs|
      ensures |fs[i].bits| == 64 && ByteStrings(fs[i].bits)
    {
      if i < |c| {
        assert fs[i] == c[i];
      } else {
        assert fs[i] == t[i - |c|];
      }
    }
  }

  lemma {:induction false} CompleteLayoutsBytes(ts: seq<string>)
    requires ByteStrings(ts)
    ensures forall i :: 0 <= i < |CompleteLayouts(ts)| ==>
      CompleteLayouts(ts)[i].kind == Complete && |CompleteLayouts(ts)[i].bits| == 64 && ByteStrings(CompleteLayouts(ts)[i].bits)
    decreases |ts|
  {
    if |ts| >= 64 {
      var head: seq<Layout> := [Layout(Complete, ts[|ts| - 64..])];
      var rest := CompleteLayouts(ts[..|ts| - 64]);
      CompleteLayoutsBytes(ts[..|ts| - 64]);
      var all := head + rest;
      forall i | 0 <= i < |all|
        ensures all[i].kind == Complete && |all[i].bits| == 64 && ByteStrings(all[i].bits)
      {
        if i > 0 {
          assert all[i] == rest[i - 1];
        } else {
          var last := ts[|ts| - 64..];
          assert all[0].bits == last;
          assert forall j :: 0 <= j < |last| ==> last[j] == ts[|ts| - 64 + j];
        }
      }
    }
  }
}
