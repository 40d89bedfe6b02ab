/** Specified models of the Python built-ins that the hashing code leans on:
    `hex(n)[2:]`, `f'{n:X}'`, `str.lower()`, `int(s, 16)`, `int(s, 2)`,
    `int.bit_length()`, `int.to_bytes(w, "big")`, `str.split(' ')`,
    `' '.join(...)`, `str * n`, slices with negative bounds and `^` on
    non-negative integers. Each is stated on `nat` and `seq<char>`, with the
    round trips and bounds the rest of the model needs. */
module PyBuiltins {

  // ---------------------------------------------------------------------
  // Powers and division
  // ---------------------------------------------------------------------

  function Pow2(k: nat): (r: nat)
    ensures r >= 1
  {
    if k == 0 then 1 else 2 * Pow2(k - 1)
  }

  function Pow16(k: nat): (r: nat)
    ensures r >= 1
  {
    if k == 0 then 1 else 16 * Pow16(k - 1)
  }

  function Pow256(k: nat): (r: nat)
    ensures r >= 1
  {
    if k == 0 then 1 else 256 * Pow256(k - 1)
  }

  /** Division with remainder has exactly one answer. */
  lemma DivModUnique(n: int, d: int, q: int, r: int)
    requires d > 0 && 0 <= r < d && n == q * d + r
    ensures n / d == q && n % d == r
  {
    var q', r' := n / d, n % d;
    assert (q - q') * d == r' - r by {
      assert q * d - q' * d == (q - q') * d;
    }
    assert (q' - q) * d == r - r' by {
      assert q' * d - q * d == (q' - q) * d;
    }
    if q - q' >= 1 {
      MulAtLeast(q - q', d);
    } else if q' - q >= 1 {
      MulAtLeast(q' - q, d);
    }
  }

  lemma {:induction false} MulAtLeast(t: int, d: int)
    requires t >= 1 && d > 0
    ensures t * d >= d
    decreases t
  {
    if t > 1 {
      MulAtLeast(t - 1, d);
      assert t * d == (t - 1) * d + d;
    }
  }

  /** Dividing by `a` and then by `b` is dividing by `a * b`; the remainder by
      `a * b` is assembled from the two partial remainders. */
  lemma DivModNested(n: nat, a: nat, b: nat)
    requires a > 0 && b > 0
    ensures n / (a * b) == (n / a) / b
    ensures n % (a * b) == ((n / a) % b) * a + n % a
  {
    var q1, r1 := n / a, n % a;
    var q2, r2 := q1 / b, q1 % b;
    NestedAlgebra(n, a, b, q1, r1, q2, r2);
    DivModUnique(n, a * b, q2, r2 * a + r1);
  }

  lemma NestedAlgebra(n: int, a: int, b: int, q1: int, r1: int, q2: int, r2: int)
    requires a > 0 && b > 0 && 0 <= r1 < a && 0 <= r2 < b
    requires n == q1 * a + r1 && q1 == q2 * b + r2
    ensures n == q2 * (a * b) + (r2 * a + r1)
    ensures 0 <= r2 * a + r1 < a * b
  {
    MulDistributes(q2 * b, r2, a);
    MulMonotonic(r2, b - 1, a);
    MulDistributes(b, -1, a);
  }

  lemma MulDistributes(x: int, y: int, a: int)
    ensures (x + y) * a == x * a + y * a
  {
  }

  lemma MulMonotonic(x: int, y: int, a: int)
    requires 0 <= x <= y && a >= 0
    ensures 0 <= x * a <= y * a
  {
  }

  lemma {:induction false} Pow2Add(x: nat, y: nat)
    ensures Pow2(x + y) == Pow2(x) * Pow2(y)
    decreases y
  {
    if y > 0 {
      Pow2Add(x, y - 1);
      assert Pow2(x + y) == 2 * Pow2(x + y - 1);
      assert Pow2(x) * Pow2(y) == Pow2(x) * (2 * Pow2(y - 1)) == 2 * (Pow2(x) * Pow2(y - 1));
    }
  }

  lemma {:induction false} Pow2Monotonic(x: nat, y: nat)
    requires x <= y
    ensures Pow2(x) <= Pow2(y)
    decreases y
  {
    if x < y {
      Pow2Monotonic(x, y - 1);
    }
  }

  lemma {:induction false} Pow2TimesFour(k: nat)
    ensures Pow2(4 * k) == Pow16(k)
  {
    if k > 0 {
      Pow2TimesFour(k - 1);
      Pow2Add(4 * (k - 1), 4);
      assert Pow2(4) == 16;
    }
  }

  lemma {:induction false} Pow2TimesEight(k: nat)
    ensures Pow2(8 * k) == Pow256(k)
  {
    if k > 0 {
      Pow2TimesEight(k - 1);
      Pow2Add(8 * (k - 1), 8);
      assert Pow2(8) == 256;
    }
  }

  // ---------------------------------------------------------------------
  // Characters and strings
  // ---------------------------------------------------------------------

  /** `'c' * n`: n copies of `x`, nothing when n is not positive. */
  function Repeat<T>(x: T, n: int): (r: seq<T>)
    ensures |r| == if n > 0 then n else 0
    ensures forall i :: 0 <= i < |r| ==> r[i] == x
    decreases if n > 0 then n else 0
  {
    if n <= 0 then [] else [x] + Repeat(x, n - 1)
  }

  /** `s[:k]` for k >= 0. */
  function PyPrefix<T>(s: seq<T>, k: nat): (r: seq<T>)
    ensures |r| == if k <= |s| then k else |s|
  {
    if k <= |s| then s[..k] else s
  }

  /** `s[k:]` for k >= 0. */
  function PySuffix<T>(s: seq<T>, k: nat): (r: seq<T>)
    ensures |r| == if k <= |s| then |s| - k else 0
  {
    if k <= |s| then s[k..] else []
  }

  /** `s[:-k]` for k > 0: everything but the last k elements. */
  function PyDropLast<T>(s: seq<T>, k: nat): (r: seq<T>)
    requires k > 0
    ensures |r| == if k <= |s| then |s| - k else 0
  {
    if k <= |s| then s[..|s| - k] else []
  }

  /** `s[-k:]` for k > 0: the last k elements, or all of s when it is shorter. */
  function PyTakeLast<T>(s: seq<T>, k: nat): (r: seq<T>)
    requires k > 0
    ensures |r| == if k <= |s| then k else |s|
  {
    if k <= |s| then s[|s| - k..] else s
  }

  function Count(s: string, c: char): (n: nat)
    ensures n <= |s|
  {
    if s == [] then 0 else Count(s[..|s| - 1], c) + (if s[|s| - 1] == c then 1 else 0)
  }

  lemma {:induction false} CountAppend(x: string, y: string, c: char)
    ensures Count(x + y, c) == Count(x, c) + Count(y, c)
    decreases |y|
  {
    if y != [] {
      assert (x + y)[..|x + y| - 1] == x + y[..|y| - 1];
      CountAppend(x, y[..|y| - 1], c);
    } else {
      assert x + y == x;
    }
  }

  lemma {:induction false} CountAbsent(s: string, c: char)
    requires c !in s
    ensures Count(s, c) == 0
    decreases |s|
  {
    if s != [] {
      CountAbsent(s[..|s| - 1], c);
    }
  }

  /** Index of the first occurrence of c in s. */
  function IndexOf(s: string, c: char): (i: nat)
    requires c in s
    ensures i < |s| && s[i] == c && c !in s[..i]
  {
    if s[0] == c then 0 else 1 + IndexOf(s[1..], c)
  }

  /** `s.split(' ')`: the pieces between single spaces; always at least one
      piece, `[""]` for the empty string. */
  function Split(s: string): (r: seq<string>)
    ensures |r| >= 1
    ensures s == "" ==> r == [""]
    decreases |s|
  {
    if ' ' in s then
      var i := IndexOf(s, ' ');
      [s[..i]] + Split(s[i + 1..])
    else
      [s]
  }

  /** `' '.join(ts)`: pieces that hold no space are separated by exactly one
      space each. */
  function Join(ts: seq<string>): (r: string)
    ensures NoSpaces(ts) ==> Count(r, ' ') == if |ts| == 0 then 0 else |ts| - 1
    decreases |ts|
  {
    if |ts| == 0 then ""
    else if |ts| == 1 then SpacesAround(ts[0], ""); ts[0]
    else SpacesAround(ts[0], Join(ts[1..])); ts[0] + " " + Join(ts[1..])
  }

  /** A space-free piece adds no space of its own; the separator adds one. */
  lemma SpacesAround(t: string, rest: string)
    ensures ' ' !in t ==> Count(t, ' ') == 0
    ensures ' ' !in t ==> Count(t + " " + rest, ' ') == Count(rest, ' ') + 1
  {
    if ' ' !in t {
      CountAbsent(t, ' ');
      CountAppend(t, " ", ' ');
      CountAppend(t + " ", rest, ' ');
      assert Count(" ", ' ') == 1 by {
        assert " "[..0] == "";
      }
    }
  }

  predicate NoSpaces(ts: seq<string>)
  {
    forall i :: 0 <= i < |ts| ==> ' ' !in ts[i]
  }

  /** The first space after a space-free piece is the one right after it. */
  lemma FirstSpaceAfter(t: string, rest: string)
    requires ' ' !in t
    ensures ' ' in t + " " + rest
    ensures IndexOf(t + " " + rest, ' ') == |t|
  {
    var s := t + " " + rest;
    assert s[|t|] == ' ';
    var i := IndexOf(s, ' ');
    assert forall j :: 0 <= j < |t| ==> s[j] == t[j];
  }

  /** Splitting a space-joined list of space-free pieces gives the pieces back. */
  lemma {:induction false} SplitJoin(ts: seq<string>)
    requires |ts| >= 1 && NoSpaces(ts)
    ensures Split(Join(ts)) == ts
    decreases |ts|
  {
    if |ts| > 1 {
      var rest := Join(ts[1..]);
      var s := ts[0] + " " + rest;
      assert Join(ts) == s;
      FirstSpaceAfter(ts[0], rest);
      assert s[..|ts[0]|] == ts[0];
      assert s[|ts[0]| + 1..] == rest;
      assert Split(s) == [ts[0]] + Split(rest);
      SplitJoin(ts[1..]);
      assert [ts[0]] + ts[1..] == ts;
    }
  }

  /** Joining two non-empty lists puts one space between their joins. */
  lemma {:induction false} JoinAppend(a: seq<string>, b: seq<string>)
    requires |a| >= 1 && |b| >= 1
    ensures Join(a + b) == Join(a) + " " + Join(b)
    decreases |a|
  {
    if |a| == 1 {
      assert (a + b)[1..] == b;
    } else {
      assert (a + b)[1..] == a[1..] + b;
      JoinAppend(a[1..], b);
    }
  }

  /** The join of n pieces of 8 characters has 9n - 1 characters. */
  lemma {:induction false} JoinSize(ts: seq<string>)
    requires |ts| >= 1
    requires forall i :: 0 <= i < |ts| ==> |ts[i]| == 8
    ensures |Join(ts)| == 9 * |ts| - 1
    decreases |ts|
  {
    if |ts| > 1 {
      JoinSize(ts[1..]);
    }
  }

  function LowerChar(c: char): char
  {
    if 'A' <= c <= 'Z' then (c as int - 'A' as int + 'a' as int) as char else c
  }

  /** `s.lower()` restricted to ASCII letters. */
  function Lower(s: string): (r: string)
    ensures |r| == |s|
    ensures forall i :: 0 <= i < |s| ==> r[i] == LowerChar(s[i])
  {
    seq(|s|, i requires 0 <= i < |s| => LowerChar(s[i]))
  }

  // ---------------------------------------------------------------------
  // Base 2: `int(s, 2)`
  // ---------------------------------------------------------------------

  predicate IsBinary(s: string)
  {
    forall i :: 0 <= i < |s| ==> s[i] == '0' || s[i] == '1'
  }

  function BitChar(bit: nat): char
    requires bit <= 1
  {
    if bit == 0 then '0' else '1'
  }

  /** `int(s, 2)`, most significant digit first (0 for the empty string). */
  function FromBinary(s: string): nat
    requires IsBinary(s)
  {
    if s == [] then 0
    else FromBinary(s[..|s| - 1]) * 2 + (if s[|s| - 1] == '1' then 1 else 0)
  }

  /** n binary digits hold a value below 2^n. */
  lemma {:induction false} FromBinaryBound(s: string)
    requires IsBinary(s)
    ensures FromBinary(s) < Pow2(|s|)
    decreases |s|
  {
    if s != [] {
      FromBinaryBound(s[..|s| - 1]);
    }
  }

  /** The algebra of appending one digit in base `base`. */
  lemma AppendDigitAlgebra(hi: int, lo: int, p: int, base: int, d: int)
    ensures (hi * p + lo) * base + d == hi * (p * base) + (lo * base + d)
  {
  }

  /** Reading a concatenation: the left part is shifted by the right part's width. */
  lemma {:induction false} FromBinaryAppend(x: string, y: string)
    requires IsBinary(x) && IsBinary(y)
    ensures IsBinary(x + y)
    ensures FromBinary(x + y) == FromBinary(x) * Pow2(|y|) + FromBinary(y)
    decreases |y|
  {
    if y != [] {
      var y' := y[..|y| - 1];
      assert (x + y)[..|x + y| - 1] == x + y';
      FromBinaryAppend(x, y');
      var b := if y[|y| - 1] == '1' then 1 else 0;
      var hi, lo, p := FromBinary(x), FromBinary(y'), Pow2(|y'|);
      assert FromBinary(x + y) == FromBinary(x + y') * 2 + b;
      assert FromBinary(y) == lo * 2 + b;
      assert Pow2(|y|) == p * 2;
      AppendDigitAlgebra(hi, lo, p, 2, b);
    } else {
      assert x + y == x;
    }
  }

  lemma {:induction false} FromBinaryZeros(n: nat)
    ensures IsBinary(Repeat('0', n)) && FromBinary(Repeat('0', n)) == 0
  {
    if n > 0 {
      FromBinaryZeros(n - 1);
      assert Repeat('0', n) == Repeat('0', n - 1) + ['0'];
      assert Repeat('0', n)[..n - 1] == Repeat('0', n - 1);
    }
  }

  // ---------------------------------------------------------------------
  // Base 16: `int(s, 16)`, `hex(n)[2:]`, `f'{n:X}'`
  // ---------------------------------------------------------------------

  predicate IsHexChar(c: char)
  {
    '0' <= c <= '9' || 'a' <= c <= 'f' || 'A' <= c <= 'F'
  }

  predicate IsLowerHexChar(c: char)
  {
    '0' <= c <= '9' || 'a' <= c <= 'f'
  }

  predicate IsUpperHexChar(c: char)
  {
    '0' <= c <= '9' || 'A' <= c <= 'F'
  }

  predicate AllHex(s: string)
  {
    forall i :: 0 <= i < |s| ==> IsHexChar(s[i])
  }

  /** The strings `int(s, 16)` accepts here: non-empty, hex digits of either case. */
  predicate IsHex(s: string)
  {
    |s| > 0 && AllHex(s)
  }

  predicate IsLowerHex(s: string)
  {
    |s| > 0 && forall i :: 0 <= i < |s| ==> IsLowerHexChar(s[i])
  }

  predicate IsUpperHex(s: string)
  {
    |s| > 0 && forall i :: 0 <= i < |s| ==> IsUpperHexChar(s[i])
  }

  function DigitValue(c: char): (v: nat)
    requires IsHexChar(c)
    ensures v < 16
  {
    if '0' <= c <= '9' then c as int - '0' as int
    else if 'a' <= c <= 'f' then c as int - 'a' as int + 10
    else c as int - 'A' as int + 10
  }

  function HexDigit(v: nat, upper: bool): (c: char)
    requires v < 16
    ensures IsHexChar(c) && DigitValue(c) == v
    ensures upper ==> IsUpperHexChar(c)
    ensures !upper ==> IsLowerHexChar(c)
    ensures c == '0' <==> v == 0
  {
    if v < 10 then ('0' as int + v) as char
    else if upper then ('A' as int + v - 10) as char
    else ('a' as int + v - 10) as char
  }

  /** `int(s, 16)` on a string of hex digits (0 for the empty string). */
  function ParseHex(s: string): nat
    requires AllHex(s)
  {
    if s == [] then 0
    else ParseHex(s[..|s| - 1]) * 16 + DigitValue(s[|s| - 1])
  }

  /** Hex digits of n without leading zeros, "0" for 0; lower case is
      `hex(n)[2:]`, upper case is `f'{n:X}'`. */
  function ToHex(n: nat, upper: bool): (r: string)
    ensures |r| >= 1
    ensures AllHex(r)
    ensures upper ==> IsUpperHex(r)
    ensures !upper ==> IsLowerHex(r)
    ensures |r| > 1 ==> r[0] != '0'
    ensures ParseHex(r) == n
  {
    if n < 16 then [HexDigit(n, upper)]
    else
      var prefix := ToHex(n / 16, upper);
      var r := prefix + [HexDigit(n % 16, upper)];
      assert r[..|r| - 1] == prefix;
      r
  }

  /** `hex(n)[2:]`: canonical lower-case digits that read back as n. */
  function Hex(n: nat): (r: string)
    ensures IsLowerHex(r) && AllHex(r) && ParseHex(r) == n
    ensures |r| > 1 ==> r[0] != '0'
  {
    ToHex(n, false)
  }

  /** `f'{n:X}'`: canonical upper-case digits that read back as n. */
  function HexUpper(n: nat): (r: string)
    ensures IsUpperHex(r) && AllHex(r) && ParseHex(r) == n
    ensures |r| > 1 ==> r[0] != '0'
  {
    ToHex(n, true)
  }

  /** A number below 16^k needs at most k hex digits. */
  lemma {:induction false} HexLengthBound(n: nat, upper: bool, k: nat)
    requires k >= 1 && n < Pow16(k)
    ensures |ToHex(n, upper)| <= k
    decreases k
  {
    if n >= 16 {
      assert n / 16 < Pow16(k - 1);
      HexLengthBound(n / 16, upper, k - 1);
    }
  }

  /** Lower-casing the `X` format gives the `hex()` digits. */
  lemma {:induction false} LowerOfHexUpper(n: nat)
    ensures Lower(HexUpper(n)) == Hex(n)
  {
    if n >= 16 {
      LowerOfHexUpper(n / 16);
      var c := HexDigit(n % 16, true);
      assert HexUpper(n) == HexUpper(n / 16) + [c];
      assert Hex(n) == Hex(n / 16) + [HexDigit(n % 16, false)];
      LowerAppend(HexUpper(n / 16), c);
      LowerOfHexDigit(n % 16);
    } else {
      LowerOfHexDigit(n);
    }
  }

  lemma LowerOfHexDigit(v: nat)
    requires v < 16
    ensures LowerChar(HexDigit(v, true)) == HexDigit(v, false)
  {
  }

  lemma LowerAppend(u: string, c: char)
    ensures Lower(u + [c]) == Lower(u) + [LowerChar(c)]
  {
  }

  /** Reading a concatenation of hex strings. */
  lemma {:induction false} ParseHexAppend(x: string, y: string)
    requires AllHex(x) && AllHex(y)
    ensures AllHex(x + y)
    ensures ParseHex(x + y) == ParseHex(x) * Pow16(|y|) + ParseHex(y)
    decreases |y|
  {
    if y != [] {
      var y' := y[..|y| - 1];
      assert (x + y)[..|x + y| - 1] == x + y';
      ParseHexAppend(x, y');
      var d := DigitValue(y[|y| - 1]);
      var hi, lo, p := ParseHex(x), ParseHex(y'), Pow16(|y'|);
      assert ParseHex(x + y) == ParseHex(x + y') * 16 + d;
      assert ParseHex(y) == lo * 16 + d;
      assert Pow16(|y|) == p * 16;
      AppendDigitAlgebra(hi, lo, p, 16, d);
    } else {
      assert x + y == x;
    }
  }

  lemma {:induction false} ParseHexZeros(n: nat)
    ensures AllHex(Repeat('0', n))
    ensures ParseHex(Repeat('0', n)) == 0
  {
    if n > 0 {
      ParseHexZeros(n - 1);
      assert Repeat('0', n) == Repeat('0', n - 1) + ['0'];
      assert Repeat('0', n)[..n - 1] == Repeat('0', n - 1);
    }
  }

  /** Leading zeros do not change what `int(s, 16)` reads. */
  lemma ParseHexLeadingZeros(n: nat, s: string)
    requires AllHex(s)
    ensures AllHex(Repeat('0', n) + s)
    ensures ParseHex(Repeat('0', n) + s) == ParseHex(s)
  {
    ParseHexZeros(n);
    ParseHexAppend(Repeat('0', n), s);
  }

  // ---------------------------------------------------------------------
  // Bytes: `int.bit_length()`, `int.to_bytes(w, "big")`
  // ---------------------------------------------------------------------

  /** `n.bit_length()`: the number of binary digits of n, so
      2^(len-1) <= n < 2^len (and 0 for 0). */
  function BitLength(n: nat): (len: nat)
    ensures n < Pow2(len)
    ensures n > 0 ==> len >= 1 && Pow2(len - 1) <= n
  {
    if n == 0 then 0 else 1 + BitLength(n / 2)
  }

  /** Big-endian base-256 value of a byte list. */
  function FromBase256(bs: seq<nat>): nat
  {
    if bs == [] then 0 else FromBase256(bs[..|bs| - 1]) * 256 + bs[|bs| - 1]
  }

  predicate AreBytes(bs: seq<nat>)
  {
    forall i :: 0 <= i < |bs| ==> bs[i] < 256
  }

  /** `n.to_bytes(w, "big")`; Python raises OverflowError when n does not fit. */
  function ToBytesBig(n: nat, w: nat): (r: seq<nat>)
    requires n < Pow256(w)
    ensures |r| == w && AreBytes(r)
  {
    if w == 0 then []
    else
      var prefix := ToBytesBig(n / 256, w - 1);
      var r := prefix + [n % 256];
      assert r[..|r| - 1] == prefix;
      r
  }

  /** `int.from_bytes(n.to_bytes(w, "big"), "big") == n` */
  lemma {:induction false} ToBytesBigValue(n: nat, w: nat)
    requires n < Pow256(w)
    ensures FromBase256(ToBytesBig(n, w)) == n
    decreases w
  {
    if w > 0 {
      var prefix := ToBytesBig(n / 256, w - 1);
      ToBytesBigValue(n / 256, w - 1);
      assert (prefix + [n % 256])[..w - 1] == prefix;
    }
  }

  /** The last j bytes of a w-byte encoding are the j-byte encoding of n mod 256^j. */
  lemma {:induction false} ToBytesBigSuffix(n: nat, w: nat, j: nat)
    requires n < Pow256(w) && j <= w
    ensures n % Pow256(j) < Pow256(j)
    ensures ToBytesBig(n, w)[w - j..] == ToBytesBig(n % Pow256(j), j)
    decreases j
  {
    if j > 0 {
      ModPow256Step(n, j);
      ToBytesBigSuffix(n / 256, w - 1, j - 1);
      SuffixThenLast(ToBytesBig(n / 256, w - 1), n % 256, w, j, ToBytesBig((n / 256) % Pow256(j - 1), j - 1));
    }
  }

  lemma SuffixThenLast(front: seq<nat>, last: nat, w: nat, j: nat, tail: seq<nat>)
    requires 0 < j <= w && |front| == w - 1 && front[w - j..] == tail
    ensures (front + [last])[w - j..] == tail + [last]
  {
  }

  /** Taking n modulo 256^j and then dropping the last byte is taking n / 256
      modulo 256^(j-1); the last byte is n's last byte. */
  lemma ModPow256Step(n: nat, j: nat)
    requires j > 0
    ensures n % Pow256(j) / 256 == (n / 256) % Pow256(j - 1)
    ensures n % Pow256(j) % 256 == n % 256
  {
    var p := Pow256(j - 1);
    assert Pow256(j) == 256 * p;
    DivModNested(n, 256, p);
    var m := n % Pow256(j);
    DivModUnique(m, 256, (n / 256) % p, n % 256);
  }

  /** A value that fits in w bytes gets a zero byte in front in w+1 bytes. */
  lemma {:induction false} ToBytesBigLeadingZero(n: nat, w: nat)
    requires n < Pow256(w)
    ensures ToBytesBig(n, w + 1) == [0] + ToBytesBig(n, w)
    decreases w
  {
    if w > 0 {
      ToBytesBigLeadingZero(n / 256, w - 1);
    }
  }

  /** Zero-extending on the left to v bytes. */
  lemma {:induction false} ToBytesBigZeroExtend(n: nat, w: nat, v: nat)
    requires w <= v && n < Pow256(w)
    ensures n < Pow256(v)
    ensures Repeat(0, v - w) + ToBytesBig(n, w) == ToBytesBig(n, v)
    decreases v - w
  {
    if w < v {
      ToBytesBigLeadingZero(n, w);
      ToBytesBigZeroExtend(n, w + 1, v);
      ZerosThenZero(v - (w + 1), ToBytesBig(n, w), ToBytesBig(n, w + 1), ToBytesBig(n, v));
    }
  }

  lemma ZerosThenZero(k: nat, t: seq<nat>, u: seq<nat>, target: seq<nat>)
    requires u == [0] + t && Repeat(0, k) + u == target
    ensures Repeat(0, k + 1) + t == target
  {
    assert Repeat(0, k + 1) == Repeat(0, k) + [0];
  }

  // ---------------------------------------------------------------------
  // `^` on non-negative integers
  // ---------------------------------------------------------------------

  /** Bit k of n, counting from the least significant bit: `(n >> k) & 1`. */
  function Bit(n: nat, k: nat): (r: nat)
    ensures r <= 1
  {
    if k == 0 then n % 2 else Bit(n / 2, k - 1)
  }

  /** Zero has no bit set. */
  lemma {:induction false} BitOfZero(k: nat)
    ensures Bit(0, k) == 0
  {
    if k > 0 {
      BitOfZero(k - 1);
    }
  }

  /** `x ^ y`: zero exactly when the operands are equal; 0 is its identity. */
  function Xor(x: nat, y: nat): (r: nat)
    ensures r == 0 <==> x == y
    ensures y == 0 ==> r == x
    decreases x + y
  {
    if x == 0 && y == 0 then 0
    else 2 * Xor(x / 2, y / 2) + (if x % 2 == y % 2 then 0 else 1)
  }

  /** `^` is bitwise: each bit of the result is the sum of the operands' bits mod 2. */
  lemma {:induction false} XorBits(x: nat, y: nat, k: nat)
    ensures Bit(Xor(x, y), k) == (Bit(x, k) + Bit(y, k)) % 2
    decreases k
  {
    var z := Xor(x, y);
    if x == 0 && y == 0 {
      BitOfZero(k);
    } else if k > 0 {
      assert z / 2 == Xor(x / 2, y / 2);
      XorBits(x / 2, y / 2, k - 1);
    }
  }
}
