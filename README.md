# MD5HashingProject in Dafny

This project models the password-hashing program MD5HashingProject. The
program frames an ASCII password into 512-bit blocks of 64 byte strings. It
then runs four rounds of sixteen steps over four hex-string words for each
block and returns a 32-digit hex string. On top of that sits a login system:
a map from username to the hash of the password.

The program is laid out like MD5 (RFC 1321) but does not compute MD5. The
model follows the code as written, not the MD5 algorithm:

- Every addition box (`_red_one` … `_red_four`, `_wrap_up_operation`) works
  modulo the decimal constant 100000000, not 2^32.
- F and G use Python's logical `and`/`or`/`not` on non-empty strings, so F
  returns `c` and G returns `d`. I uses logical `or`/`not` on integers.
- The left shift rotates within 4 bits per hex digit of its input string,
  not within 32 bits.
- Message words and the length field are big-endian.
- Full blocks are cut from the END of the input, so the collection lists
  the last 64 bytes first.
- The initialization vectors are the strings `01234567`, `89abcdef`,
  `fedcba98` and `76543210`. After every block the wrap-up adds these
  originals, not the state the block started from.
- The state update is `(a, b, c, d) := (d, new b, b, c)`.
- A PaddedBlock built with bit length 0 writes `00000000` where the `1`
  padding bit would go. This happens for the empty input and for inputs of
  exactly 64·k bytes.

Modules, one per source file:

- `PyBuiltins` (pybuiltins.dfy): the Python built-ins the program relies on,
  as small specified functions. These are `hex(n)[2:]`, `f'{n:X}'`,
  `int(s, 16)`, `int(s, 2)`, `str.split(' ')`, `' '.join`, slicing with
  negative bounds, `int.to_bytes(..., "big")`, `bit_length` and `^`.
- `Utils` (utils.dfy): utils.py.
- `Blocks` (block.dfy): block.py. The three subclasses become three named
  constructors of one `Block` class tagged with a `BlockKind`.
  `packagedBits` is fixed at construction. `hexaLst` is a `var` that
  `UpdateHexaLst` appends to.
- `BlockCollections` (blockcollection.dfy): blockcollection.py. The class
  holds `collection: seq<Block>`. The recursive `PopulateCollection` appends
  fresh blocks. The pure function `Layouts` states the kinds and contents
  it appends.
- `HashOps` (hash_ops.dfy): the pure boxes of hash_main.py. These are F, G,
  H and I, the addition boxes (one function, `ModAdd`, since the five Python
  functions have the same body) and `_left_shift`.
- `HashMain` (hash_main.dfy): the tables and `hash`. The methods
  `LoadBlock`, `Round`, `Gather`, `RunBlocks` and `Hash` keep the Python
  loops and are proved equal to pure specifications. These are `LoadWords`,
  `RunSteps`, `Gathered`, `ProcessBlocks` and `Digest`. The four
  `_round_*` functions differ only in the mixing function, so they are one
  `Round` method with a `Mix` selector.
- `LoginSystems` (login_system.dfy): login_system.py, a class over
  `hashMap: map<string, string>`.

## Model

| member | source | states |
|---|---|---|
| Utils.GetBit | utils.py:1-21 | the bit is 0 or 1, and 0 for every position at or above the byte's bit length |
| Utils.GetBitExamples | utils.py:8-19 | the six doctest values of `get_bit(0b10110101, k)` |
| Utils.ByteToBits | utils.py:24-43 | exactly 8 characters, each '0' or '1' |
| Utils.ByteToBitsPrefix | utils.py:42-43 | the first m characters, read in base 2, are the top m bits of the byte (most significant first) |
| Utils.ByteToBitsRoundTrip | utils.py:42-43 | `int(byte_to_bits(b), 2) == b` for every byte |
| Utils.ByteToBitsExamples | utils.py:29-30 | `byte_to_bits(14) == '00001110'` |
| Utils.GetBytes | utils.py:46-57 | one byte per ASCII character, holding that character's code |
| Utils.ByteTokens | utils.py:72 | one 8-character bit string per byte |
| Utils.ByteTokensValue | utils.py:72 | the byte strings read back in base 2, most significant first, give the big-endian value of the bytes |
| Utils.GetBitsAsString | utils.py:60-73 | empty exactly for the empty input; otherwise splitting the result at its spaces gives back the byte strings of the ASCII codes, in order |
| Utils.GetNumberOfBitsFromBitString | utils.py:76-87 | at most the length, and exactly the length when there is no space |
| Utils.BitStringLength | utils.py:60-87 | the bit string of n characters has 9n - 1 characters (0 for n = 0) and counts 8n bits |
| Utils.GetBitsAsStringExamples | utils.py:63-69 | the doctests `'0'` and `'2'` |
| Utils.IntToBytes | utils.py:90-99 | `bit_length() // 8 + 1` bytes whose big-endian value is the number |
| Utils.IntToBytesLeadingZero | utils.py:90-99 | a bit length that is a multiple of 8 gives a leading zero byte |
| Utils.IntToBytesExamples | utils.py:95-96 | `int_to_bytes(400) == [1, 144]` |
| PyBuiltins.ToHex | hash_main.py:457 | `hex(n)[2:]` / `f'{n:X}'`: at least one hex digit, no leading zero, the right case, and `int(r, 16) == n` |
| PyBuiltins.HexLengthBound | hash_main.py:82 | a value below 16^k has at most k hex digits |
| PyBuiltins.ParseHexLeadingZeros | hash_main.py:271-274 | zeros added on the left do not change `int(s, 16)` |
| PyBuiltins.SplitJoin | block.py:64 | `' '.join(ts).split(' ')` gives back `ts` when no entry holds a space |
| PyBuiltins.JoinSize | blockcollection.py:41 | n byte strings joined by spaces take 9n - 1 characters |
| PyBuiltins.FromBinaryAppend | hash_main.py:82 | appending binary digits multiplies by a power of 2 and adds their value |
| PyBuiltins.ToBytesBigValue | utils.py:99 | `to_bytes(w, "big")` has w bytes whose big-endian value is the number |
| PyBuiltins.XorBits | hash_main.py:390 | each bit of `x ^ y` is the sum of the operands' bits mod 2 |
| PyBuiltins.Repeat | hash_main.py:271-274 | `'0' * n` (and the `range` comprehension of block.py:91 and the zero padding of hash_main.py:86): n copies of x, none when n is not positive |
| PyBuiltins.PyTakeLast | block.py:65 | `s[-k:]` has k elements, or all of s when it is shorter |
| PyBuiltins.PyDropLast | blockcollection.py:41 | `s[:-k]` has `len(s) - k` elements, or none when s is shorter |
| PyBuiltins.Count | utils.py:87 | `s.count(c)` is at most `len(s)` |
| PyBuiltins.Split | block.py:64 | `s.split(' ')` has at least one piece, and is `['']` for the empty string |
| PyBuiltins.Join | utils.py:73 | `' '.join(ts)` of pieces without spaces holds exactly `len(ts) - 1` spaces |
| PyBuiltins.Lower | hash_main.py:514 | `s.lower()` keeps the length and lower-cases each ASCII letter |
| PyBuiltins.FromBinary | hash_main.py:82 | `int(s, 2)`, most significant digit first; its contract is stated by `FromBinaryBound` and `FromBinaryAppend` |
| PyBuiltins.FromBinaryBound | hash_main.py:82 | n binary digits hold a value below 2^n |
| PyBuiltins.ParseHex | hash_main.py:386-388 | `int(s, 16)`, most significant digit first; its contract is stated by `ParseHexAppend`, `ParseHexLeadingZeros` and `ToHex` |
| PyBuiltins.Hex | hash_main.py:390 | `hex(n)[2:]`: lower-case digits, no leading zero, reading back as n |
| PyBuiltins.HexUpper | hash_main.py:82 | `f'{n:X}'`: upper-case digits, no leading zero, reading back as n |
| PyBuiltins.Xor | hash_main.py:390 | `x ^ y` is 0 exactly when x and y are equal, and `x ^ 0 == x` |
| PyBuiltins.BitLength | utils.py:99 | `n.bit_length()` is the number of binary digits: 2^(len-1) <= n < 2^len, and 0 for 0 |
| PyBuiltins.ToBytesBig | utils.py:99 | `n.to_bytes(w, 'big')` is w values, each below 256 |
| Blocks.LengthTokens | block.py:135-143 | the length field is 8 byte strings |
| Blocks.LengthTokensValue | block.py:135-143 | the length field, read back most significant first, is the bit length mod 2^64 |
| Blocks.LengthTokensSmall | block.py:135-143 | below 2^64 the field is the 8-byte big-endian encoding of the length itself |
| Blocks.LengthFieldKeepsLowBytes | block.py:138-140 | when `int_to_bytes` gives at least 8 bytes, its last 8 are the field |
| Blocks.LengthFieldZeroExtends | block.py:141-143 | when it gives fewer, zero bytes on the left make up the field |
| Blocks.AppendLastEight | block.py:139-140 | the `range(-8, 0)` loop appends the last 8 entries in order |
| Blocks.AppendLengthField | block.py:135-143 | both branches append exactly the 8-entry length field |
| Blocks.Block.CompleteBlock | block.py:60-67 | the last 64 entries of the split bit string, and an empty `hexaLst` |
| Blocks.Block.MidBlock | block.py:83-93 | the split bit string, the marker, then `(512 - 1 - bitLength - 7) // 8` zero bytes, and an empty `hexaLst` |
| Blocks.Block.PaddedBlock | block.py:109-143 | the split bit string (none when it is empty), `'00000000'` for bit length 0 or else the marker, zero bytes up to 448 bits, then the length field; an empty `hexaLst` |
| Blocks.Block.UpdateHexaLst | block.py:24-28 | appends exactly the given word at the end and changes nothing else |
| Blocks.Block.ToString | block.py:31-43 | the loop yields `Render`: every entry followed by a space, with a newline before entries 8, 16, 24, ... |
| Blocks.CounterStep | block.py:35-42 | the counter reaches 8 exactly in front of the entries at positions 8, 16, 24, ... |
| Blocks.RenderLength | block.py:31-43 | n byte strings render to 9n characters plus (n - 1) // 8 newlines |
| Blocks.CompleteLayout | block.py:64-65 | the CompleteBlock holds the last 64 entries of the split bit string (all of them when there are fewer), in order |
| Blocks.MidLayout | block.py:87-91 | the MidBlock is the split bit string, then the marker, then only zero bytes; over n byte strings with 448 <= 8n < 512 it has exactly 64 entries |
| Blocks.PaddedLayout | block.py:120-143 | the PaddedBlock starts with the split bit string (nothing when it is empty), then `'00000000'` for bit length 0 or else the marker; over n <= 55 byte strings it has exactly 64 entries |
| Blocks.PaddedLayoutEndsWithLength | block.py:133-143 | every PaddedBlock ends with the length field |
| Blocks.CompleteLayoutOfBytes | block.py:64-65 | over n >= 64 byte strings, a CompleteBlock holds exactly the last 64 |
| Blocks.MidLayoutOfBytes | block.py:87-91 | over 56 to 63 byte strings, a MidBlock is those bytes, the marker and 63 - n zero bytes: 64 entries |
| Blocks.PaddedLayoutOfBytes | block.py:124-143 | over n <= 55 byte strings, a PaddedBlock is those bytes, one marker byte, 55 - n zero bytes and the length field: 64 entries |
| BlockCollections.Layouts | blockcollection.py:22-41 | `_populate_collection` always produces at least one block |
| BlockCollections.ClosingLayouts | blockcollection.py:28-37 | below 448 bits one PaddedBlock, from 448 to 511 bits a MidBlock and then a PaddedBlock; the last block is the PaddedBlock, and the first one starts with the split bit string |
| BlockCollections.LayoutsKinds | blockcollection.py:27-41 | only the last block is a PaddedBlock, and it ends with the field for the original bit length |
| BlockCollections.BlockCollection.constructor | blockcollection.py:14-20 | the collection's layouts are `Layouts(bitString, bitLength, bitLength)`; its blocks are fresh, distinct and have empty `hexaLst` |
| BlockCollections.BlockCollection.PopulateCollection | blockcollection.py:22-41 | keeps the earlier blocks and appends fresh, distinct blocks laid out as `Layouts` |
| BlockCollections.BlockCollection.AppendPaddedBlock | blockcollection.py:28-29 | below 448 bits: one PaddedBlock over the bit string |
| BlockCollections.BlockCollection.AppendClosingBlocks | blockcollection.py:31-37 | 448 to 511 bits: a MidBlock over the bit string, then a PaddedBlock over nothing |
| BlockCollections.BlockCollection.AppendCompleteBlocks | blockcollection.py:38-41 | 512 bits or more: a CompleteBlock, then the blocks of `bit_string[:-576]` with 512 fewer bits |
| BlockCollections.DropLastBlock | blockcollection.py:41 | `bit_string[:-576]` is exactly the bit string of all but the last 64 bytes |
| BlockCollections.LayoutsOfShortBytes | blockcollection.py:28-37 | fewer than 64 bytes give only the closing blocks |
| BlockCollections.LayoutsPeelBlock | blockcollection.py:38-41 | 64 bytes or more: a CompleteBlock over the last 64 bytes, then the blocks of the rest |
| BlockCollections.LayoutsPeelBytes | blockcollection.py:22-41 | on whole bytes the recursion peels 64 byte strings at a time off the end |
| BlockCollections.ByteLayoutsClosed | blockcollection.py:38-41 | peeling leaves the first n mod 64 bytes for the closing blocks |
| BlockCollections.LayoutsOfBytes | blockcollection.py:22-41 | n bytes give n / 64 CompleteBlocks taken from the end, then the closing blocks over the first n mod 64 bytes |
| BlockCollections.LayoutsOfBytesShape | blockcollection.py:28-41 | n bytes give n / 64 + 1 blocks (n / 64 + 2 when n mod 64 >= 56), each of 64 byte strings |
| BlockCollections.WholeBlocksLackMarker | block.py:128-129 | for 64·k bytes (k = 0 included) the last block is 56 zero bytes and the length field, with no `1` padding bit |
| HashOps.ModAdd | hash_main.py:441-457 | the box returns `hex((x + y) % 100000000)[2:]`: the canonical lower-case digits (no leading zero) of the operands' sum mod 10^8, at most 7 of them |
| HashOps.ModAddCommutes | hash_main.py:453-457 | the order of the two operands does not matter |
| HashOps.ModAddChain | hash_main.py:288-294 | two chained boxes give the sum of all three values mod 10^8 |
| HashOps.FFunction | hash_main.py:304-310 | the result is `c` or `d`, never a mix of their bits |
| HashOps.GFunction | hash_main.py:338-344 | the result is `d` or the empty `c` |
| HashOps.FAndGOnWords | hash_main.py:304-344 | on non-empty words F is `c` and G is `d` |
| HashOps.HFunction | hash_main.py:372-391 | lower-case hex |
| HashOps.HFunctionBits | hash_main.py:386-391 | each bit of H is the parity of the three operands' bits |
| HashOps.IOperand | hash_main.py:437 | `b or not d`: b when b is non-zero, else 1 exactly when d is 0 |
| HashOps.IFunction | hash_main.py:419-438 | lower-case hex |
| HashOps.IFunctionBitsNonZero | hash_main.py:433-438 | with b non-zero, I flips the bits of c where b has a 1 |
| HashOps.IFunctionBitsZeroHigh | hash_main.py:433-438 | with b zero, I keeps every bit of c above the lowest |
| HashOps.IFunctionBitsZeroLow | hash_main.py:433-438 | with b zero, I flips the lowest bit of c exactly when d is zero |
| HashOps.TableEntry | hash_main.py:502-506 | every hex digit, lowered, is a key of the table, and its entry is the digit's value in 4 binary digits |
| HashOps.HexToBinary | hash_main.py:502-506 | 4 binary digits per hex digit, with the same value |
| HashOps.LeftShift | hash_main.py:488-514 | the result is lower-case hex |
| HashOps.LeftShiftRotates | hash_main.py:506-514 | the value is the input's value rotated left by the shift within 4·len bits |
| HashOps.LeftShiftWraps | hash_main.py:509-510 | a shift longer than the binary digits leaves the value unchanged |
| HashOps.LeftShiftCanonical | hash_main.py:513-514 | the result is `hex` of its own value: no leading zeros |
| HashOps.LeftShiftRotatesHex | hash_main.py:488-514 | the result is `hex` of the rotated value |
| HashOps.LeftShiftWrapsHex | hash_main.py:488-514 | a shift longer than the binary digits returns `hex` of the input's value |
| HashOps.RotateLeftValue | hash_main.py:509-510 | the rotation moves the low w - k bits up by k and the high k bits down |
| HashOps.RotateLeftBound | hash_main.py:509-510 | a rotation keeps a w-bit value below 2^w |
| HashMain.KValuesShape | hash_main.py:93-156 | 64 k-values of 8 hex digits each |
| HashMain.KSlicesOk | hash_main.py:203-255 | round r reads k-values 16(r - 1) to 16(r - 1) + 15, all hex |
| HashMain.RoundOneShiftPeriodic | hash_main.py:174-177 | steps 0 to 15 have a shift, 7, 12, 17, 22 repeating |
| HashMain.RoundTwoShiftPeriodic | hash_main.py:198-201 | steps 0 to 15 have a shift, 5, 9, 14, 20 repeating |
| HashMain.RoundThreeShiftPeriodic | hash_main.py:224-227 | steps 0 to 15 have a shift, 4, 11, 16, 13 repeating |
| HashMain.RoundFourShiftPeriodic | hash_main.py:250-253 | steps 0 to 15 have a shift, 6, 10, 15, 21 repeating |
| HashMain.ShiftMapsPeriodic | hash_main.py:174-253 | every shift map depends only on the step mod 4 |
| HashMain.MIndicesFormula | hash_main.py:186-238 | the index tables are (5i + 1) mod 16, (3i + 5) mod 16 and 7i mod 16 |
| HashMain.RoundTwoInverse | hash_main.py:186 | word j is read at step (13j + 3) mod 16 of round two |
| HashMain.RoundThreeInverse | hash_main.py:212 | word j is read at step (11j + 9) mod 16 of round three |
| HashMain.RoundFourInverse | hash_main.py:238 | word j is read at step 7j mod 16 of round four |
| HashMain.InverseUndoes | hash_main.py:186-238 | the inverse formulas give back the step from the table entry |
| HashMain.MIndicesArePermutations | hash_main.py:186-242 | each index table reads every word of the block exactly once |
| HashMain.TablesCoverSteps | hash_main.py:174-296 | every step of every round has a shift, and every index is below 16 |
| HashMain.Boxes | hash_main.py:288-299 | after the mixing function: the words move one place along and the new b is a reduced box output |
| HashMain.MixOf | hash_main.py:304-438 | the mixing function gives hex; on hex words `_f_function` returns c and `_g_function` returns d, and `_h_function` and `_i_function` give lower-case hex |
| HashMain.Step | hash_main.py:285-299 | one step: `(a, b, c, d) := (d, new b, b, c)` with the new b reduced |
| HashMain.BoxesValueRotates | hash_main.py:288-297 | the new b is the rotated sum of mix output, a, m and k, plus b, mod 10^8 |
| HashMain.BoxesValueWraps | hash_main.py:288-297 | with a shift wider than the sum, the new b is the sum plus b, mod 10^8 |
| HashMain.RunSteps | hash_main.py:285-301 | after 4 or more steps all four words are reduced box outputs |
| HashMain.Round | hash_main.py:279-301 | the 16-step loop of `_round_one` ... `_round_four` computes `RunSteps(mix, ..., 16)` |
| HashMain.WordOfMeaning | hash_main.py:79-89 | a word is exactly 8 upper-case hex digits holding the big-endian value of its four byte strings |
| HashMain.WordOf | hash_main.py:79-89 | at least 8 upper-case hex digits that read back as `int(full_str, 2)` of the four byte strings |
| HashMain.PadWord | hash_main.py:83-89 | the `'0'`, short and long branches keep the value and the case; up to 8 digits become exactly 8, longer strings are kept |
| HashMain.LoadWords | hash_main.py:74-90 | one word per four byte strings |
| HashMain.LoadWordsExtend | hash_main.py:78-90 | four more byte strings add one word at the end |
| HashMain.LoadWordsAt | hash_main.py:76-90 | word i comes from byte strings 4i to 4i + 3 |
| HashMain.LoadWordsMeaning | hash_main.py:74-90 | word i is 8 upper-case hex digits holding the big-endian value of byte strings 4i to 4i + 3 |
| HashMain.LoadWordsHex | hash_main.py:74-90 | a block of 64 byte strings loads 16 hex words |
| HashMain.AppendWord | hash_main.py:79-89 | appends `WordOf` of the four byte strings to the block's words |
| HashMain.LoadStep | hash_main.py:76-90 | one pass of the inner loop keeps the loaded words equal to `LoadWords` of the byte strings consumed |
| HashMain.AppendNextWord | hash_main.py:78-90 | a full set of four adds the next word of `LoadWords` |
| HashMain.LoadBlock | hash_main.py:75-90 | the inner loop appends exactly `LoadWords(packagedBits)` |
| HashMain.LoadBlocks | hash_main.py:74-90 | the first loop gives every block of the collection the words of its own byte strings |
| HashMain.Gathered | hash_main.py:189-190 | entry i is `m[indices[i]]` |
| HashMain.Gather | hash_main.py:187-190 | the copy loop builds `Gathered(m, indices)` |
| HashMain.RoundInputsOfBlock | hash_main.py:172-258 | the four rounds get 16 hex m-values, 16 hex k-values and a shift for every step |
| HashMain.FourRounds | hash_main.py:172-258 | after the four rounds all four words are reduced box outputs |
| HashMain.RunRounds | hash_main.py:172-258 | the four calls compute `FourRounds` |
| HashMain.BlockStep | hash_main.py:168-269 | after one block the four words are reduced box outputs; the block is the four rounds followed by `WrapUp` |
| HashMain.WrapUp | hash_main.py:265-269 | each word becomes (its value + the ORIGINAL vector's value 0x01234567, 0x89abcdef, 0xfedcba98 or 0x76543210) mod 10^8, as `_wrap_up_operation` (hash_main.py:531-542) promises |
| HashMain.InitialWordsValues | hash_main.py:158-165 | the four initialization vectors are hex words with the values 0x01234567, 0x89abcdef, 0xfedcba98 and 0x76543210 |
| HashMain.RunBlock | hash_main.py:168-269 | one block of the second loop computes `BlockStep` |
| HashMain.ProcessBlocks | hash_main.py:168-269 | after one block or more, all four words are reduced box outputs |
| HashMain.ProcessBlocksExtend | hash_main.py:168-269 | one more block applies `BlockStep` to the words so far |
| HashMain.RunBlocks | hash_main.py:158-269 | the second loop, from the initialization vectors, computes `ProcessBlocks` in collection order |
| HashMain.InputBlocks | hash_main.py:70-72 | every ASCII input has at least one block, each of 64 byte strings |
| HashMain.FinalWords | hash_main.py:70-269 | the words after the block loop are reduced box outputs |
| HashMain.Pad8 | hash_main.py:271-274 | up to 8 hex digits become exactly 8 of the same value; longer strings are kept |
| HashMain.Pad8Reduced | hash_main.py:271-274 | a reduced word padded to 8 digits keeps its value and starts with '0' |
| HashMain.Concatenated | hash_main.py:271-276 | four reduced words give 32 lower-case hex digits, each group of 8 starting with '0' and holding one word's value |
| HashMain.ConcatenatedShape | hash_main.py:271-276 | the result is 32 lower-case hex digits, each group of 8 holding one word's value |
| HashMain.Digest | hash_main.py:271-276 | every result is 32 lower-case hex digits in four groups of 8, each below 10^8 |
| HashMain.Hash | hash_main.py:8-276 | `hash` returns `Digest(input)` |
| LoginSystems.LoginSystem.constructor | login_system.py:17-18 | an empty map, in which every stored value is a digest |
| LoginSystems.LoginSystem.CheckExistingUsername | login_system.py:20-26 | true exactly when the username is stored |
| LoginSystems.LoginSystem.ValidatePassword | login_system.py:28-39 | true exactly when the stored hash equals the hash of the attempt |
| LoginSystems.LoginSystem.CreateNewAccount | login_system.py:41-46 | stores the hash under the username, overwrites any old entry, leaves the others, and keeps every stored value a digest |
| LoginSystems.StoreKeepsForm | login_system.py:41-46 | storing a digest keeps every stored value a digest |
| LoginSystems.LoginSystem.GetUsernameAndHashPair | login_system.py:48-52 | the username and its stored hash, 32 characters long |
| LoginSystems.LoginSystem.IsEmpty | login_system.py:54-58 | true exactly when the map has no entry |
| LoginSystems.SignUpThenLogIn | test_hashing.py:12-21 | after creating an account: it exists, the system is not empty, the pair holds the hash, the password is accepted, and another attempt is accepted exactly when its hash is equal |
| LoginSystems.AddAccountKeepsOthers | test_hashing.py:146-157 | creating another account does not change whether an existing account accepts a password |

## Left out

- `LoginSystem.print_database` and the `__main__` loop (login_system.py:60-125) are console I/O.
- `Block.__init__` only raises `NotImplementedError` to mark the class abstract. The model has no abstract class, so there is nothing to raise.
- The attributes `number_of_zeros_to_512`, `number_of_zeros_to_448` and `bit_length` of the blocks are not stored. They are computed and used inside the constructors.
- The k-values are a literal table. Their derivation from `sin` is floating point and is not part of the program.
- HashMain.Digest: only the form of the result is proved (32 lower-case hex digits, each group of 8 below 10^8); concrete digests are not stated. The result is not MD5, so RFC 1321 test vectors do not apply.
- The inequality assertions of test_hashing.py (`hash("ab") != hash("abc")`, case sensitivity, wrong passwords) depend on the absence of collisions, which is not provable in general. SignUpThenLogIn states that an attempt is accepted exactly when its hash equals the stored one.
- The doctest values `_left_shift('2bd309f0', 7) == 'e984f815'`, `_h_function(...) == '7699bd52'` and `_i_function(...) == 'f66d513e'` are not evaluated. LeftShiftRotates, HFunctionBits and the IFunctionBits lemmas state the general behaviour. The same holds for the `byte_to_bits` doctests over `int_to_bytes`.
- The `hash` doctests at hash_main.py:14-67 and the `_red_one` doctest have no expected output, so they assert nothing.
- Utils.GetBytes: non-ASCII input is a precondition. Python raises `UnicodeEncodeError` there, and `hash` and the login system pass the same precondition on.
- HashOps.FFunction: the case `b` non-empty and `c` empty is excluded. Python returns the boolean `False` there, and the next box fails on it. The rounds never pass an empty word.
- HashOps.GFunction: the cases that yield a boolean in Python are excluded, for the same reason as F.
- HashOps.ModAdd: the operands must be non-empty hex strings. `int(s, 16)` also accepts a `0x` prefix, underscores and surrounding whitespace, which the program never produces. It raises on anything else.
- LoginSystems.LoginSystem.ValidatePassword: the username must be stored. The source states this as its precondition, and a missing key raises `KeyError`.
- LoginSystems.LoginSystem.GetUsernameAndHashPair: the username must be stored. A missing key raises `KeyError` in the source.
- Python `int` is unbounded and so is Dafny's `nat`. No width or wrap-around is modelled, because the program has none: every reduction is written out (`% 100000000`, the 8-byte length field).
- HashMain.RunBlocks reads each block's `hexaLst` and takes the byte strings as a ghost parameter. The first loop fills the blocks in place through `LoadBlocks`, whose frame is the set of blocks. The constructor of `BlockCollection` proves the blocks are fresh and distinct, so filling one block leaves the others unchanged.
- Equality with MD5 as section 3 of RFC 1321 defines it is not claimed. The deviations listed at the top are modelled as written.
