# CUI-Information-Security in Dafny

A Dafny model of the teaching cryptography code in the CUI-Information-Security
repository, with proofs of what that code promises:

- **Triple DES package** (`TRIPLEDES/`): the DES engine of `core.py` (bit
  conversion, padding, XOR, rotation, permutation, S-box substitution, the key
  schedule and the block routine), the single-DES modes of `desCore.py` (ECB,
  CBC, OFB with their argument checks), the Triple-DES modes of `tDesCore.py`,
  and the `DES`/`TDES` objects of `cui_des.py`.
- **Password cracker** (`password-crack/PasswordCracker.py`): the second DES
  engine and its `DES` object, and the `LMHash` function built on it.
- **Classical ciphers** (`TheSauce/`): the one-time pad, the Caesar shift, the
  Vigenère cipher with its cryptanalysis helpers, and the M3 Enigma simulator.

Python exceptions become values of `Results.Result` (`ValueError`,
`TypeError`, `IndexError`, `KeyError`, `ZeroDivisionError`). Bits are
`seq<Bit>`, bytes are `seq<Byte>` and text is `string`. Python's dynamically
typed key and IV arguments become `DesModes.Arg`, which is `Missing` (`None`),
`Bytes` or `Text`.

Modules, one per concept:

| module | models |
|---|---|
| `Results` | exceptions as a result type |
| `Bits` | bit and byte conversion, `_nsplit`, `_permute`, `_xor`, `_lshift`, `reversed` |
| `Padding` | `_add_padding`, `_rem_padding` of `core.py` |
| `DesTables` | the DES tables of `core.py` (shared by both engines) |
| `Feistel` | the sixteen rounds and the block routine, for any round function |
| `DesCore` | `_substitute`, `_f_function`, `_generate_subkeys`, `_triple_generate_subkeys`, `_encrypt_block` |
| `Modes` | ECB, CBC and OFB over any block function, on bits and on bytes |
| `DesModes` | the six methods of `desCore.py` |
| `TripleDes` | the six methods of `tDesCore.py` |
| `CuiDes` | the `DES` and `TDES` classes of `cui_des.py` |
| `PasswordCracker` | the engine, `DES.encrypt`/`DES.decrypt` and `LMHash` of `PasswordCracker.py` |
| `Letters` | ASCII letters, `str.upper`/`str.lower`, letters as places in the alphabet |
| `Otp` | `otp.py` |
| `Caesar` | `caesar.py` (the cipher part) |
| `Vigenere` | `vigenere.py` |
| `EnigmaWiring` | the rotor and reflector tables of `_mechanical` in `enigma.py` |
| `Enigma` | the `m3` class of `enigma.py` and its `__main__` script |

## Model

| member | source | states |
|---|---|---|
| Bits.NatToBits | TRIPLEDES/core.py:50 | `zfill(n)` of a binary numeral: always exactly `n` bits |
| Bits.BitsToNat | TRIPLEDES/core.py:129-133 | the big-endian value of a group of `n` bits is below `2^n`, so a group of eight always fits in a byte |
| Bits.NatToBitsToNat | TRIPLEDES/core.py:50 | reading the bits back gives the value modulo 2^n |
| Bits.BitsToNatToBits | TRIPLEDES/core.py:50 | converting bits to their value and back gives the same bits |
| Bits.NatToBitsDigits | TRIPLEDES/core.py:143-145 | bit `j` is the mask test of binary digit `n-1-j` |
| Bits.BitsToNatZero | TRIPLEDES/core.py:134-135 | a bit string is worth zero exactly when it holds no 1, the condition under which a partial byte is dropped |
| Bits.ByteToBits | TRIPLEDES/core.py:143-148 | one byte gives eight bits |
| Bits.ByteOf | TRIPLEDES/core.py:129-133 | the byte built from eight bits has exactly those bits (`ByteToBits(ByteOf(bs)) == bs`), and its value is their big-endian value |
| Bits.BytesToBits | TRIPLEDES/core.py:139-149 | each byte contributes eight bits |
| Bits.BytesToBitsDigits | TRIPLEDES/core.py:142-148 | bit `k` is binary digit `7 - k%8` of byte `k/8`, most significant first |
| Bits.BytesToBitsAppend | TRIPLEDES/core.py:139-149 | the bit expansion splits over concatenation |
| Bits.BytesToBitsSlice | TRIPLEDES/core.py:139-149 | the bits of byte `i` sit at positions `8i..8i+8` |
| Bits.BitsToBytes | TRIPLEDES/core.py:125-136 | whole bytes round-trip to the bits; fewer than eight bits give no byte exactly when they are all zero |
| Bits.BitsToBytesLength | TRIPLEDES/core.py:125-136 | `8n` bits give `n` bytes, and their bits are the input |
| Bits.ByteRoundTrip | TRIPLEDES/core.py:125-149 | packing the bits of a byte gives the byte back |
| Bits.BytesBitsRoundTrip | TRIPLEDES/core.py:125-149 | `_bit_array_to_bytes` inverts `_bytes_to_bit_array` |
| Bits.BitsToBytesTail | TRIPLEDES/core.py:134-135 | trailing bits short of a byte become one left-aligned byte, or nothing when they are all zero |
| Bits.BitsToBytesAppend | TRIPLEDES/core.py:125-136 | packing splits over concatenation of whole bytes |
| Bits.Nsplit | TRIPLEDES/core.py:152-161 | the pieces concatenate back to the data; every piece is full except possibly a shorter, non-empty last one |
| Bits.Permute | TRIPLEDES/core.py:204-211 | element `i` of the result is `block[table[i]]`, as long as the table |
| Bits.PermuteInverse | TRIPLEDES/core.py:204-211 | a permutation followed by its inverse table restores the block |
| Bits.Xor | TRIPLEDES/core.py:175-202 | XOR on the common prefix, then the longer input's tail, as long as the longer input |
| Bits.XorComm | TRIPLEDES/core.py:175-202 | the operands' order does not matter |
| Bits.XorCancel | TRIPLEDES/core.py:175-202 | XORing the same shorter operand twice gives the data back |
| Bits.XorSlice | TRIPLEDES/core.py:175-202 | XOR of equal-length inputs works slice by slice |
| Bits.XorPrefixCancel | TRIPLEDES/core.py:175-202 | XORing the first `|x|` bits of `x xor y` with the longer `y` gives `x` followed by `y`'s tail: the longer operand's tail comes back |
| Bits.LShift | TRIPLEDES/core.py:164-172 | rotation keeps the length |
| Bits.LShiftIndex | TRIPLEDES/core.py:164-172 | element `i` comes from `i+n` counted round the end; a shift longer than the sequence changes nothing |
| Bits.LShiftCompose | TRIPLEDES/core.py:164-172 | rotating by `a` and then `b` is rotating by `a+b` |
| Bits.Reverse | TRIPLEDES/core.py:66 | element `i` is element `n-1-i` |
| Bits.ReverseReverse | TRIPLEDES/core.py:66-71 | reversing a schedule twice gives it back |
| Padding.AddPadding | TRIPLEDES/core.py:100-111 | whole blocks; 1 to 8 bytes are appended, each equal to the count appended; the message is a prefix |
| Padding.RemPadding | TRIPLEDES/core.py:114-122 | IndexError exactly for empty input; otherwise drops as many bytes as the last byte says, or gives nothing when that count is 0 or too large |
| Padding.PaddingRoundTrip | TRIPLEDES/core.py:100-122 | removing the padding gives back the padded message |
| Padding.PaddingAfterInsert | TRIPLEDES/core.py:114-122 | bytes inserted after the first eight bytes of a padded message of at least eight bytes survive padding removal |
| DesTables.PermutationTablesInverse | TRIPLEDES/core.py:265-283 | the final permutation table is the inverse of the initial one, in both orders |
| Feistel.RoundSwapInverse | TRIPLEDES/core.py:229-241 | one round undoes itself when the halves are swapped before and after |
| Feistel.RoundsSnoc | TRIPLEDES/core.py:228-241 | a further round key runs one more round at the end |
| Feistel.Round | TRIPLEDES/core.py:230-241 | no contract of its own: one round; `Feistel.RoundSwapInverse` proves that with the halves swapped it undoes itself |
| Feistel.Rounds | TRIPLEDES/core.py:228-241 | no contract of its own: the sixteen-round loop; `Feistel.RoundsSnoc` and `Feistel.FeistelReversal` prove that the reversed key list runs it backwards |
| Feistel.FeistelReversal | TRIPLEDES/core.py:228-243 | the swapped output run through the reversed key list gives the swapped input, for any round function |
| Feistel.BlockCipher | TRIPLEDES/core.py:219-247 | a 64-bit block gives a 64-bit block |
| Feistel.BlockCipherReversal | TRIPLEDES/core.py:219-247 | with mutually inverse permutations, the reversed key list decrypts, for any round function |
| DesCore.NibbleBits | TRIPLEDES/core.py:50 | four bits whose value is the S-box output |
| DesCore.SubstituteChunk | TRIPLEDES/core.py:45-52 | the outer bits choose the row, the inner four the column; the output bits are that S-box entry |
| DesCore.Substitute | TRIPLEDES/core.py:31-54 | six input bits give four output bits, and the first chunk goes through the first box |
| DesCore.SubstituteTwo | TRIPLEDES/core.py:35-36 | a 12-bit input uses only the first two S-boxes |
| DesCore.SubstituteExample1 | TRIPLEDES/core.py:38 | the first documented `_substitute` example |
| DesCore.SubstituteExample2 | TRIPLEDES/core.py:39 | the second documented example |
| DesCore.SubstituteExample3 | TRIPLEDES/core.py:40 | the third documented example |
| DesCore.F | TRIPLEDES/core.py:15-29 | no contract of its own: expansion, subkey XOR, S-boxes, P; `DesCore.SubstituteChunk` and `DesCore.Substitute` constrain its S-box step, and `DesCore.BlockRoundTrip` holds whatever it computes |
| DesCore.RotatedHalves | TRIPLEDES/core.py:90-93 | one pair of rotated halves per round |
| DesCore.Pc2Each | TRIPLEDES/core.py:95-96 | subkey `i` is PC-2 of round `i`'s joined halves |
| DesCore.KeyShiftSum | TRIPLEDES/core.py:343 | the shift table adds up to 28, a full turn of a half |
| DesCore.HalvesReturn | TRIPLEDES/core.py:90-93 | after sixteen rounds each half is back where it started |
| DesCore.HalvesRotation | TRIPLEDES/core.py:90-93 | the loop's rotations accumulate to the running shift sums |
| DesCore.KeyScheduleAt | TRIPLEDES/core.py:90-96 | round `i` of the loop produces subkey `i` of the closed-form schedule |
| DesCore.KeyScheduleIsLoop | TRIPLEDES/core.py:74-97 | the loop of `_generate_subkeys` equals the closed-form key schedule |
| DesCore.GenerateSubkeys | TRIPLEDES/core.py:74-97 | no contract of its own: the loop of `_generate_subkeys`; `DesCore.KeyScheduleAt` and `DesCore.KeyScheduleIsLoop` prove it equals the closed-form schedule, and `DesCore.KeyPrefixOnly` that it reads eight key bytes |
| DesCore.KeyPrefixOnly | TRIPLEDES/core.py:84-86 | only the first eight key bytes matter |
| DesCore.TripleSubkeys | TRIPLEDES/core.py:56-72 | one schedule per key, three in all, in either direction |
| DesCore.InitFinalInverse | TRIPLEDES/core.py:225-244 | IP and IP^-1 undo each other on every block |
| DesCore.BlockRoundTrip | TRIPLEDES/desCore.py:50-52 | the block routine with the reversed schedule decrypts a block encrypted with the schedule |
| DesCore.BlockRoundTripReversed | TRIPLEDES/core.py:219-247 | and the other way round |
| DesCore.EncryptBlock | TRIPLEDES/core.py:219-247 | no contract of its own: IP, sixteen rounds, the swap and IP^-1; `DesCore.BlockRoundTrip` and `DesCore.BlockRoundTripReversed` prove the reversed schedule inverts it |
| Modes.Compose3Inverse | TRIPLEDES/tDesCore.py:28-33 | three passes are undone by their inverses in the opposite order |
| Modes.Compose3Collapse | TRIPLEDES/tDesCore.py:12-14 | when the second pass undoes the first, only the third remains |
| Modes.Ecb | TRIPLEDES/desCore.py:25-26 | ECB keeps the length |
| Modes.EcbBlocks | TRIPLEDES/desCore.py:25-26 | ciphertext block `j` depends on plaintext block `j` alone |
| Modes.EcbRoundTrip | TRIPLEDES/desCore.py:25-52 | ECB with an inverse block function undoes ECB |
| Modes.CbcEncrypt | TRIPLEDES/desCore.py:86-93 | CBC encryption keeps the length |
| Modes.CbcDecrypt | TRIPLEDES/desCore.py:125-132 | the output length depends on the IV's length, as XOR keeps the longer tail |
| Modes.CbcEncryptChain | TRIPLEDES/desCore.py:87-93 | C_j = E(P_j xor C_(j-1)), with C_(-1) the IV |
| Modes.CbcDecryptChain | TRIPLEDES/desCore.py:126-132 | P_j = D(C_j) xor C_(j-1) |
| Modes.CbcRoundTrip | TRIPLEDES/desCore.py:86-132 | with an IV of at most one block, CBC decryption undoes CBC encryption |
| Modes.CbcLongIv | TRIPLEDES/tDesCore.py:46-71 | with an IV longer than a block, decryption gives the first block, then the IV's bits past 64, then the other blocks |
| Modes.CbcIvPrefix | TRIPLEDES/tDesCore.py:46-49 | encryption reads only the IV's first 64 bits |
| Modes.KeystreamStep | TRIPLEDES/desCore.py:169 | each keystream block is the block function of the one before |
| Modes.Ofb | TRIPLEDES/tDesCore.py:84-90 | the keystream is cut to each block, so the length is kept |
| Modes.OfbWhole | TRIPLEDES/desCore.py:167-171 | a short final block comes out a whole block long |
| Modes.OfbWholeAgrees | TRIPLEDES/desCore.py:167-171 | on whole blocks the two OFB loops agree |
| Modes.OfbBlocks | TRIPLEDES/desCore.py:167-171 | output block `j` is input block `j` XOR keystream block `j+1` |
| Modes.OfbInvolution | TRIPLEDES/tDesCore.py:84-106 | OFB is its own inverse |
| Modes.PaddedBits | TRIPLEDES/core.py:107-109 | the padded message is whole 64-bit blocks, one block beyond the message's whole blocks |
| Modes.EcbWholeBytes | TRIPLEDES/desCore.py:22-27 | the bytes' bits are ECB of the input's bits, the same length |
| Modes.EcbEncryptBytes | TRIPLEDES/desCore.py:21-27 | the ciphertext is as long as the padded message |
| Modes.EcbDecryptBytes | TRIPLEDES/desCore.py:48-55 | fails with IndexError exactly on empty input |
| Modes.EcbBytesRoundTrip | TRIPLEDES/desCore.py:21-55 | byte-level ECB decryption gives the message back |
| Modes.CbcWholeBytes | TRIPLEDES/desCore.py:83-94 | the bytes' bits are CBC of the input's bits |
| Modes.CbcEncryptBytes | TRIPLEDES/desCore.py:82-94 | as long as the padded message |
| Modes.CbcDecryptBytes | TRIPLEDES/desCore.py:122-134 | fails with IndexError exactly on empty input |
| Modes.CbcBytesRoundTrip | TRIPLEDES/desCore.py:82-134 | byte-level CBC with an IV of at most eight bytes gives the message back |
| Modes.CbcBytesLongIv | TRIPLEDES/tDesCore.py:39-76 | with an IV longer than eight bytes and a message of at least eight, the IV's bytes past the eighth come back inserted after the message's eighth byte |
| Modes.CbcBytesIvPrefix | TRIPLEDES/tDesCore.py:39-56 | byte-level encryption reads only the IV's first eight bytes |
| Modes.OfbWholeBytes | TRIPLEDES/desCore.py:162-172 | the output is rounded up to whole blocks |
| Modes.OfbWholeBytesTwice | TRIPLEDES/desCore.py:162-210 | whole-block OFB twice gives whole blocks back |
| Modes.OfbBytes | TRIPLEDES/tDesCore.py:79-91 | the output is as long as the input |
| Modes.OfbBytesTwice | TRIPLEDES/tDesCore.py:79-107 | byte-level OFB is its own inverse |
| DesModes.CheckKey | TRIPLEDES/desCore.py:14-20 | passes exactly a byte-string key, and returns its bytes |
| DesModes.CheckIv | TRIPLEDES/desCore.py:76-81 | passes exactly an eight-byte byte string, and returns its bytes |
| DesModes.Subkeys | TRIPLEDES/core.py:84-86 | the schedule exists exactly for keys of at least eight bytes |
| DesModes.CipherInverse | TRIPLEDES/desCore.py:50 | the reversed schedule undoes the schedule on every block |
| DesModes.CipherInverseReversed | TRIPLEDES/desCore.py:24 | the schedule undoes the reversed schedule |
| DesModes.EncryptEcb | TRIPLEDES/desCore.py:4-28 | succeeds exactly for a usable key; which error comes first; the output is the padded length |
| DesModes.DecryptEcb | TRIPLEDES/desCore.py:30-56 | succeeds exactly for a usable key and non-empty whole blocks |
| DesModes.EcbRoundTrip | TRIPLEDES/desCore.py:4-56 | ECB decryption undoes ECB encryption for every message and usable key |
| DesModes.EcbBlockwise | TRIPLEDES/desCore.py:25-26 | ciphertext block `j` is the block routine of padded block `j` alone |
| DesModes.EncryptCbc | TRIPLEDES/desCore.py:58-95 | succeeds exactly for a usable key and IV, with the key checked before the IV |
| DesModes.DecryptCbc | TRIPLEDES/desCore.py:97-135 | also needs non-empty whole blocks |
| DesModes.CbcRoundTrip | TRIPLEDES/desCore.py:58-135 | CBC decryption undoes CBC encryption |
| DesModes.EncryptOfb | TRIPLEDES/desCore.py:137-173 | succeeds exactly for a usable key and IV; pads |
| DesModes.DecryptOfb | TRIPLEDES/desCore.py:175-211 | output rounded up to whole blocks; no padding removed |
| DesModes.OfbRoundTrip | TRIPLEDES/desCore.py:137-211 | OFB decryption gives back the padded message |
| TripleDes.TripleSchedules | TRIPLEDES/core.py:56-72 | IndexError when a key is missing or short; otherwise the three schedules |
| TripleDes.EdeInverse | TRIPLEDES/tDesCore.py:9-33 | the decryption passes undo the encryption passes |
| TripleDes.EdeSingle | TRIPLEDES/tDesCore.py:9-14 | one key three times is single DES |
| TripleDes.Ede | TRIPLEDES/tDesCore.py:11-14 | no contract of its own: the three block passes of encryption; `TripleDes.EdeInverse` proves `TripleDes.Ded` undoes it and `TripleDes.EdeSingle` that one key three times is single DES |
| TripleDes.Ded | TRIPLEDES/tDesCore.py:30-33 | no contract of its own: the three passes of decryption in the opposite order; `TripleDes.EdeInverse` proves it undoes `TripleDes.Ede` |
| TripleDes.IvBytes | TRIPLEDES/tDesCore.py:45 | bytes of any length, or the empty string, are accepted; anything else is a TypeError |
| TripleDes.TEncryptEcb | TRIPLEDES/tDesCore.py:4-17 | succeeds exactly for three usable keys, padded length |
| TripleDes.TDecryptEcb | TRIPLEDES/tDesCore.py:19-37 | also needs non-empty whole blocks |
| TripleDes.TEcbRoundTrip | TRIPLEDES/tDesCore.py:4-37 | Triple-DES ECB decryption undoes encryption |
| TripleDes.TEcbSingleKey | TRIPLEDES/tDesCore.py:4-17 | three copies of one key are single-DES ECB, errors included |
| TripleDes.TEncryptCbc | TRIPLEDES/tDesCore.py:39-56 | keys first, then the IV's type |
| TripleDes.TDecryptCbc | TRIPLEDES/tDesCore.py:58-76 | also needs non-empty whole blocks |
| TripleDes.TCbcRoundTrip | TRIPLEDES/tDesCore.py:39-76 | with an IV of at most eight bytes, decryption undoes encryption |
| TripleDes.TCbcLongIvInserts | TRIPLEDES/tDesCore.py:58-76 | as written: with a longer IV and a message of at least eight bytes, decryption inserts the IV's bytes past the eighth after the message's eighth byte |
| TripleDes.TDecryptCbcFirstBlock | TRIPLEDES/tDesCore.py:58-76 | corrected decryption chains from the IV's first eight bytes; it fails exactly where the code as written fails |
| TripleDes.TCbcRoundTripAnyIv | TRIPLEDES/tDesCore.py:39-76 | with the corrected decryption, every byte-string IV round-trips |
| TripleDes.FirstChain | TRIPLEDES/tDesCore.py:86 | the block routine reads the IV's first 64 bits and fails on a shorter IV |
| TripleDes.OfbStart | TRIPLEDES/tDesCore.py:79-86 | key failure first, then IV type, then IV length |
| TripleDes.TEncryptOfb | TRIPLEDES/tDesCore.py:78-92 | a short IV always fails; otherwise OFB of the padded message from the IV's first eight bytes |
| TripleDes.TDecryptOfb | TRIPLEDES/tDesCore.py:94-108 | with usable keys it succeeds exactly for an accepted IV that is eight bytes or more, or empty data, which never reaches the IV; a short IV is an IndexError; the output is as long as the input |
| TripleDes.TOfbRoundTrip | TRIPLEDES/tDesCore.py:78-108 | OFB decryption gives back the padded message |
| CuiDes.NewDes | TRIPLEDES/cui_des.py:8-19 | as written: the IV is always the argument |
| CuiDes.NewDesDefaulted | TRIPLEDES/cui_des.py:16-18 | as intended: CBC and OFB without an IV get the zero IV |
| CuiDes.DesReset | TRIPLEDES/cui_des.py:21-24 | the IV becomes the original IV and nothing else changes |
| CuiDes.DesEncrypt | TRIPLEDES/cui_des.py:26-38 | ValueError for an unknown mode; succeeds exactly with a usable key and, outside ECB, a usable IV |
| CuiDes.DesDecrypt | TRIPLEDES/cui_des.py:40-52 | as encryption, and ECB/CBC also need non-empty whole blocks |
| CuiDes.InvalidMode | TRIPLEDES/cui_des.py:37 | no contract of its own: the `ValueError("Invalid mode: " + mode)` that `CuiDes.DesEncrypt`, `CuiDes.DesDecrypt`, `CuiDes.TdesEncrypt` and `CuiDes.TdesDecrypt` state they return for any mode but ECB, CBC and OFB (lines 37, 51, 95, 109) |
| CuiDes.DesRoundTrip | TRIPLEDES/cui_des.py:26-52 | decrypting with the same object undoes encrypting, up to the padding in OFB |
| CuiDes.DesMissingIvFails | TRIPLEDES/cui_des.py:17-19 | a CBC object built without an IV fails with "IV is None" |
| CuiDes.DesDefaultIvWorks | TRIPLEDES/cui_des.py:16-18 | with the default in effect it encrypts, and CBC round-trips |
| CuiDes.DesResetUsesZeroIv | TRIPLEDES/cui_des.py:21-24 | after `reset` a CBC object encrypts under the zero IV |
| CuiDes.Slice | TRIPLEDES/cui_des.py:77 | Python slicing clamps out-of-range bounds |
| CuiDes.SplitKeys | TRIPLEDES/cui_des.py:73-77 | three keys, all usable exactly when the key has at least 24 bytes, concatenating to its first 24 |
| CuiDes.SplitKeysJoin | TRIPLEDES/cui_des.py:73-77 | splitting loses nothing of a key of at most 24 bytes |
| CuiDes.NewTdes | TRIPLEDES/cui_des.py:59-71 | the key is split; as written, the IV is always the argument |
| CuiDes.NewTdesDefaulted | TRIPLEDES/cui_des.py:68-70 | as intended: CBC and OFB without an IV get the zero IV; otherwise as `NewTdes` |
| CuiDes.TdesResetAsWritten | TRIPLEDES/cui_des.py:78-82 | as written: the keys become the split of the zero IV and the IV is left alone |
| CuiDes.TdesReset | TRIPLEDES/cui_des.py:78-80 | as documented: the IV is reset and the keys stay |
| CuiDes.TdesEncrypt | TRIPLEDES/cui_des.py:84-96 | ValueError for an unknown mode, IndexError for short keys; with usable keys ECB succeeds, CBC exactly for an accepted IV, OFB exactly for a byte-string IV of eight bytes or more; an IV of the wrong type gives its TypeError |
| CuiDes.TdesDecrypt | TRIPLEDES/cui_des.py:98-110 | the same errors; ECB succeeds exactly on non-empty whole blocks, CBC also needs an accepted IV, OFB an accepted IV of eight bytes or more unless the data is empty |
| CuiDes.TdesRoundTrip | TRIPLEDES/cui_des.py:59-110 | an object built from 24 key bytes, with a CBC IV of at most eight bytes, decrypts its own output, up to the padding in OFB |
| CuiDes.TdesMissingIvFails | TRIPLEDES/cui_des.py:68-70 | a CBC or OFB object built without an IV fails with a TypeError in both directions |
| CuiDes.TdesDefaultIvWorks | TRIPLEDES/cui_des.py:68-70 | with the default in effect it encrypts, CBC round-trips and OFB gives back the padded message |
| CuiDes.TdesResetBreaksKeys | TRIPLEDES/cui_des.py:78-82 | after `reset` as written, encryption fails in every mode |
| CuiDes.TdesResetKeepsKeys | TRIPLEDES/cui_des.py:79-80 | after the documented `reset`, ECB is unchanged and CBC uses the zero IV |
| PasswordCracker.PcAddPadding | password-crack/PasswordCracker.py:129-141 | whole blocks are left alone; otherwise it pads exactly as `core.py` does |
| PasswordCracker.PcPaddingExamples | password-crack/PasswordCracker.py:356-370 | the padding unit tests |
| PasswordCracker.XorExample | password-crack/PasswordCracker.py:363-382 | the XOR unit test |
| PasswordCracker.LShiftExample | password-crack/PasswordCracker.py:362-380 | the rotation unit test |
| PasswordCracker.PcRoundsAgree | password-crack/PasswordCracker.py:291-298 | these rounds are the Feistel rounds of `core.py` |
| PasswordCracker.PcEncryptBlockAgrees | password-crack/PasswordCracker.py:281-302 | both engines encrypt every block alike |
| PasswordCracker.PcRound | password-crack/PasswordCracker.py:265-279 | no contract of its own: `_function` and the XOR of one round; `PasswordCracker.PcRoundsAgree` proves the rounds equal those of `core.py` |
| PasswordCracker.PcRounds | password-crack/PasswordCracker.py:291-298 | no contract of its own: the sixteen rounds; `PasswordCracker.PcRoundsAgree` proves them equal to `Feistel.Rounds` with `DesCore.F` |
| PasswordCracker.PcEncryptBlock | password-crack/PasswordCracker.py:281-302 | no contract of its own: `_encrypt_block` of this engine; `PasswordCracker.PcEncryptBlockAgrees` proves it equals `DesCore.EncryptBlock` on every block |
| PasswordCracker.PcCipherInverse | password-crack/PasswordCracker.py:487-488 | the reversed schedule undoes the schedule |
| PasswordCracker.OfbIv | password-crack/PasswordCracker.py:446 | the keystream starts from the IV's first 64 bits |
| PasswordCracker.PcEncrypt | password-crack/PasswordCracker.py:402-452 | IndexError exactly for a short key, or OFB with data and a short IV; the output lengths; nothing for an unknown mode. Its CBC branch is the corrected chaining from the IV's bits; `PcEncryptAsWritten` is lines 439-443 as written |
| PasswordCracker.RawIv | password-crack/PasswordCracker.py:440 | the IV bytes used directly as bits |
| PasswordCracker.PcEncryptAsWritten | password-crack/PasswordCracker.py:418-443 | as written: CBC XORs in the raw IV; other modes as `PcEncrypt` |
| PasswordCracker.PcDecrypt | password-crack/PasswordCracker.py:463-523 | IndexError for an unknown mode; success conditions per mode; OFB keeps the length |
| PasswordCracker.PcEcbRoundTrip | password-crack/PasswordCracker.py:402-523 | ECB round trip for messages that are not whole blocks |
| PasswordCracker.PcCbcRoundTrip | password-crack/PasswordCracker.py:402-523 | CBC round trip, with the IV as bits, for messages that are not whole blocks |
| PasswordCracker.PcWholeBlocksUnpadded | password-crack/PasswordCracker.py:134-150 | whole-block messages come back with padding stripped that was never added |
| PasswordCracker.PcWholeBlockExamples | password-crack/PasswordCracker.py:134-150 | `b"ABCDEFGH"` decrypts to nothing; empty input fails |
| PasswordCracker.PcPaddedRoundTrip | password-crack/PasswordCracker.py:134-150 | as intended: with the padding of `core.py`, which pads whole blocks too, ECB and CBC decryption give every message back |
| PasswordCracker.PcOfbRoundTrip | password-crack/PasswordCracker.py:445-517 | OFB decryption undoes OFB encryption exactly |
| PasswordCracker.PcEncryptCbcAsWritten | password-crack/PasswordCracker.py:439-443 | the CBC branch chains from the raw IV |
| PasswordCracker.PcEncryptCbc | password-crack/PasswordCracker.py:439-443 | the corrected branch chains from the IV's bits |
| PasswordCracker.PcDecryptCbc | password-crack/PasswordCracker.py:506-510 | CBC decryption chains from the IV's bits |
| PasswordCracker.CbcFirstBlockOnly | password-crack/PasswordCracker.py:439-443 | the IV matters only through the first block |
| PasswordCracker.PcZeroIvAgrees | password-crack/PasswordCracker.py:396 | with the default zero IV the code as written agrees with the corrected CBC |
| PasswordCracker.NeutralIvAgrees | password-crack/PasswordCracker.py:439-443 | an eight-byte IV whose raw bytes and whose bits are both all zero makes the code as written agree with the corrected CBC |
| PasswordCracker.PcRawIvFlipsBits | password-crack/PasswordCracker.py:439-443 | IV `01 00..00`: `b"A"` encrypts and decrypts to `b"\xc0"` |
| PasswordCracker.UpperByte | password-crack/PasswordCracker.py:701-702 | an upper-cased ASCII character as a byte |
| PasswordCracker.LmPassword | password-crack/PasswordCracker.py:701-709 | fourteen bytes: upper-cased, cut to 14 or NUL-padded |
| PasswordCracker.ParityKeyBits | password-crack/PasswordCracker.py:717-721 | every seven bits are followed by a 0 |
| PasswordCracker.ParityKeyBitsInverse | password-crack/PasswordCracker.py:8-11 | inserting the zeros loses none of the password bits |
| PasswordCracker.InsertParityBits | password-crack/PasswordCracker.py:717-721 | the insertion loop, with `range` evaluated once, builds that key |
| PasswordCracker.LmKey | password-crack/PasswordCracker.py:711-727 | key byte `j` is twice the value of bits `7j..7j+6` of the first seven password bytes |
| PasswordCracker.LmHash | password-crack/PasswordCracker.py:693-734 | the eight ciphertext bytes behind `LMHash`'s hex string: the block routine on `KGS!@#$%` under that key |
| PasswordCracker.LmHashIgnoresSecondHalf | password-crack/PasswordCracker.py:711-712 | a password and its first seven characters hash alike |
| PasswordCracker.ShortPasswordHalf | password-crack/PasswordCracker.py:707-709 | a password of at most seven characters has a NUL second half |
| PasswordCracker.LmHashFull | password-crack/PasswordCracker.py:2-15 | the hash the header describes is sixteen bytes |
| PasswordCracker.LmHashFullHalves | password-crack/PasswordCracker.py:15-19 | its first eight bytes are what `LMHash` returns; a password of at most seven characters always has the NUL half's hash as its second half |
| PasswordCracker.LmHalf | password-crack/PasswordCracker.py:12-13 | eight bytes per seven-byte half |
| PasswordCracker.LmHalfIsHash | password-crack/PasswordCracker.py:711-734 | `LMHash` is the half-hash of the first seven bytes |
| Letters.LetterOf | TheSauce/caesar.py:51 | the upper-case letter at place `n` |
| Letters.ToUpper | TheSauce/enigma.py:57 | `str.upper` on one ASCII character |
| Letters.ToLower | TheSauce/vigenere.py:37 | `str.lower` on one ASCII character |
| Letters.UpperString | TheSauce/enigma.py:230 | character by character upper-casing |
| Letters.LowerString | TheSauce/vigenere.py:64 | character by character lower-casing |
| Letters.Ordinal | TheSauce/caesar.py:32-36 | the place of a letter of either case; it names the same letter as its upper case |
| Letters.OrdinalOfLetter | TheSauce/caesar.py:24-54 | reading a letter's place back gives the place |
| Letters.OrdinalUpper | TheSauce/caesar.py:32-36 | upper-casing keeps the place |
| Letters.OrdinalLower | TheSauce/vigenere.py:37 | lower-casing keeps the place |
| Letters.SameLetter | TheSauce/caesar.py:32-36 | letters of equal place agree once their case is fixed |
| Letters.ToToken | TheSauce/caesar.py:31-38 | a letter becomes its place; anything else is kept |
| Letters.FromToken | TheSauce/caesar.py:49-53 | a place becomes its upper-case letter; anything else is kept |
| Letters.TokenRoundTrip | TheSauce/caesar.py:24-54 | to a token and back upper-cases and changes nothing else |
| Otp.BitArrayToString | TheSauce/otp.py:29-39 | one byte per full group of eight bits; a trailing partial group is dropped |
| Otp.BytesToBitsInjective | TheSauce/otp.py:15-26 | different byte strings have different bits |
| Otp.BitArrayRoundTrip | TheSauce/otp.py:15-39 | packing inverts the bit expansion |
| Otp.BitArrayDropsPartialByte | TheSauce/otp.py:34-39 | up to seven trailing bits leave no trace |
| Otp.ByteXorCancel | TheSauce/otp.py:51 | XORing a byte in twice cancels |
| Otp.ByteXor | TheSauce/otp.py:50-51 | no contract of its own: one byte of the bitwise XOR; `Otp.ByteXorCancel` proves XORing a key byte in twice cancels, and `Otp.ZipXorBytes` that the bitwise XOR is this bytewise XOR |
| Otp.ZipXor | TheSauce/otp.py:50-51 | `zip` stops at the shorter list |
| Otp.ZipXorAppend | TheSauce/otp.py:50-51 | the zipped XOR splits over equal-length fronts |
| Otp.ZipXorOneByte | TheSauce/otp.py:46-51 | on one byte each it is the XORed byte |
| Otp.ByteXors | TheSauce/otp.py:46-53 | byte `i` is data byte `i` XOR key byte `i` over the common length |
| Otp.ZipXorBytes | TheSauce/otp.py:46-51 | the bitwise XOR is the bytewise XOR |
| Otp.Crypt | TheSauce/otp.py:42-54 | as long as the shorter input; byte `i` is the XOR of the inputs' bytes `i` |
| Otp.CryptInvolution | TheSauce/otp.py:43-49 | with a long enough key, applying the pad twice gives the data back |
| Otp.CryptSymmetric | TheSauce/otp.py:46-51 | data and key play the same part |
| Otp.CryptShortKey | TheSauce/otp.py:50 | a short key truncates the output; the pad is not repeated |
| Caesar.WordsToOrdinals | TheSauce/caesar.py:24-39 | one token per character |
| Caesar.OrdinalsToWords | TheSauce/caesar.py:42-54 | one character per token |
| Caesar.Rotate | TheSauce/caesar.py:57-60 | a place in 0..25 congruent to letter + shift, for negative shifts too |
| Caesar.RotateInverse | TheSauce/caesar.py:57-60 | rotating back undoes a rotation |
| Caesar.RotatePeriod | TheSauce/caesar.py:57-60 | shifts 26 apart rotate alike |
| Caesar.ShiftOrdinals | TheSauce/caesar.py:63-74 | places are rotated; everything else is kept |
| Caesar.Encrypt | TheSauce/caesar.py:77-84 | letters come out upper case and shifted; the rest stays |
| Caesar.Decrypt | TheSauce/caesar.py:87-94 | letters shifted back by the key |
| Caesar.RoundTrip | TheSauce/caesar.py:77-94 | decryption with the same key gives the plaintext, upper case |
| Caesar.KeyPeriod | TheSauce/caesar.py:77-84 | keys 26 apart encrypt alike |
| Caesar.DecryptIsNegatedEncrypt | TheSauce/caesar.py:87-94 | decryption is encryption with the negated key |
| Vigenere.SpacePositions | TheSauce/vigenere.py:20-23 | only indices of spaces, ascending |
| Vigenere.SpacePositionsComplete | TheSauce/vigenere.py:20-23 | every space of the text is listed |
| Vigenere.RemoveSpaces | TheSauce/vigenere.py:49 | no spaces left; length drops by the number of spaces |
| Vigenere.RemoveSpacesEmpty | TheSauce/vigenere.py:49 | nothing is left exactly when the text is all spaces |
| Vigenere.InsertSpaces | TheSauce/vigenere.py:26-31 | one character longer per position |
| Vigenere.InsertSpacesChars | TheSauce/vigenere.py:26-31 | only spaces are added |
| Vigenere.InsertSpacesAppend | TheSauce/vigenere.py:26-31 | a character appended after the text stays last |
| Vigenere.SpacePositionsBound | TheSauce/vigenere.py:20-23 | the k-th space lies within the first `k` plus the other characters |
| Vigenere.Unspace | TheSauce/vigenere.py:20-31 | reinserting the spaces at their positions restores the text |
| Vigenere.Respace | TheSauce/vigenere.py:26-31 | a space-free string of the right length gets the text's spaces exactly in place |
| Vigenere.LowerSpaces | TheSauce/vigenere.py:64 | lower-casing keeps the spaces and commutes with removing them |
| Vigenere.ShiftFactor | TheSauce/vigenere.py:34-37 | a letter's place, either case |
| Vigenere.EncryptChar | TheSauce/vigenere.py:63-64 | a letter is shifted and lower-cased; anything else is kept |
| Vigenere.DecryptChar | TheSauce/vigenere.py:93-94 | a letter is shifted back and lower-cased |
| Vigenere.CharRoundTrip | TheSauce/vigenere.py:63-94 | decrypting with the same shift gives the character lower-cased |
| Vigenere.EncryptLetters | TheSauce/vigenere.py:55-64 | character `i` is shifted by keyword letter `i mod len` |
| Vigenere.KeywordShift | TheSauce/vigenere.py:55-59 | a keyword letter gives a shift in 0..25; `Vigenere.EncryptLetters` and `Vigenere.LettersRoundTrip` take it as the shift of character `i`, from keyword letter `i mod len(keyword)` |
| Vigenere.DecryptLetters | TheSauce/vigenere.py:85-94 | the same, shifting back |
| Vigenere.Encrypt | TheSauce/vigenere.py:40-70 | ZeroDivisionError exactly for an empty keyword and something to encrypt; spaces stay where they were; nothing upper case |
| Vigenere.Decrypt | TheSauce/vigenere.py:73-99 | the same for decryption |
| Vigenere.EncryptAll | TheSauce/vigenere.py:50-64 | without `preserve_spaces` every character is shifted, yet the spaces stay where they were and nothing comes out upper case |
| Vigenere.EncryptSpaced | TheSauce/vigenere.py:47-68 | with `preserve_spaces` the spaces come back exactly where the text had them and nothing comes out upper case |
| Vigenere.DecryptSpaced | TheSauce/vigenere.py:80-97 | decryption puts the spaces back exactly where they were and lower-cases the rest |
| Vigenere.EncryptPreserving | TheSauce/vigenere.py:47-68 | encryption keeps the spaces out of the keyword's count |
| Vigenere.DecryptRespaced | TheSauce/vigenere.py:80-97 | decrypting a respaced string decrypts the string |
| Vigenere.LettersRoundTrip | TheSauce/vigenere.py:55-94 | letter by letter, decryption undoes encryption up to case |
| Vigenere.RoundTrip | TheSauce/vigenere.py:40-99 | with `preserve_spaces`, decryption gives the text back in lower case |
| Vigenere.SpacesShiftEncrypt | TheSauce/vigenere.py:47-64 | without `preserve_spaces`, `"a b"` under `"ab"` encrypts to itself: the space takes the shift of `b` |
| Vigenere.SpacesShiftDecrypt | TheSauce/vigenere.py:80-94 | and `"a b"` under `"ab"` decrypts to `"a a"` |
| Vigenere.SpacesShiftKeyword | TheSauce/vigenere.py:47-51 | without `preserve_spaces`, `"a b"` under `"ab"` decrypts to `"a a"`: spaces use up keyword letters |
| Vigenere.Window | TheSauce/vigenere.py:112 | `count` characters |
| Vigenere.ListsUpTo | TheSauce/vigenere.py:109-114 | every list built so far is non-empty |
| Vigenere.ListsComplete | TheSauce/vigenere.py:111-114 | every index so far is listed under its window |
| Vigenere.ListsSound | TheSauce/vigenere.py:111-114 | every listed index has that window there; lists ascend |
| Vigenere.ListsStep | TheSauce/vigenere.py:112-114 | one loop pass appends the index to its window's list |
| Vigenere.SequenceLists | TheSauce/vigenere.py:102-115 | every window maps to the ascending list of exactly the indices where it occurs |
| Vigenere.SequenceListsExample | TheSauce/vigenere.py:106-107 | the documented `"ABCDABCD"` example |
| Vigenere.Diffs | TheSauce/vigenere.py:129-130 | the gaps between consecutive elements |
| Vigenere.DiffsTelescope | TheSauce/vigenere.py:129-130 | the gaps add up to last minus first |
| Vigenere.SpanLengths | TheSauce/vigenere.py:118-131 | exactly the sequences seen twice or more, each with its gaps |
| Vigenere.SpansOfRepeats | TheSauce/vigenere.py:102-131 | on `sequence_lists` output the spans are positive and add up to at most the text length less the window |
| Vigenere.DivisorsFrom | TheSauce/vigenere.py:137 | the divisors from `i` to `n // 2`, ascending |
| Vigenere.FactorList | TheSauce/vigenere.py:134-137 | the divisors in 2..n // 2 ascending, then `n` |
| Vigenere.FactorListDivisors | TheSauce/vigenere.py:134-137 | for `n >= 2`, exactly the divisors other than 1 |
| Vigenere.SortedFactors | TheSauce/vigenere.py:151-156 | ascending and holding exactly the factors of every span |
| Vigenere.SequenceLengthFactors | TheSauce/vigenere.py:140-157 | KeyError exactly when some sequence has no spans; otherwise the same keys with their sorted factors |
| Vigenere.CommonFactors | TheSauce/vigenere.py:160-172 | exactly the factors found in every list |
| Vigenere.CommonFactorsOfSpans | TheSauce/vigenere.py:140-172 | with positive spans, a factor is common exactly when every sequence has some span it is a factor of (a divisor other than 1, or the span itself) |
| Vigenere.Column | TheSauce/vigenere.py:183-185 | the characters at `j`, `j+k`, `j+2k`, and no more |
| Vigenere.SplitByKeyLength | TheSauce/vigenere.py:175-186 | one column per key letter, each holding its characters |
| Vigenere.SplitPartition | TheSauce/vigenere.py:175-186 | character `i` lands in column `i % k` at position `i / k` |
| Vigenere.SplitExample | TheSauce/vigenere.py:180 | the documented split example |
| Vigenere.CommonFactorsExample | TheSauce/vigenere.py:165 | the documented common-factor example |
| Vigenere.SpanExample | TheSauce/vigenere.py:123-147 | the documented span and factor examples |
| EnigmaWiring.RotorIForwardTable | TheSauce/enigma.py:161-162 | rotor I: the reverse offset at the exit wire cancels the forward offset |
| EnigmaWiring.RotorIReverseTable | TheSauce/enigma.py:161-162 | and the other way round |
| EnigmaWiring.RotorIForwardUndoes | TheSauce/enigma.py:161-162 | rotor I's reverse table undoes its forward table |
| EnigmaWiring.RotorIReverseUndoes | TheSauce/enigma.py:161-162 | its forward table undoes its reverse table |
| EnigmaWiring.RotorIValid | TheSauce/enigma.py:160-165 | rotor I is a valid rotor with pushpeg 16 |
| EnigmaWiring.RotorIIForwardTable | TheSauce/enigma.py:167-168 | rotor II, as for rotor I |
| EnigmaWiring.RotorIIReverseTable | TheSauce/enigma.py:167-168 | rotor II, as for rotor I |
| EnigmaWiring.RotorIIForwardUndoes | TheSauce/enigma.py:167-168 | rotor II, as for rotor I |
| EnigmaWiring.RotorIIReverseUndoes | TheSauce/enigma.py:167-168 | rotor II, as for rotor I |
| EnigmaWiring.RotorIIValid | TheSauce/enigma.py:166-171 | rotor II is valid |
| EnigmaWiring.RotorIIIForwardTable | TheSauce/enigma.py:173-174 | rotor III, as for rotor I |
| EnigmaWiring.RotorIIIReverseTable | TheSauce/enigma.py:173-174 | rotor III, as for rotor I |
| EnigmaWiring.RotorIIIForwardUndoes | TheSauce/enigma.py:173-174 | rotor III, as for rotor I |
| EnigmaWiring.RotorIIIReverseUndoes | TheSauce/enigma.py:173-174 | rotor III, as for rotor I |
| EnigmaWiring.RotorIIIValid | TheSauce/enigma.py:172-177 | rotor III is valid |
| EnigmaWiring.RotorIVForwardTable | TheSauce/enigma.py:179-180 | rotor IV, as for rotor I |
| EnigmaWiring.RotorIVReverseTable | TheSauce/enigma.py:179-180 | rotor IV, as for rotor I |
| EnigmaWiring.RotorIVForwardUndoes | TheSauce/enigma.py:179-180 | rotor IV, as for rotor I |
| EnigmaWiring.RotorIVReverseUndoes | TheSauce/enigma.py:179-180 | rotor IV, as for rotor I |
| EnigmaWiring.RotorIVValid | TheSauce/enigma.py:178-183 | rotor IV is valid |
| EnigmaWiring.RotorVForwardTable | TheSauce/enigma.py:185-186 | rotor V, as for rotor I |
| EnigmaWiring.RotorVReverseTable | TheSauce/enigma.py:185-186 | rotor V, as for rotor I |
| EnigmaWiring.RotorVForwardUndoes | TheSauce/enigma.py:185-186 | rotor V, as for rotor I |
| EnigmaWiring.RotorVReverseUndoes | TheSauce/enigma.py:185-186 | rotor V, as for rotor I |
| EnigmaWiring.RotorVValid | TheSauce/enigma.py:184-189 | rotor V is valid |
| EnigmaWiring.ReflectorBTable | TheSauce/enigma.py:193 | reflector B: bouncing from the exit wire cancels the offset |
| EnigmaWiring.ReflectorBMoves | TheSauce/enigma.py:193 | no offset of reflector B is a multiple of 26 |
| EnigmaWiring.ReflectorBValid | TheSauce/enigma.py:193 | reflector B pairs the wires with no wire fixed |
| EnigmaWiring.ReflectorCTable | TheSauce/enigma.py:194 | reflector C, as for B |
| EnigmaWiring.ReflectorCMoves | TheSauce/enigma.py:194 | reflector C, as for B |
| EnigmaWiring.ReflectorCValid | TheSauce/enigma.py:194 | reflector C pairs the wires with no wire fixed |
| Enigma.ShiftBack | TheSauce/enigma.py:91 | a multiple of 26 leads back to the wire |
| Enigma.ShiftAway | TheSauce/enigma.py:91 | anything else leads elsewhere |
| Enigma.RoundTripWires | TheSauce/enigma.py:84-85 | the arithmetic of going through a rotor and back |
| Enigma.RotorRoundTrip | TheSauce/enigma.py:81-86 | forward then reverse through one rotor returns the signal, whatever the counter |
| Enigma.Rotor | TheSauce/enigma.py:81-86 | no contract of its own: one pass through one rotor; `Enigma.RotorRoundTrip` proves the reverse table undoes the forward table at every counter |
| Enigma.BounceBackPairs | TheSauce/enigma.py:88-92 | the reflector pairs wires and never maps a wire to itself |
| Enigma.BounceBack | TheSauce/enigma.py:88-92 | no contract of its own: the reflector; `Enigma.BounceBackPairs` proves it pairs the wires with no fixed point |
| Enigma.BackwardForward | TheSauce/enigma.py:116-122 | the return trip through the three rotors undoes the way in |
| Enigma.ScramblePairs | TheSauce/enigma.py:116-122 | rotors and reflector together pair the wires, with no fixed point |
| Enigma.Forward | TheSauce/enigma.py:116-118 | no contract of its own: right, middle and left rotors; `Enigma.BackwardForward` proves `Enigma.Backward` undoes it |
| Enigma.Backward | TheSauce/enigma.py:120-122 | no contract of its own: left, middle and right rotors in reverse; `Enigma.BackwardForward` proves it undoes `Enigma.Forward` |
| Enigma.Scramble | TheSauce/enigma.py:116-122 | no contract of its own: rotors, reflector, rotors; `Enigma.ScramblePairs` proves it pairs the wires with no fixed point |
| Enigma.Step | TheSauce/enigma.py:71-79 | only the counters move |
| Enigma.StepCounters | TheSauce/enigma.py:74-79 | right +1; left +1 exactly when the middle sits at its pushpeg; middle +1 for each of the two conditions |
| Enigma.Steps | TheSauce/enigma.py:71-79 | only the counters move over `n` steps |
| Enigma.StepsRight | TheSauce/enigma.py:79 | the right counter is `n` places on after `n` steps |
| Enigma.DoubleStep | TheSauce/enigma.py:74-79 | the double step: windows A D P, A D Q, A E R, B F S |
| Enigma.Unplugged | TheSauce/enigma.py:64 | every wire leads to itself |
| Enigma.Connect | TheSauce/enigma.py:66-69 | both entries written, the second last; the others unchanged |
| Enigma.Plugboard | TheSauce/enigma.py:64-69 | IndexError exactly when some plug is empty |
| Enigma.ConnectPairs | TheSauce/enigma.py:68-69 | a plug on two free letters keeps the board a pairing |
| Enigma.PlugboardLast | TheSauce/enigma.py:65-69 | the board is the board of the earlier plugs with the last one connected |
| Enigma.EarlierPlugsKept | TheSauce/enigma.py:65-69 | with no shared letters, the last plug keeps earlier plugs' wiring |
| Enigma.UnpluggedKept | TheSauce/enigma.py:65-69 | the last plug leaves unplugged letters alone |
| Enigma.PlugboardUnplugged | TheSauce/enigma.py:64-69 | a letter no plug holds is wired to itself |
| Enigma.PlugboardEnds | TheSauce/enigma.py:65-69 | with no shared letters, each plug's first end is wired to its last |
| Enigma.ValidLast | TheSauce/enigma.py:65-69 | a further disjoint plug keeps the board a pairing |
| Enigma.PlugboardValid | TheSauce/enigma.py:64-69 | with letter plugs sharing no letter, the board pairs the letter wires |
| Enigma.PlugboardPairs | TheSauce/enigma.py:64-69 | and pairs each plug's ends and leaves the rest alone |
| Enigma.Keypress | TheSauce/enigma.py:94-135 | anything but one letter passes through with the rotors still; with a paired plugboard, a letter steps the rotors and lights one upper-case lamp |
| Enigma.StepValid | TheSauce/enigma.py:71-79 | stepping keeps a valid machine valid |
| Enigma.Reciprocal | TheSauce/enigma.py:113-135 | pressing the lit lamp on a machine in the same state lights the key pressed; no letter lights itself |
| Enigma.Encipher | TheSauce/enigma.py:217-218 | with a paired plugboard: one lamp per character; non-letters pass; letters come out upper case |
| Enigma.EncipherFirst | TheSauce/enigma.py:217-218 | enciphering splits after the first character |
| Enigma.KeypressReciprocal | TheSauce/enigma.py:94-135 | one key press of any character is undone by pressing its lamp |
| Enigma.EncipherReciprocal | TheSauce/enigma.py:225-230 | a machine in the same start state turns the ciphertext back into the upper-cased plaintext |
| Enigma.RotorByName | TheSauce/enigma.py:58-60 | KeyError exactly for an unknown name in any case; "I" to "V" give the rotors I to V of `_mechanical`, each valid |
| Enigma.ReflectorByName | TheSauce/enigma.py:57 | the same for reflectors: "B" and "C" give reflectors B and C |
| Enigma.StartCounter | TheSauce/enigma.py:61-63 | TypeError unless start and ring are single letters; otherwise counter + ring = start mod 26 |
| Enigma.Reset | TheSauce/enigma.py:47-69 | on success: the reflector and the left, middle and right rotors named, valid, with counters for the starts and rings, and the plugboard of the plugs |
| Enigma.ResetErrors | TheSauce/enigma.py:57-69 | KeyError for names first, then TypeError for settings, then IndexError for an empty plug; otherwise success |
| Enigma.ResetValid | TheSauce/enigma.py:47-69 | with letter plugs sharing no letter, `reset` builds a reciprocal machine |
| Enigma.OverlappingPlugs | TheSauce/enigma.py:65-69 | plugs "AB" and "BC" break the pairing |
| Enigma.MainStartCanFail | TheSauce/enigma.py:200-204 | the drawn code for `[` is in range but is not a letter, and the setup fails with TypeError |
| Enigma.MainStartIntended | TheSauce/enigma.py:200-204 | every code in the intended range gives a working machine that starts there |

## Left out

- Printing, timing, file and console I/O: `_hex_print`, the unit-test and integration-test drivers of `core.py` and `desCore.py`, `CoolUserInterface`, `main`, `bozo_test`, and the `__main__` printing of `enigma.py`. They compute nothing the model needs.
- `_generate_subkeys` converting an `int` key (`core.py` lines 80-81), and keys that are not bytes at all. `TripleDes` takes its keys as a list of byte strings and `CuiDes.NewTdes` takes a byte-string key, so neither can express a key list whose items are `int`s (a bytes object passed as the list, which `to_bytes(8, 'big')` converts, or rejects with OverflowError when negative or 2^64 or more), `TDES(None)` (TypeError at `cui_des.py` line 77), or a `str` key (TypeError in `_bytes_to_bit_array`). `DesModes` does model the rejection of non-bytes keys by `desCore.py`.
- DesCore.GenerateSubkeys: the known-answer schedule for key `EF 00 EF 00 FF 80 FF 80` that the unit tests of `core.py` (lines 389-422) and `PasswordCracker.py` (lines 321-386) check is not proved. Evaluating sixteen 48-bit subkeys on concrete bits is beyond what the verifier does within its limits. `DesCore.KeyScheduleIsLoop` proves for every key that the loop computes the closed-form schedule of the DES standard, and `DesTables` holds that standard's tables.
- The `str` handling of `PasswordCracker.DES`: UTF-8 encoding of `str` input, hex output, hex-string input and UTF-8 decoding of the output. The model works on bytes.
- `_leet_replace` and the dictionary attack loop in `PasswordCracker.py`, which sit outside the cipher.
- `PasswordCracker.PcEncryptAsWritten`: in CBC mode it is stated only for IV bytes 0 and 1. A larger raw IV byte lands in the bit list, and what follows depends on decimal digits that Python's `int(str(...))` produces; this is not modelled.
- PasswordCracker.LmHash: gives the eight ciphertext bytes. `LMHash` returns them as the 16-character lower-case hex string that `DES.encrypt` builds under its default output type (`PasswordCracker.py` lines 455-457); that formatting is part of the `str` handling left out above.
- `PasswordCracker.LmHash` and the other LM members require an ASCII password. Upper-casing and UTF-8 encoding of non-ASCII characters are not modelled.
- The frequency analysis of `caesar.py` (`brute_force`, `calculate_frequencies`, `plot_frequencies`, `score_frequencies`, `score_all_keys`) and `top3` of `vigenere.py`. They are floating-point scoring and plotting.
- Letters are ASCII letters only. Python's `str.isalpha`, `upper` and `lower` accept all of Unicode.
- `Caesar.OrdinalsToWords`: takes only places 0..25 and characters. Python would also turn other integers into characters; no caller produces them.
- `Vigenere.SequenceLists`: `count` is a natural number. A negative count makes Python slice from the end; no caller uses one.
- `Vigenere.CommonFactors`: the result is a set. Python returns a list in its set's iteration order, which the language does not fix.
- `DesModes.DecryptEcb`, `DecryptCbc` and the Triple-DES decryptions: the IndexError the block routine raises on a short final block is checked up front. The outcome is the same and there are no side effects.
- `TripleDes.TEncryptOfb` and `TripleDes.OfbStart`: for an IV that is not bytes they state only that the call fails, not which exception.
- `Enigma.Keypress`: when a non-letter plug end makes the signal path fail with TypeError, the model drops the already stepped counters. The source would keep them on the shared rotor objects.
- `Enigma.Keypress`: the key is a string, so the first test of `keypress` (enigma.py line 100), which hands back any non-`str` argument unchanged without stepping the rotors, has no counterpart here.
- Enigma rotor objects are shared `dict`s in `_mechanical`. The same rotor in two slots shares one counter, and counters persist across machines. The model gives every slot its own counter.
- A plug end that is not a letter adds a `str` key to the plugboard `dict`. No letter wire reads that key; the model keeps only its effect on the letter wires.
- Rotor and reflector tables are modelled as functions from wire to offset rather than lists.
- The `debug` printout of `keypress`.
- The randomness of `__main__` in `enigma.py`: the drawn value is a parameter of `Enigma.MainStartCanFail` and `Enigma.MainStartIntended`.

## Findings

| source | as written | input that shows it | evidently intended | confidence | as-written member | corrected member |
|---|---|---|---|---|---|---|
| TRIPLEDES/cui_des.py:17-19 | the zero-IV default is overwritten by `self.IV = iv` on the next line | `DES(key, "CBC").encrypt(data)` fails with "IV is None" | CBC and OFB objects without an IV start from the zero IV | high, not executed | CuiDes.DesMissingIvFails | CuiDes.DesDefaultIvWorks |
| TRIPLEDES/cui_des.py:78-82 | `reset` overwrites the key with the zero IV and splits it | after `reset`, any `TDES` encryption fails with IndexError (keys of 8, 0 and 0 bytes) | reset the IV, keep the keys | high, not executed | CuiDes.TdesResetBreaksKeys | CuiDes.TdesResetKeepsKeys |
| password-crack/PasswordCracker.py:418-443 | CBC encryption XORs the raw IV bytes into the bit block; only OFB converts the IV to bits | IV `01 00 00 00 00 00 00 00`, message `b"A"`: decryption returns `b"\xc0"` | chain from the IV's bits, as decryption does | high, not executed | PasswordCracker.PcRawIvFlipsBits | PasswordCracker.PcCbcRoundTrip |
| password-crack/PasswordCracker.py:134-150 | a message that is already whole blocks is not padded, yet decryption always strips padding | `b"ABCDEFGH"` in ECB decrypts to `b""` | always append 1 to 8 padding bytes, as `core.py` does | medium (`LMHash` depends on the unpadded single block), not executed | PasswordCracker.PcWholeBlocksUnpadded | PasswordCracker.PcPaddedRoundTrip |
| password-crack/PasswordCracker.py:711-734 | only the first seven-byte half is hashed: the result is the 16-character hex string of 8 bytes | `"ABCDEFGHIJ"` hashes like `"ABCDEFG"` | the 16-byte hash of both halves the file header describes | high, not executed | PasswordCracker.LmHashIgnoresSecondHalf | PasswordCracker.LmHashFullHalves |
| TRIPLEDES/cui_des.py:68-70 | `TDES.__init__` also overwrites its zero-IV default with `self.IV = iv` | `TDES(key, "CBC").encrypt(data)` fails with TypeError: `None` is not iterable | CBC and OFB objects without an IV start from the zero IV | high, not executed | CuiDes.TdesMissingIvFails | CuiDes.TdesDefaultIvWorks |
| TRIPLEDES/tDesCore.py:62-71 | CBC decryption XORs the whole IV into the first decrypted block, and `_xor` keeps the longer operand's tail | a 9-byte IV and a message of at least 8 bytes: decryption returns the message with the IV's ninth byte inserted after its eighth | chain from the IV's first eight bytes, as encryption effectively does | medium (the documented IV is 8 bytes), not executed | TripleDes.TCbcLongIvInserts | TripleDes.TCbcRoundTripAnyIv |
| TheSauce/enigma.py:201-203 | `randint(ord('A'), ord('Z')+1)` includes the code of `[` | draw 91: `m3(..., "[", ...)` fails with TypeError in `reset` | draw up to `ord('Z')` | high, not executed | Enigma.MainStartCanFail | Enigma.MainStartIntended |
