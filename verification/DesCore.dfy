/** The single-block DES engine of `core.py`: S-box substitution, the round
    function, the key schedule and the encryption of one 64-bit block. */
module DesCore {
  import opened Bits
  import opened DesTables
  import opened Feistel

  type Subkey = k: seq<Bit> | |k| == 48 witness Zeros(48)

  const NoSubkeys: seq<Subkey> := seq(16, _ => Zeros(48))

  /** Sixteen round keys; `_encrypt_block` reads exactly `subkeys[0..16]`. */
  type Schedule = s: seq<Subkey> | |s| == 16 witness NoSubkeys

  // ---------------------------------------------------------------------------
  // S-boxes and the round function
  // ---------------------------------------------------------------------------

  /** The value of four bits, most significant first: Python's
      `int('b1b2b3b4', 2)`. */
  function Nibble4(b: seq<Bit>): (v: Nibble)
    requires |b| == 4
  {
    8 * (b[0] as int) + 4 * (b[1] as int) + 2 * (b[2] as int) + b[3]
  }

  /** The four bits of a value below 16: `bin(val)[2:].zfill(4)`. */
  function NibbleBits(v: Nibble): (r: seq<Bit>)
    ensures |r| == 4 && Nibble4(r) == v
  {
    [v / 8, (v / 4) % 2, (v / 2) % 2, v % 2]
  }

  /** The 4-bit S-box output for one 6-bit chunk fed to box `box`: the outer
      bits choose the row and the inner four bits the column. */
  function SubstituteChunk(chunk: seq<Bit>, box: nat): (r: seq<Bit>)
    requires |chunk| == 6 && box < 8
    ensures |r| == 4
    ensures Nibble4(r) == SBox(box, 2 * (chunk[0] as int) + chunk[5], Nibble4(chunk[1..5]))
  {
    NibbleBits(SBox(box, 2 * (chunk[0] as int) + chunk[5], Nibble4(chunk[1..5])))
  }

  /** `_substitute`: the input is cut into 6-bit chunks and chunk `i` goes
      through S-box `box + i` (the source starts at `box = 0`); the outputs
      are concatenated, four bits per chunk. */
  function Substitute(bits: seq<Bit>, box: nat): (r: seq<Bit>)
    requires |bits| % 6 == 0 && 6 * box + |bits| <= 48
    ensures 3 * |r| == 2 * |bits|
    ensures |bits| > 0 ==> r[..4] == SubstituteChunk(bits[..6], box)
    decreases |bits|
  {
    if |bits| == 0 then [] else SubstituteChunk(bits[..6], box) + Substitute(bits[6..], box + 1)
  }

  /** Two chunks go through the first two S-boxes. */
  lemma SubstituteTwo(a: seq<Bit>, b: seq<Bit>)
    requires |a| == 6 && |b| == 6
    ensures Substitute(a + b, 0) == SubstituteChunk(a, 0) + SubstituteChunk(b, 1)
  {
    var c := a + b;
    assert c[..6] == a && c[6..] == b;
    assert b[..6] == b && b[6..] == [];
  }

  /** The S-box lookups the worked examples below pass through, one chunk
      at a time. */
  lemma ChunkEx1a()
    ensures SubstituteChunk([1, 1, 1, 1, 1, 1], 0) == [1, 1, 0, 1]
  {
    var ch: seq<Bit> := [1, 1, 1, 1, 1, 1];
    assert ch[1..5] == [1, 1, 1, 1];
    assert SBox1[63] == 13;
  }

  lemma ChunkEx1b()
    ensures SubstituteChunk([0, 0, 0, 0, 0, 0], 1) == [1, 1, 1, 1]
  {
    var ch: seq<Bit> := [0, 0, 0, 0, 0, 0];
    assert ch[1..5] == [0, 0, 0, 0];
    assert SBox2[0] == 15;
  }

  lemma ChunkEx2a()
    ensures SubstituteChunk([0, 1, 0, 1, 0, 1], 0) == [1, 1, 0, 0]
  {
    var ch: seq<Bit> := [0, 1, 0, 1, 0, 1];
    assert ch[1..5] == [1, 0, 1, 0];
    assert SBox1[26] == 12;
  }

  lemma ChunkEx2b()
    ensures SubstituteChunk([0, 0, 1, 0, 1, 1], 1) == [0, 0, 1, 0]
  {
    var ch: seq<Bit> := [0, 0, 1, 0, 1, 1];
    assert ch[1..5] == [0, 1, 0, 1];
    assert SBox2[21] == 2;
  }

  lemma ChunkEx3a()
    ensures SubstituteChunk([1, 1, 0, 1, 1, 1], 0) == [1, 1, 1, 0]
  {
    var ch: seq<Bit> := [1, 1, 0, 1, 1, 1];
    assert ch[1..5] == [1, 0, 1, 1];
    assert SBox1[59] == 14;
  }

  lemma ChunkEx3b()
    ensures SubstituteChunk([1, 1, 1, 0, 1, 1], 1) == [0, 1, 0, 1]
  {
    var ch: seq<Bit> := [1, 1, 1, 0, 1, 1];
    assert ch[1..5] == [1, 1, 0, 1];
    assert SBox2[61] == 5;
  }

  /** The first worked example of `_substitute`'s documentation. */
  lemma SubstituteExample1()
    ensures Substitute([1, 1, 1, 1, 1, 1, 0, 0, 0, 0, 0, 0], 0) == [1, 1, 0, 1, 1, 1, 1, 1]
  {
    var a: seq<Bit> := [1, 1, 1, 1, 1, 1];
    var b: seq<Bit> := [0, 0, 0, 0, 0, 0];
    assert a + b == [1, 1, 1, 1, 1, 1, 0, 0, 0, 0, 0, 0];
    SubstituteTwo(a, b);
    ChunkEx1a();
    ChunkEx1b();
  }

  /** The second worked example of `_substitute`'s documentation. */
  lemma SubstituteExample2()
    ensures Substitute([0, 1, 0, 1, 0, 1, 0, 0, 1, 0, 1, 1], 0) == [1, 1, 0, 0, 0, 0, 1, 0]
  {
    var a: seq<Bit> := [0, 1, 0, 1, 0, 1];
    var b: seq<Bit> := [0, 0, 1, 0, 1, 1];
    assert a + b == [0, 1, 0, 1, 0, 1, 0, 0, 1, 0, 1, 1];
    SubstituteTwo(a, b);
    ChunkEx2a();
    ChunkEx2b();
  }

  /** The third worked example of `_substitute`'s documentation. */
  lemma SubstituteExample3()
    ensures Substitute([1, 1, 0, 1, 1, 1, 1, 1, 1, 0, 1, 1], 0) == [1, 1, 1, 0, 0, 1, 0, 1]
  {
    var a: seq<Bit> := [1, 1, 0, 1, 1, 1];
    var b: seq<Bit> := [1, 1, 1, 0, 1, 1];
    assert a + b == [1, 1, 0, 1, 1, 1, 1, 1, 1, 0, 1, 1];
    SubstituteTwo(a, b);
    ChunkEx3a();
    ChunkEx3b();
  }

  /** `_f_function`: expand the half to 48 bits, mix in the subkey, substitute
      through the eight S-boxes, permute. */
  function F(r: Half, k: Subkey): Half
  {
    var s := Substitute(Xor(Permute(r, Expand), k), 0);
    Permute(s, Contract)
  }

  // ---------------------------------------------------------------------------
  // Key schedule
  // ---------------------------------------------------------------------------

  /** The 56 key bits PC-1 selects, as the two 28-bit halves C and D (the
      source calls them `rightWing` and `leftWing`). */
  function KeyHalves(key: seq<Byte>): (cd: (HalfKey, HalfKey))
    requires |key| >= 8
  {
    var pc1 := Permute(BytesToBits(key), KeyPermutation1);
    (pc1[..28], pc1[28..])
  }

  /** PC-2 applied to the concatenated halves. */
  function Pc2(c: HalfKey, d: HalfKey): Subkey
  {
    var cd: seq<Bit> := c + d;
    Permute(cd, KeyPermutation2)
  }

  type HalfKey = h: seq<Bit> | |h| == 28 witness Zeros(28)

  /** The rotation part of the loop of `_generate_subkeys`: before each round
      both halves are rotated left by that round's shift; the result lists the
      halves as they stand in each round. */
  function RotatedHalves(c: HalfKey, d: HalfKey, shifts: seq<nat>): (r: seq<(HalfKey, HalfKey)>)
    ensures |r| == |shifts|
    decreases |shifts|
  {
    if |shifts| == 0 then []
    else
      var c1 := LShift(c, shifts[0]);
      var d1 := LShift(d, shifts[0]);
      [(c1, d1)] + RotatedHalves(c1, d1, shifts[1..])
  }

  /** `_generate_subkeys` as written: the loop rotates both halves by the
      round's shift and appends PC-2 of the result, round after round. The
      key bits beyond the first 64 are never looked at; a key shorter than 8
      bytes makes PC-1 index past the end of the bit list, which callers
      report as an IndexError. */
  function GenerateSubkeys(key: seq<Byte>): (ks: Schedule)
    requires |key| >= 8
  {
    var (c, d) := KeyHalves(key);
    Pc2Each(RotatedHalves(c, d, KeyShift))
  }

  /** The key schedule of the DES standard in closed form: subkey `i` is PC-2
      of the PC-1 halves each rotated by the shifts of rounds `0..i`
      together. The rest of the model uses this form; `KeyScheduleIsLoop`
      shows it is what the loop computes. */
  function KeySchedule(key: seq<Byte>): (ks: Schedule)
    requires |key| >= 8
  {
    var h := KeyHalves(key);
    seq(16, i requires 0 <= i < 16 => RoundSubkey(h.0, h.1, i))
  }

  /** Subkey `i` of the closed form. */
  function RoundSubkey(c: HalfKey, d: HalfKey, i: nat): Subkey
    requires i < 16
  {
    Pc2(LShift(c, TotalShift(i + 1)), LShift(d, TotalShift(i + 1)))
  }

  /** PC-2 of each round's halves. */
  function Pc2Each(halves: seq<(HalfKey, HalfKey)>): (r: seq<Subkey>)
    ensures |r| == |halves|
    ensures forall i :: 0 <= i < |halves| ==> r[i] == Pc2(halves[i].0, halves[i].1)
  {
    seq(|halves|, i requires 0 <= i < |halves| => Pc2(halves[i].0, halves[i].1))
  }

  function Sum(s: seq<nat>): nat
  {
    if |s| == 0 then 0 else s[0] + Sum(s[1..])
  }

  lemma {:induction false} SumPrefix(s: seq<nat>, k: nat)
    requires k <= |s|
    ensures Sum(s[..k]) <= Sum(s)
  {
    if k > 0 {
      assert s[..k][1..] == s[1..][..k - 1];
      SumPrefix(s[1..], k - 1);
    }
  }

  /** How far each half has been rotated after `n` rounds: the running sum of
      the shift table. */
  function TotalShift(n: nat): nat
    requires n <= 16
  {
    Sum(KeyShift[..n])
  }

  lemma {:induction false} SumAppend(a: seq<nat>, b: seq<nat>)
    ensures Sum(a + b) == Sum(a) + Sum(b)
  {
    if |a| > 0 {
      assert (a + b)[1..] == a[1..] + b;
      SumAppend(a[1..], b);
    } else {
      assert a + b == b;
    }
  }

  lemma {:induction false} SumConst(v: nat, n: nat)
    ensures Sum(seq(n, _ => v)) == n * v
  {
    if n > 0 {
      assert seq(n, _ => v)[1..] == seq(n - 1, _ => v);
      SumConst(v, n - 1);
    }
  }

  /** The shift table adds up to 28, a full turn of a 28-bit half: it is two
      ones, six twos, a one, six twos and a one. */
  lemma KeyShiftSum()
    ensures Sum(KeyShift) == 28
  {
    var ones, twos, one := seq(2, _ => 1), seq(6, _ => 2), seq(1, _ => 1);
    assert KeyShift == ones + twos + one + twos + one;
    SumConst(1, 2);
    SumConst(2, 6);
    SumConst(1, 1);
    SumAppend(ones + twos + one + twos, one);
    SumAppend(ones + twos + one, twos);
    SumAppend(ones + twos, one);
    SumAppend(ones, twos);
  }

  /** A rotation by the full length is the identity. */
  lemma LShiftFull<T>(c: seq<T>)
    ensures LShift(c, |c|) == c
  {
    assert c[|c|..] == [] && c[..|c|] == c;
  }

  /** After all sixteen rounds each half has turned a full circle. */
  lemma HalvesReturn(c: HalfKey)
    ensures LShift(c, TotalShift(16)) == c
  {
    KeyShiftSum();
    assert KeyShift[..16] == KeyShift;
    LShiftFull(c);
  }

  /** The loop's rotations accumulate: subkey `j` uses the halves rotated by
      the shifts of rounds `0..j` together, as long as the shifts never add up
      past a full turn. */
  lemma {:induction false} HalvesRotation(c: HalfKey, d: HalfKey, shifts: seq<nat>, j: nat)
    requires j < |shifts| && Sum(shifts) <= 28
    ensures RotatedHalves(c, d, shifts)[j] == (LShift(c, Sum(shifts[..j + 1])), LShift(d, Sum(shifts[..j + 1])))
    decreases j
  {
    var c1 := LShift(c, shifts[0]);
    var d1 := LShift(d, shifts[0]);
    var rest := shifts[1..];
    assert Sum(shifts) == shifts[0] + Sum(rest);
    if j > 0 {
      var m := Sum(rest[..j]);
      assert Sum(shifts[..j + 1]) == shifts[0] + m by {
        assert shifts[..j + 1][1..] == rest[..j];
      }
      assert shifts[0] + m <= 28 by {
        SumPrefix(rest, j);
      }
      HalvesRotation(c1, d1, rest, j - 1);
      LShiftCompose(c, shifts[0], m);
      LShiftCompose(d, shifts[0], m);
      assert RotatedHalves(c, d, shifts)[j] == RotatedHalves(c1, d1, rest)[j - 1];
    } else {
      assert shifts[..1][1..] == [];
    }
  }

  /** Round `i` of the loop produces PC-2 of the halves rotated by the
      running shift sum, subkey `i` of the closed form. */
  lemma KeyScheduleAt(key: seq<Byte>, i: nat)
    requires |key| >= 8 && i < 16
    ensures GenerateSubkeys(key)[i] == RoundSubkey(KeyHalves(key).0, KeyHalves(key).1, i)
  {
    KeyShiftSum();
    HalvesRotation(KeyHalves(key).0, KeyHalves(key).1, KeyShift, i);
  }

  /** The loop of `_generate_subkeys` computes the closed-form schedule:
      the rotations of the loop accumulate to the running shift sums. */
  lemma KeyScheduleIsLoop(key: seq<Byte>)
    requires |key| >= 8
    ensures GenerateSubkeys(key) == KeySchedule(key)
  {
    forall i | 0 <= i < 16
      ensures GenerateSubkeys(key)[i] == KeySchedule(key)[i]
    {
      KeyScheduleAt(key, i);
    }
  }

  /** The subkeys depend on the first eight key bytes only. */
  lemma KeyPrefixOnly(key: seq<Byte>)
    requires |key| >= 8
    ensures KeySchedule(key) == KeySchedule(key[..8])
  {
    BytesToBitsSlice(key, 0, 8);
    var b := BytesToBits(key);
    var b8 := BytesToBits(key[..8]);
    assert key[0..8] == key[..8];
    assert Permute(b, KeyPermutation1) == Permute(b8, KeyPermutation1);
  }

  /** `_triple_generate_subkeys`: the three schedules arranged for EDE
      encryption (forward, reversed, forward) or for decryption (reversed,
      forward, reversed). */
  function TripleSubkeys(k1: seq<Byte>, k2: seq<Byte>, k3: seq<Byte>, decrypt: bool): (s: seq<Schedule>)
    requires |k1| >= 8 && |k2| >= 8 && |k3| >= 8
    ensures |s| == 3
  {
    var s1 := KeySchedule(k1);
    var s2 := KeySchedule(k2);
    var s3 := KeySchedule(k3);
    if !decrypt then [s1, ReverseSchedule(s2), s3]
    else [ReverseSchedule(s1), s2, ReverseSchedule(s3)]
  }

  /** `list(reversed(subkeys))`: the schedule that undoes this one. */
  function ReverseSchedule(ks: Schedule): Schedule
  {
    Reverse(ks)
  }

  // ---------------------------------------------------------------------------
  // One block
  // ---------------------------------------------------------------------------

  /** IP and IP^-1 undo each other, in both orders. */
  lemma InitFinalInverse(b: Block)
    ensures Permute(Permute(b, InitPermutation), FinalPermutation) == b
    ensures Permute(Permute(b, FinalPermutation), InitPermutation) == b
  {
    PermutationTablesInverse();
    PermuteInverse(b, InitPermutation, FinalPermutation);
    PermuteInverse(b, FinalPermutation, InitPermutation);
  }

  /** `_encrypt_block`: IP, sixteen rounds with `subkeys[0..16]` in order,
      swap the halves, IP^-1. Decryption is the same function with the
      subkey list reversed. */
  function EncryptBlock(b: Block, ks: Schedule): (c: Block)
  {
    PermutationTablesInverse();
    BlockCipher(b, InitPermutation, FinalPermutation, ks, F)
  }

  /** Encrypting with the reversed schedule undoes encrypting with the
      schedule, whatever the subkeys are. */
  lemma BlockRoundTrip(b: Block, ks: Schedule)
    ensures EncryptBlock(EncryptBlock(b, ks), Reverse(ks)) == b
  {
    PermutationTablesInverse();
    assert InverseTables(InitPermutation, FinalPermutation);
    BlockCipherReversal(b, InitPermutation, FinalPermutation, ks, F);
  }

  /** Since reversing twice is the identity, the two directions can be taken
      in either order. */
  lemma BlockRoundTripReversed(b: Block, ks: Schedule)
    ensures EncryptBlock(EncryptBlock(b, Reverse(ks)), ks) == b
  {
    BlockRoundTrip(b, Reverse(ks));
    ReverseReverse(ks);
  }
}
