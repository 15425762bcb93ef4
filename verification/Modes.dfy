/** The three block modes of `desCore.py` and `tDesCore.py`, written once over
    an arbitrary block function `e` on 64-bit blocks (single DES with one
    schedule, or the three-pass EDE composition). The data is a bit string
    walked 64 bits at a time, as `_nsplit(bits, 64)` hands it out. */
module Modes {
  import opened Bits
  import opened Results
  import opened Padding
  import opened Feistel

  /** Block `j` of a bit string cut into 64-bit blocks. */
  function BlockAt(bits: seq<Bit>, j: nat): Block
    requires 64 * j + 64 <= |bits|
  {
    bits[64 * j..64 * j + 64]
  }

  /** Block `j` of the bits after the first block is block `j + 1` of the whole. */
  lemma BlockAtRest(bits: seq<Bit>, j: nat)
    requires 64 * j + 128 <= |bits|
    ensures BlockAt(bits[64..], j) == BlockAt(bits, j + 1)
  {
  }

  /** Block `j + 1` of `x + rest`, with `x` one block long, is block `j` of `rest`. */
  lemma BlockAtAfter(x: Block, rest: seq<Bit>, j: nat)
    requires 64 * j + 64 <= |rest|
    ensures BlockAt(x + rest, j + 1) == BlockAt(rest, j)
  {
    assert (x + rest)[64 * j + 64..64 * j + 128] == rest[64 * j..64 * j + 64];
  }

  /** Three block functions applied one after the other, `f` first. */
  function Compose3(f: Block -> Block, g: Block -> Block, h: Block -> Block): Block -> Block
  {
    b => h(g(f(b)))
  }

  /** Undoing three passes in the opposite order undoes their composition. */
  lemma Compose3Inverse(f: Block -> Block, g: Block -> Block, h: Block -> Block,
                        f1: Block -> Block, g1: Block -> Block, h1: Block -> Block)
    requires forall b: Block :: f1(f(b)) == b
    requires forall b: Block :: g1(g(b)) == b
    requires forall b: Block :: h1(h(b)) == b
    ensures forall b: Block :: Compose3(h1, g1, f1)(Compose3(f, g, h)(b)) == b
  {
    forall b: Block
      ensures Compose3(h1, g1, f1)(Compose3(f, g, h)(b)) == b
    {
      var x := f(b);
      var y := g(x);
      assert Compose3(f, g, h)(b) == h(y);
      assert Compose3(h1, g1, f1)(h(y)) == f1(g1(h1(h(y))));
    }
  }

  /** When the middle pass undoes the first, the last pass is all that is
      left. */
  lemma Compose3Collapse(f: Block -> Block, g: Block -> Block, h: Block -> Block)
    requires forall b: Block :: g(f(b)) == b
    ensures forall b: Block :: Compose3(f, g, h)(b) == h(b)
  {
  }

  // ---------------------------------------------------------------------------
  // ECB
  // ---------------------------------------------------------------------------

  /** ECB: every block goes through the block function on its own. */
  function Ecb(bits: seq<Bit>, e: Block -> Block): (r: seq<Bit>)
    requires |bits| % 64 == 0
    ensures |r| == |bits|
    decreases |bits|
  {
    if |bits| == 0 then [] else e(bits[..64]) + Ecb(bits[64..], e)
  }

  /** Ciphertext block `j` is the block function of plaintext block `j` and of
      nothing else, so equal plaintext blocks give equal ciphertext blocks. */
  lemma {:induction false} EcbBlocks(bits: seq<Bit>, e: Block -> Block, j: nat)
    requires |bits| % 64 == 0 && 64 * j + 64 <= |bits|
    ensures BlockAt(Ecb(bits, e), j) == e(BlockAt(bits, j))
    decreases j
  {
    var x := e(bits[..64]);
    if j == 0 {
      assert BlockAt(x + Ecb(bits[64..], e), 0) == x;
    } else {
      EcbBlocks(bits[64..], e, j - 1);
      BlockAtAfter(x, Ecb(bits[64..], e), j - 1);
      BlockAtRest(bits, j - 1);
    }
  }

  /** ECB with a block function that another one undoes is undone by ECB with
      that other function. */
  lemma {:induction false} EcbRoundTrip(bits: seq<Bit>, e: Block -> Block, d: Block -> Block)
    requires |bits| % 64 == 0
    requires forall b: Block :: d(e(b)) == b
    ensures Ecb(Ecb(bits, e), d) == bits
    decreases |bits|
  {
    if |bits| > 0 {
      var x: seq<Bit> := e(bits[..64]);
      var rest := Ecb(bits[64..], e);
      assert (x + rest)[..64] == x && (x + rest)[64..] == rest;
      EcbRoundTrip(bits[64..], e, d);
      assert bits[..64] + bits[64..] == bits;
    }
  }

  /** Two block functions that agree on every block give the same ECB output. */
  lemma {:induction false} EcbAgree(bits: seq<Bit>, e1: Block -> Block, e2: Block -> Block)
    requires |bits| % 64 == 0
    requires forall b: Block :: e1(b) == e2(b)
    ensures Ecb(bits, e1) == Ecb(bits, e2)
    decreases |bits|
  {
    if |bits| > 0 {
      EcbAgree(bits[64..], e1, e2);
    }
  }

  // ---------------------------------------------------------------------------
  // CBC
  // ---------------------------------------------------------------------------

  /** CBC encryption: each plaintext block is XORed with the previous
      ciphertext block (the IV for the first) and then encrypted. The block
      routine reads only the first 64 bits of what it is given, so an IV
      longer than a block contributes only its first 64 bits. */
  function CbcEncrypt(bits: seq<Bit>, iv: seq<Bit>, e: Block -> Block): (r: seq<Bit>)
    requires |bits| % 64 == 0
    ensures |r| == |bits|
    decreases |bits|
  {
    if |bits| == 0 then []
    else
      var c := e(Xor(bits[..64], iv)[..64]);
      c + CbcEncrypt(bits[64..], c, e)
  }

  /** CBC decryption: each ciphertext block is decrypted and XORed with the
      previous ciphertext block (the IV for the first). XOR keeps the longer
      operand's tail, so an IV longer than a block lengthens the first output
      block by its excess. */
  function CbcDecrypt(bits: seq<Bit>, iv: seq<Bit>, d: Block -> Block): (r: seq<Bit>)
    requires |bits| % 64 == 0
    ensures |bits| == 0 ==> r == []
    ensures |bits| > 0 ==> |r| == |bits| - 64 + Max(64, |iv|)
    decreases |bits|
  {
    if |bits| == 0 then []
    else Xor(d(bits[..64]), iv) + CbcDecrypt(bits[64..], bits[..64], d)
  }

  /** The chaining equation C_j = E(P_j xor C_(j-1)), with C_(-1) the IV. */
  lemma {:induction false} CbcEncryptChain(bits: seq<Bit>, iv: Block, e: Block -> Block, j: nat)
    requires |bits| % 64 == 0 && 64 * j + 64 <= |bits|
    ensures var c := CbcEncrypt(bits, iv, e);
            BlockAt(c, j) == e(Xor(BlockAt(bits, j), if j == 0 then iv else BlockAt(c, j - 1)))
    decreases j
  {
    var c0 := e(Xor(bits[..64], iv)[..64]);
    var rest := CbcEncrypt(bits[64..], c0, e);
    assert CbcEncrypt(bits, iv, e) == c0 + rest;
    if j == 0 {
      assert BlockAt(c0 + rest, 0) == c0;
      assert BlockAt(bits, 0) == bits[..64];
      assert Xor(bits[..64], iv)[..64] == Xor(bits[..64], iv);
    } else {
      CbcEncryptChain(bits[64..], c0, e, j - 1);
      BlockAtAfter(c0, rest, j - 1);
      BlockAtRest(bits, j - 1);
      if j > 1 {
        BlockAtAfter(c0, rest, j - 2);
      } else {
        assert BlockAt(c0 + rest, 0) == c0;
      }
    }
  }

  /** The decryption equation P_j = D(C_j) xor C_(j-1), with C_(-1) the IV. */
  lemma {:induction false} CbcDecryptChain(bits: seq<Bit>, iv: Block, d: Block -> Block, j: nat)
    requires |bits| % 64 == 0 && 64 * j + 64 <= |bits|
    ensures BlockAt(CbcDecrypt(bits, iv, d), j)
         == Xor(d(BlockAt(bits, j)), if j == 0 then iv else BlockAt(bits, j - 1))
    decreases j
  {
    var p0 := Xor(d(bits[..64]), iv);
    var rest := CbcDecrypt(bits[64..], bits[..64], d);
    if j == 0 {
      assert BlockAt(p0 + rest, 0) == p0;
    } else {
      CbcDecryptChain(bits[64..], bits[..64], d, j - 1);
      BlockAtAfter(p0, rest, j - 1);
      BlockAtRest(bits, j - 1);
      if j > 1 {
        BlockAtRest(bits, j - 2);
      }
    }
  }

  /** With an IV of at most one block, CBC decryption undoes CBC encryption:
      a shorter IV chains only into the leading bits of the first block, and
      XOR leaves the rest of that block as it was on both sides. */
  lemma {:induction false} CbcRoundTrip(bits: seq<Bit>, iv: seq<Bit>, e: Block -> Block, d: Block -> Block)
    requires |bits| % 64 == 0 && |iv| <= 64
    requires forall b: Block :: d(e(b)) == b
    ensures CbcDecrypt(CbcEncrypt(bits, iv, e), iv, d) == bits
    decreases |bits|
  {
    if |bits| > 0 {
      var x := Xor(bits[..64], iv);
      var c := e(x[..64]);
      var cs: seq<Bit> := c;
      var rest := CbcEncrypt(bits[64..], c, e);
      assert (cs + rest)[..64] == c && (cs + rest)[64..] == rest;
      assert x[..64] == x;
      XorCancel(bits[..64], iv);
      CbcRoundTrip(bits[64..], c, e, d);
      assert bits[..64] + bits[64..] == bits;
    }
  }

  /** With an IV longer than a block, decryption XORs the whole IV into the
      first decrypted block, so the IV's bits past the first 64 come out
      between the first plaintext block and the rest. */
  lemma {:induction false} CbcLongIv(bits: seq<Bit>, iv: seq<Bit>, e: Block -> Block, d: Block -> Block)
    requires |bits| % 64 == 0 && |bits| > 0 && |iv| >= 64
    requires forall b: Block :: d(e(b)) == b
    ensures CbcDecrypt(CbcEncrypt(bits, iv, e), iv, d) == bits[..64] + iv[64..] + bits[64..]
  {
    var x := Xor(bits[..64], iv);
    var c := e(x[..64]);
    var cs: seq<Bit> := c;
    var rest := CbcEncrypt(bits[64..], c, e);
    assert (cs + rest)[..64] == c && (cs + rest)[64..] == rest;
    XorPrefixCancel(bits[..64], iv);
    CbcRoundTrip(bits[64..], c, e, d);
  }

  /** Encryption reads only the first block of the IV. */
  lemma {:induction false} CbcIvPrefix(bits: seq<Bit>, iv: seq<Bit>, e: Block -> Block)
    requires |bits| % 64 == 0 && |iv| >= 64
    ensures CbcEncrypt(bits, iv, e) == CbcEncrypt(bits, iv[..64], e)
  {
    if |bits| > 0 {
      var a, b := Xor(bits[..64], iv)[..64], Xor(bits[..64], iv[..64]);
      assert |a| == |b|;
      forall i | 0 <= i < 64
        ensures a[i] == b[i]
      {
      }
      assert a == b;
      assert b[..64] == b;
      assert CbcEncrypt(bits, iv, e) == e(a) + CbcEncrypt(bits[64..], e(a), e);
      assert CbcEncrypt(bits, iv[..64], e) == e(b) + CbcEncrypt(bits[64..], e(b), e);
    }
  }

  // ---------------------------------------------------------------------------
  // OFB
  // ---------------------------------------------------------------------------

  /** The OFB keystream block O_j: O_0 is the IV and O_(j+1) = E(O_j). */
  function Keystream(o: Block, j: nat, e: Block -> Block): Block
    decreases j
  {
    if j == 0 then o else Keystream(e(o), j - 1, e)
  }

  /** Each keystream block is the block function of the one before. */
  lemma {:induction false} KeystreamStep(o: Block, j: nat, e: Block -> Block)
    ensures Keystream(o, j + 1, e) == e(Keystream(o, j, e))
    decreases j
  {
    if j > 0 {
      KeystreamStep(e(o), j - 1, e);
    }
  }

  /** OFB as `tDesCore.py` writes it: the chained value is encrypted once per
      block and the block is XORed with as much of it as the block is long,
      so the output is as long as the input. */
  function Ofb(bits: seq<Bit>, o: Block, e: Block -> Block): (r: seq<Bit>)
    ensures |r| == |bits|
    decreases |bits|
  {
    if |bits| == 0 then []
    else
      var o1 := e(o);
      var n := Min(64, |bits|);
      Xor(bits[..n], o1[..n]) + Ofb(bits[n..], o1, e)
  }

  /** OFB as `desCore.py` writes it: the block is XORed with the whole
      keystream block, so a short final block comes out a full 64 bits long,
      ending in keystream bits. */
  function OfbWhole(bits: seq<Bit>, o: Block, e: Block -> Block): (r: seq<Bit>)
    ensures |r| == 64 * ((|bits| + 63) / 64)
    decreases |bits|
  {
    if |bits| == 0 then []
    else
      var o1 := e(o);
      var n := Min(64, |bits|);
      Xor(bits[..n], o1) + OfbWhole(bits[n..], o1, e)
  }

  /** On whole blocks the two OFB loops agree. */
  lemma {:induction false} OfbWholeAgrees(bits: seq<Bit>, o: Block, e: Block -> Block)
    requires |bits| % 64 == 0
    ensures OfbWhole(bits, o, e) == Ofb(bits, o, e)
    decreases |bits|
  {
    if |bits| > 0 {
      var o1 := e(o);
      assert o1[..64] == o1;
      OfbWholeAgrees(bits[64..], o1, e);
    }
  }

  /** OFB unfolded at a whole first block. */
  lemma OfbHead(bits: seq<Bit>, o: Block, e: Block -> Block)
    requires |bits| >= 64
    ensures Ofb(bits, o, e) == Xor(bits[..64], e(o)) + Ofb(bits[64..], e(o), e)
  {
    assert e(o)[..64] == e(o);
  }

  /** The first OFB block is the first input block XOR the first keystream
      block. */
  lemma OfbFirstBlock(bits: seq<Bit>, o: Block, e: Block -> Block)
    requires |bits| >= 64
    ensures BlockAt(Ofb(bits, o, e), 0) == Xor(BlockAt(bits, 0), e(o))
  {
    var x := Xor(bits[..64], e(o));
    OfbHead(bits, o, e);
    assert (x + Ofb(bits[64..], e(o), e))[..64] == x;
  }

  /** A later OFB block is the block before it in OFB of the rest, started
      from the next keystream block. */
  lemma OfbLaterBlock(bits: seq<Bit>, o: Block, e: Block -> Block, j: nat)
    requires j > 0 && 64 * j + 64 <= |bits|
    ensures BlockAt(Ofb(bits, o, e), j) == BlockAt(Ofb(bits[64..], e(o), e), j - 1)
    ensures BlockAt(bits[64..], j - 1) == BlockAt(bits, j)
  {
    OfbTail(bits, o, e);
    BlockAtRest(Ofb(bits, o, e), j - 1);
    BlockAtRest(bits, j - 1);
  }

  /** Past a whole first block, OFB goes on with the next keystream block. */
  lemma OfbTail(bits: seq<Bit>, o: Block, e: Block -> Block)
    requires |bits| >= 64
    ensures Ofb(bits, o, e)[64..] == Ofb(bits[64..], e(o), e)
  {
    var x := Xor(bits[..64], e(o));
    OfbHead(bits, o, e);
    assert (x + Ofb(bits[64..], e(o), e))[64..] == Ofb(bits[64..], e(o), e);
  }

  /** Output block `j` is input block `j` XORed with keystream block O_(j+1):
      the keystream depends on the IV and the block function only. */
  lemma {:induction false} OfbBlocks(bits: seq<Bit>, o: Block, e: Block -> Block, j: nat)
    requires 64 * j + 64 <= |bits|
    ensures BlockAt(Ofb(bits, o, e), j) == Xor(BlockAt(bits, j), Keystream(o, j + 1, e))
    decreases j
  {
    if j == 0 {
      OfbFirstBlock(bits, o, e);
    } else {
      OfbLaterBlock(bits, o, e, j);
      OfbBlocks(bits[64..], e(o), e, j - 1);
    }
  }

  /** OFB is its own inverse: the same keystream XORed in twice cancels. */
  lemma {:induction false} OfbInvolution(bits: seq<Bit>, o: Block, e: Block -> Block)
    ensures Ofb(Ofb(bits, o, e), o, e) == bits
    decreases |bits|
  {
    if |bits| > 0 {
      var n := Min(64, |bits|);
      calc {
        Ofb(Ofb(bits, o, e), o, e);
        { OfbTwiceStep(bits, o, e); }
        bits[..n] + Ofb(Ofb(bits[n..], e(o), e), e(o), e);
        { OfbInvolution(bits[n..], e(o), e); }
        bits[..n] + bits[n..];
        bits;
      }
    }
  }

  /** OFB applied twice gives the first block back, followed by OFB applied
      twice to the rest. */
  lemma OfbTwiceStep(bits: seq<Bit>, o: Block, e: Block -> Block)
    requires |bits| > 0
    ensures var o1, n := e(o), Min(64, |bits|);
      Ofb(Ofb(bits, o, e), o, e) == bits[..n] + Ofb(Ofb(bits[n..], o1, e), o1, e)
  {
    var o1 := e(o);
    var n := Min(64, |bits|);
    var x := Xor(bits[..n], o1[..n]);
    var rest := Ofb(bits[n..], o1, e);
    assert (x + rest)[..n] == x && (x + rest)[n..] == rest;
    XorCancel(bits[..n], o1[..n]);
  }

  // ---------------------------------------------------------------------------
  // The byte interface: bytes to bits, a mode, bits back to bytes
  // ---------------------------------------------------------------------------

  /** Whole bytes in multiples of eight make whole 64-bit blocks. */
  lemma WholeBlockBits(bytes: seq<Byte>)
    requires |bytes| % 8 == 0
    ensures |BytesToBits(bytes)| % 64 == 0
  {
    var q := |bytes| / 8;
    assert |BytesToBits(bytes)| == 64 * q;
  }

  /** The padded message is one whole block longer than the whole blocks of
      the message, and as bits it is whole blocks. */
  lemma PaddedBits(data: seq<Byte>)
    ensures |AddPadding(data)| == 8 * (|data| / 8 + 1)
    ensures |BytesToBits(AddPadding(data))| % 64 == 0
  {
    WholeBlockBits(AddPadding(data));
  }

  /** Whole 64-bit blocks needed for `n` bytes, counted in bits and in bytes. */
  lemma BlockCount(n: nat)
    ensures (8 * n + 63) / 64 == (n + 7) / 8
  {
    var q, r := (n + 7) / 8, (n + 7) % 8;
    DivModUnique(8 * n + 63, 64, q, 8 * r + 7);
  }

  /** ECB-encrypt bytes that are already whole blocks; the ciphertext is as
      long as the input. */
  function EcbWholeBytes(data: seq<Byte>, e: Block -> Block): (r: seq<Byte>)
    requires |data| % 8 == 0
    ensures |r| == |data|
    ensures BytesToBits(r) == Ecb(BytesToBits(data), e)
  {
    WholeBlockBits(data);
    var out := Ecb(BytesToBits(data), e);
    BitsToBytesLength(out, |data|);
    BitsToBytes(out)
  }

  /** Pad, then ECB-encrypt; the ciphertext is as long as the padded message. */
  function EcbEncryptBytes(data: seq<Byte>, e: Block -> Block): (r: seq<Byte>)
    ensures |r| == |AddPadding(data)|
  {
    EcbWholeBytes(AddPadding(data), e)
  }

  /** ECB-decrypt whole blocks, then strip the padding; empty data has no
      last byte to read the padding length from. */
  function EcbDecryptBytes(data: seq<Byte>, d: Block -> Block): (r: Result<seq<Byte>>)
    requires |data| % 8 == 0
    ensures r.Ok? <==> |data| > 0
    ensures r.Err? ==> r.error == IndexError
  {
    WholeBlockBits(data);
    var out := Ecb(BytesToBits(data), d);
    BitsToBytesLength(out, |data|);
    RemPadding(BitsToBytes(out))
  }

  /** Byte-level ECB round trip, for any pair of mutually undoing block
      functions. */
  lemma EcbBytesRoundTrip(data: seq<Byte>, e: Block -> Block, d: Block -> Block)
    requires forall b: Block :: d(e(b)) == b
    ensures EcbDecryptBytes(EcbEncryptBytes(data, e), d) == Ok(data)
  {
    PaddedBits(data);
    var p := BytesToBits(AddPadding(data));
    var c := Ecb(p, e);
    BitsToBytesLength(c, |AddPadding(data)|);
    var ct := BitsToBytes(c);
    assert EcbEncryptBytes(data, e) == ct;
    EcbRoundTrip(p, e, d);
    BytesBitsRoundTrip(AddPadding(data));
    PaddingRoundTrip(data);
  }

  /** CBC-encrypt bytes that are already whole blocks, chaining from `iv`
      (any bit string; see `CbcEncrypt`). */
  function CbcWholeBytes(data: seq<Byte>, iv: seq<Bit>, e: Block -> Block): (r: seq<Byte>)
    requires |data| % 8 == 0
    ensures |r| == |data|
    ensures BytesToBits(r) == CbcEncrypt(BytesToBits(data), iv, e)
  {
    WholeBlockBits(data);
    var out := CbcEncrypt(BytesToBits(data), iv, e);
    BitsToBytesLength(out, |data|);
    BitsToBytes(out)
  }

  /** Pad, then CBC-encrypt from the IV's bits. */
  function CbcEncryptBytes(data: seq<Byte>, iv: seq<Byte>, e: Block -> Block): (r: seq<Byte>)
    ensures |r| == |AddPadding(data)|
  {
    CbcWholeBytes(AddPadding(data), BytesToBits(iv), e)
  }

  /** CBC-decrypt whole blocks from the IV's bits, then strip the padding. */
  function CbcDecryptBytes(data: seq<Byte>, iv: seq<Byte>, d: Block -> Block): (r: Result<seq<Byte>>)
    requires |data| % 8 == 0
    ensures r.Ok? <==> |data| > 0
    ensures r.Err? ==> r.error == IndexError
  {
    WholeBlockBits(data);
    var out := CbcDecrypt(BytesToBits(data), BytesToBits(iv), d);
    BitsToBytesLength(out, if |data| == 0 then 0 else |data| - 8 + Max(8, |iv|));
    RemPadding(BitsToBytes(out))
  }

  /** Byte-level CBC round trip with an IV of at most eight bytes. */
  lemma CbcBytesRoundTrip(data: seq<Byte>, iv: seq<Byte>, e: Block -> Block, d: Block -> Block)
    requires |iv| <= 8
    requires forall b: Block :: d(e(b)) == b
    ensures CbcDecryptBytes(CbcEncryptBytes(data, iv, e), iv, d) == Ok(data)
  {
    PaddedBits(data);
    var p := BytesToBits(AddPadding(data));
    var c := CbcEncrypt(p, BytesToBits(iv), e);
    BitsToBytesLength(c, |AddPadding(data)|);
    var ct := BitsToBytes(c);
    assert CbcEncryptBytes(data, iv, e) == ct;
    CbcRoundTrip(p, BytesToBits(iv), e, d);
    BytesBitsRoundTrip(AddPadding(data));
    PaddingRoundTrip(data);
  }

  /** Byte-level CBC with an IV longer than eight bytes: for a message of at
      least one block, decryption of the ciphertext returns the message with
      the IV's bytes past the eighth inserted after its first eight bytes. */
  lemma CbcBytesLongIv(data: seq<Byte>, iv: seq<Byte>, e: Block -> Block, d: Block -> Block)
    requires |iv| > 8 && |data| >= 8
    requires forall b: Block :: d(e(b)) == b
    ensures CbcDecryptBytes(CbcEncryptBytes(data, iv, e), iv, d) == Ok(data[..8] + iv[8..] + data[8..])
  {
    PaddedBits(data);
    var pad := AddPadding(data);
    var p := BytesToBits(pad);
    var v := BytesToBits(iv);
    var c := CbcEncrypt(p, v, e);
    BitsToBytesLength(c, |pad|);
    assert CbcEncryptBytes(data, iv, e) == BitsToBytes(c);
    CbcLongIv(p, v, e, d);
    var m := pad[..8] + iv[8..] + pad[8..];
    BytesToBitsAppend(pad[..8] + iv[8..], pad[8..]);
    BytesToBitsAppend(pad[..8], iv[8..]);
    BytesToBitsSlice(pad, 0, 8);
    BytesToBitsSlice(pad, 8, |pad|);
    BytesToBitsSlice(iv, 8, |iv|);
    assert pad[0..8] == pad[..8] && pad[8..|pad|] == pad[8..] && iv[8..|iv|] == iv[8..];
    assert p[0..64] == p[..64] && p[64..|p|] == p[64..] && v[64..|v|] == v[64..];
    assert BytesToBits(m) == p[..64] + v[64..] + p[64..];
    BytesBitsRoundTrip(m);
    var ct := BitsToBytes(c);
    assert BytesToBits(ct) == c;
    assert CbcDecrypt(BytesToBits(ct), v, d) == BytesToBits(m);
    PaddingAfterInsert(data, iv[8..]);
  }

  /** Encryption reads only the first eight bytes of the IV. */
  lemma CbcBytesIvPrefix(data: seq<Byte>, iv: seq<Byte>, e: Block -> Block)
    requires |iv| >= 8
    ensures CbcEncryptBytes(data, iv, e) == CbcEncryptBytes(data, iv[..8], e)
  {
    PaddedBits(data);
    BytesToBitsSlice(iv, 0, 8);
    assert iv[0..8] == iv[..8];
    CbcIvPrefix(BytesToBits(AddPadding(data)), BytesToBits(iv), e);
  }

  /** OFB over bytes with whole keystream blocks, from an eight-byte IV; the
      output is rounded up to whole blocks. */
  function OfbWholeBytes(data: seq<Byte>, iv: seq<Byte>, e: Block -> Block): (r: seq<Byte>)
    requires |iv| == 8
    ensures |r| == 8 * ((|data| + 7) / 8)
    ensures |data| % 8 == 0 ==> |r| == |data|
  {
    var out := OfbWhole(BytesToBits(data), BytesToBits(iv), e);
    BlockCount(|data|);
    assert |data| % 8 == 0 ==> (|data| + 7) / 8 == |data| / 8;
    BitsToBytesLength(out, 8 * ((|data| + 7) / 8));
    BitsToBytes(out)
  }

  /** Applying whole-block OFB twice to whole blocks gives them back. */
  lemma OfbWholeBytesTwice(data: seq<Byte>, iv: seq<Byte>, e: Block -> Block)
    requires |iv| == 8 && |data| % 8 == 0
    ensures OfbWholeBytes(OfbWholeBytes(data, iv, e), iv, e) == data
  {
    var v: Block := BytesToBits(iv);
    var p := BytesToBits(data);
    WholeBlockBits(data);
    OfbWholeAgrees(p, v, e);
    var c := Ofb(p, v, e);
    BitsToBytesLength(c, |data|);
    var ct := BitsToBytes(c);
    assert OfbWholeBytes(data, iv, e) == ct;
    OfbWholeAgrees(c, v, e);
    OfbInvolution(p, v, e);
    BytesBitsRoundTrip(data);
  }

  /** OFB over bytes with the keystream cut to the data, from a one-block
      chained value; the output is as long as the input. */
  function OfbBytes(data: seq<Byte>, o: Block, e: Block -> Block): (r: seq<Byte>)
    ensures |r| == |data|
  {
    var out := Ofb(BytesToBits(data), o, e);
    BitsToBytesLength(out, |data|);
    BitsToBytes(out)
  }

  /** Byte-level OFB with the cut keystream is its own inverse. */
  lemma OfbBytesTwice(data: seq<Byte>, o: Block, e: Block -> Block)
    ensures OfbBytes(OfbBytes(data, o, e), o, e) == data
  {
    var p := BytesToBits(data);
    var c := Ofb(p, o, e);
    BitsToBytesLength(c, |data|);
    OfbInvolution(p, o, e);
    BytesBitsRoundTrip(data);
  }
}
