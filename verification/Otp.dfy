/** `TheSauce/otp.py`: the one-time pad, which XORs the bits of the data with
    the bits of the key over their common length and packs the result back
    into bytes. The bit conversion is `Bits.BytesToBits`, the same
    most-significant-first expansion both DES engines use. */
module Otp {
  import opened Bits

  /** `_bit_array_to_string`: every full group of eight bits becomes a byte,
      and a trailing partial group is dropped (the accumulator is only
      emitted at the eighth bit of a group). */
  function BitArrayToString(bits: seq<Bit>): (r: seq<Byte>)
    ensures |r| == |bits| / 8
    ensures BytesToBits(r) == bits[..8 * (|bits| / 8)]
    decreases |bits|
  {
    if |bits| < 8 then []
    else
      var rest := BitArrayToString(bits[8..]);
      BitsToNatToBits(bits[..8]);
      assert bits[8..][..8 * (|bits[8..]| / 8)] == bits[8..8 * (|bits| / 8)];
      [ByteOf(bits[..8])] + rest
  }

  /** Two byte strings with the same bits are equal. */
  lemma BytesToBitsInjective(a: seq<Byte>, b: seq<Byte>)
    requires BytesToBits(a) == BytesToBits(b)
    ensures a == b
  {
    BytesBitsRoundTrip(a);
    BytesBitsRoundTrip(b);
  }

  /** Packing inverts the bit expansion. */
  lemma BitArrayRoundTrip(bytes: seq<Byte>)
    ensures BitArrayToString(BytesToBits(bytes)) == bytes
  {
    var bits := BytesToBits(bytes);
    assert bits[..8 * (|bits| / 8)] == bits;
    BytesToBitsInjective(BitArrayToString(bits), bytes);
  }

  /** Up to seven bits after the last whole byte leave no trace in the
      output. */
  lemma BitArrayDropsPartialByte(bits: seq<Bit>, tail: seq<Bit>)
    requires |bits| % 8 == 0 && |tail| < 8
    ensures BitArrayToString(bits + tail) == BitArrayToString(bits)
  {
    var n := |bits| / 8;
    DivModUnique(|bits + tail|, 8, n, |tail|);
    assert (bits + tail)[..8 * n] == bits[..8 * n];
    BytesToBitsInjective(BitArrayToString(bits + tail), BitArrayToString(bits));
  }

  /** The bits of two bytes, XORed, packed into a byte. */
  function ByteXor(a: Byte, b: Byte): Byte
  {
    ByteOf(Xor(ByteToBits(a), ByteToBits(b)))
  }

  /** XOR-ing a byte in twice cancels. */
  lemma ByteXorCancel(a: Byte, b: Byte)
    ensures ByteXor(ByteXor(a, b), b) == a
  {
    var x := Xor(ByteToBits(a), ByteToBits(b));
    BitsToNatToBits(x);
    assert ByteToBits(ByteXor(a, b)) == x;
    XorCancel(ByteToBits(a), ByteToBits(b));
    ByteRoundTrip(a);
  }

  /** The pairs `zip` forms from two bit lists, XORed: as long as the shorter
      list. */
  function ZipXor(x: seq<Bit>, y: seq<Bit>): (r: seq<Bit>)
    ensures |r| == Min(|x|, |y|)
  {
    seq(Min(|x|, |y|), i requires 0 <= i < Min(|x|, |y|) => BitXor(x[i], y[i]))
  }

  /** The zipped XOR splits over inputs with equally long fronts. */
  lemma ZipXorAppend(a: seq<Bit>, b: seq<Bit>, x: seq<Bit>, y: seq<Bit>)
    requires |a| == |x|
    ensures ZipXor(a + b, x + y) == ZipXor(a, x) + ZipXor(b, y)
  {
    var r, s := ZipXor(a + b, x + y), ZipXor(a, x) + ZipXor(b, y);
    assert |r| == |s|;
    forall i | 0 <= i < |r|
      ensures r[i] == s[i]
    {
      if i >= |a| {
        assert (a + b)[i] == b[i - |a|] && (x + y)[i] == y[i - |a|];
      }
    }
  }

  /** On the bits of one byte each, the zipped XOR is the bits of the XORed
      byte. */
  lemma ZipXorOneByte(a: Byte, b: Byte)
    ensures ZipXor(ByteToBits(a), ByteToBits(b)) == ByteToBits(ByteXor(a, b))
  {
    var x := Xor(ByteToBits(a), ByteToBits(b));
    BitsToNatToBits(x);
    assert ZipXor(ByteToBits(a), ByteToBits(b)) == x;
  }

  /** Byte `i` of the result is byte `i` of the data XORed with byte `i` of
      the key, over the common length. */
  function ByteXors(data: seq<Byte>, key: seq<Byte>): (r: seq<Byte>)
    ensures |r| == Min(|data|, |key|)
    ensures forall i :: 0 <= i < |r| ==> r[i] == ByteXor(data[i], key[i])
  {
    seq(Min(|data|, |key|), i requires 0 <= i < Min(|data|, |key|) => ByteXor(data[i], key[i]))
  }

  /** Zipping the bits and XORing them is XORing the bytes. */
  lemma {:induction false} ZipXorBytes(data: seq<Byte>, key: seq<Byte>)
    ensures ZipXor(BytesToBits(data), BytesToBits(key)) == BytesToBits(ByteXors(data, key))
  {
    if |data| == 0 || |key| == 0 {
      assert ByteXors(data, key) == [];
    } else {
      ZipXorBytes(data[1..], key[1..]);
      ZipXorAppend(ByteToBits(data[0]), BytesToBits(data[1..]), ByteToBits(key[0]), BytesToBits(key[1..]));
      ZipXorOneByte(data[0], key[0]);
      var r := ByteXors(data, key);
      assert r == [r[0]] + ByteXors(data[1..], key[1..]);
    }
  }

  /** `crypt`: the same operation encrypts and decrypts. */
  function Crypt(data: seq<Byte>, key: seq<Byte>): (r: seq<Byte>)
    ensures |r| == Min(|data|, |key|)
    ensures forall i :: 0 <= i < |r| ==> r[i] == ByteXor(data[i], key[i])
  {
    ZipXorBytes(data, key);
    BitArrayRoundTrip(ByteXors(data, key));
    BitArrayToString(ZipXor(BytesToBits(data), BytesToBits(key)))
  }

  /** With a key at least as long as the data, applying the pad twice gives
      the data back. */
  lemma CryptInvolution(data: seq<Byte>, key: seq<Byte>)
    requires |key| >= |data|
    ensures Crypt(Crypt(data, key), key) == data
  {
    var c := Crypt(data, key);
    var d := Crypt(c, key);
    forall i | 0 <= i < |data|
      ensures d[i] == data[i]
    {
      ByteXorCancel(data[i], key[i]);
    }
  }

  /** Data and key play the same part. */
  lemma CryptSymmetric(data: seq<Byte>, key: seq<Byte>)
    ensures Crypt(data, key) == Crypt(key, data)
  {
    var a, b := Crypt(data, key), Crypt(key, data);
    forall i | 0 <= i < |a|
      ensures a[i] == b[i]
    {
      XorComm(ByteToBits(data[i]), ByteToBits(key[i]));
    }
  }

  /** A key shorter than the data truncates the output to the key's length:
      the pad is not repeated. */
  lemma CryptShortKey(data: seq<Byte>, key: seq<Byte>)
    requires |key| <= |data|
    ensures Crypt(data, key) == Crypt(data[..|key|], key)
  {
  }
}
