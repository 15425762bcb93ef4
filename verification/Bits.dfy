/** Bit and byte sequences: the conversions, table permutation, length-tolerant
    XOR and rotation that both DES engines and the one-time pad are built from.
    Bits are the engines' lists of 0/1 integers; bytes are the elements of a
    Python `bytes` value. */
module Bits {

  type Bit = b: int | 0 <= b <= 1

  type Byte = b: int | 0 <= b < 256

  function Pow2(n: nat): (r: nat)
    ensures r >= 1
  {
    if n == 0 then 1 else 2 * Pow2(n - 1)
  }

  function Max(a: int, b: int): int {
    if a < b then b else a
  }

  function Min(a: int, b: int): int {
    if a < b then a else b
  }

  function Zeros(n: nat): (r: seq<Bit>)
    ensures |r| == n
    ensures forall i :: 0 <= i < n ==> r[i] == 0
  {
    seq(n, _ => 0)
  }

  // ---------------------------------------------------------------------------
  // Numbers and their big-endian bit strings
  // ---------------------------------------------------------------------------

  /** The big-endian value of a bit string: `n` bits are worth less than
      `2^n`. */
  function BitsToNat(bs: seq<Bit>): (r: nat)
    ensures r < Pow2(|bs|)
  {
    if |bs| == 0 then 0 else 2 * BitsToNat(bs[..|bs| - 1]) + bs[|bs| - 1]
  }

  /** The low `n` bits of `v`, most significant first (Python's
      `bin(v)[2:].zfill(n)` for `v < 2^n`). */
  function NatToBits(v: nat, n: nat): (r: seq<Bit>)
    ensures |r| == n
  {
    if n == 0 then [] else NatToBits(v / 2, n - 1) + [v % 2]
  }

  /** A bit string is worth zero exactly when it holds no 1. */
  lemma {:induction false} BitsToNatZero(bs: seq<Bit>)
    ensures BitsToNat(bs) == 0 <==> 1 !in bs
  {
    if |bs| > 0 {
      BitsToNatZero(bs[..|bs| - 1]);
      assert bs == bs[..|bs| - 1] + [bs[|bs| - 1]];
    }
  }

  /** Quotient and remainder are determined by the division equation. */
  lemma DivModUnique(v: int, d: int, q: int, r: int)
    requires d > 0 && 0 <= r < d && v == d * q + r
    ensures v / d == q && v % d == r
  {
    var q0 := v / d;
    var r0 := v % d;
    assert v == d * q0 + r0;
    if q0 < q {
      assert d * (q - q0) == d * q - d * q0;
      MulAtLeast(d, q - q0);
    } else if q < q0 {
      assert d * (q0 - q) == d * q0 - d * q;
      MulAtLeast(d, q0 - q);
    }
  }

  lemma MulAtLeast(d: int, k: int)
    requires d > 0 && k >= 1
    ensures d * k >= d
  {
  }

  lemma HalfMod(v: nat, p: nat)
    requires p > 0
    ensures 2 * ((v / 2) % p) + v % 2 == v % (2 * p)
  {
    var q := (v / 2) / p;
    var r := (v / 2) % p;
    assert v / 2 == p * q + r;
    assert v == 2 * (v / 2) + v % 2;
    assert 2 * (p * q + r) == (2 * p) * q + 2 * r;
    DivModUnique(v, 2 * p, q, 2 * r + v % 2);
  }

  lemma HalfDiv(v: nat, p: nat)
    requires p > 0
    ensures (v / 2) / p == v / (2 * p)
  {
    var q := (v / 2) / p;
    var r := (v / 2) % p;
    assert v / 2 == p * q + r;
    assert v == 2 * (v / 2) + v % 2;
    assert 2 * (p * q + r) == (2 * p) * q + 2 * r;
    DivModUnique(v, 2 * p, q, 2 * r + v % 2);
  }

  /** Reading back the bits of `v` gives `v` modulo `2^n`. */
  lemma {:induction false} NatToBitsToNat(v: nat, n: nat)
    ensures BitsToNat(NatToBits(v, n)) == v % Pow2(n)
  {
    if n > 0 {
      var bs := NatToBits(v, n);
      assert bs[..n - 1] == NatToBits(v / 2, n - 1);
      NatToBitsToNat(v / 2, n - 1);
      HalfMod(v, Pow2(n - 1));
    }
  }

  /** Bit `j` of the `n`-bit string of `v` is the `(n-1-j)`-th binary digit
      of `v`: the mask test `v & (1 << (n-1-j)) > 0`. */
  lemma {:induction false} NatToBitsDigits(v: nat, n: nat)
    ensures forall j :: 0 <= j < n ==> NatToBits(v, n)[j] == (v / Pow2(n - 1 - j)) % 2
  {
    if n > 0 {
      NatToBitsDigits(v / 2, n - 1);
      forall j | 0 <= j < n - 1
        ensures NatToBits(v, n)[j] == (v / Pow2(n - 1 - j)) % 2
      {
        HalfDiv(v, Pow2(n - 2 - j));
      }
    }
  }

  /** Converting a bit string to its value and back returns the bit string. */
  lemma {:induction false} BitsToNatToBits(bs: seq<Bit>)
    ensures NatToBits(BitsToNat(bs), |bs|) == bs
  {
    if |bs| > 0 {
      var init := bs[..|bs| - 1];
      BitsToNatToBits(init);
      var v := BitsToNat(bs);
      assert v / 2 == BitsToNat(init);
      assert v % 2 == bs[|bs| - 1];
      assert bs == init + [bs[|bs| - 1]];
    }
  }

  // ---------------------------------------------------------------------------
  // Bytes <-> bits
  // ---------------------------------------------------------------------------

  /** One byte as 8 bits, most significant first. */
  function ByteToBits(b: Byte): (r: seq<Bit>)
    ensures |r| == 8
  {
    NatToBits(b, 8)
  }

  /** The byte whose eight bits, most significant first, are `bs`. */
  function ByteOf(bs: seq<Bit>): (r: Byte)
    requires |bs| == 8
    ensures ByteToBits(r) == bs
    ensures r == BitsToNat(bs)
  {
    BitsToNatToBits(bs);
    BitsToNat(bs)
  }

  /** `_bytes_to_bit_array`: every byte contributes its 8 bits, most
      significant first. */
  function BytesToBits(bytes: seq<Byte>): (r: seq<Bit>)
    ensures |r| == 8 * |bytes|
  {
    if |bytes| == 0 then [] else ByteToBits(bytes[0]) + BytesToBits(bytes[1..])
  }

  /** Bit `k` of the result is binary digit `7 - k % 8` of byte `k / 8`, the
      mask test the source performs on every byte. */
  lemma {:induction false} BytesToBitsDigits(bytes: seq<Byte>)
    ensures forall k :: 0 <= k < 8 * |bytes| ==>
      BytesToBits(bytes)[k] == (bytes[k / 8] / Pow2(7 - k % 8)) % 2
  {
    if |bytes| > 0 {
      BytesToBitsDigits(bytes[1..]);
      NatToBitsDigits(bytes[0], 8);
      var r := BytesToBits(bytes);
      forall k | 8 <= k < 8 * |bytes|
        ensures r[k] == (bytes[k / 8] / Pow2(7 - k % 8)) % 2
      {
        assert r[k] == BytesToBits(bytes[1..])[k - 8];
        assert (k - 8) / 8 == k / 8 - 1 && (k - 8) % 8 == k % 8;
      }
    }
  }

  lemma {:induction false} BytesToBitsAppend(a: seq<Byte>, b: seq<Byte>)
    ensures BytesToBits(a + b) == BytesToBits(a) + BytesToBits(b)
  {
    if |a| > 0 {
      assert (a + b)[1..] == a[1..] + b;
      BytesToBitsAppend(a[1..], b);
    } else {
      assert a + b == b;
    }
  }

  /** The eight bits of byte `i` sit at positions `8i .. 8i+8`. */
  lemma {:induction false} BytesToBitsSlice(bytes: seq<Byte>, i: nat, j: nat)
    requires i <= j <= |bytes|
    ensures BytesToBits(bytes)[8 * i .. 8 * j] == BytesToBits(bytes[i..j])
  {
    assert bytes == bytes[..i] + bytes[i..j] + bytes[j..];
    BytesToBitsAppend(bytes[..i] + bytes[i..j], bytes[j..]);
    BytesToBitsAppend(bytes[..i], bytes[i..j]);
  }

  /** The value Python accumulates for a trailing partial byte: the remaining
      bits shifted into the high end of a byte. */
  function PartialByte(tail: seq<Bit>): Byte
    requires |tail| < 8
  {
    ByteOf(tail + Zeros(8 - |tail|))
  }

  /** `_bit_array_to_bytes` (both DES engines): every full group of eight bits
      becomes a byte; a trailing partial group is emitted, left-aligned, only
      when its value is non-zero. */
  function BitsToBytes(bits: seq<Bit>): (r: seq<Byte>)
    ensures |bits| % 8 == 0 ==> BytesToBits(r) == bits
    ensures |bits| < 8 ==> (r == [] <==> 1 !in bits)
    decreases |bits|
  {
    if |bits| >= 8 then
      var rest := BitsToBytes(bits[8..]);
      assert |bits[8..]| % 8 == |bits| % 8;
      ByteThenRest(bits, rest);
      [ByteOf(bits[..8])] + rest
    else
      PartialByteZero(bits);
      if PartialByte(bits) != 0 then [PartialByte(bits)] else []
  }

  /** A byte read from the first eight bits, then bytes whose bits are the
      rest, give all the bits back. */
  lemma ByteThenRest(bits: seq<Bit>, rest: seq<Byte>)
    requires |bits| >= 8
    requires |bits| % 8 == 0 ==> BytesToBits(rest) == bits[8..]
    ensures |bits| % 8 == 0 ==> BytesToBits([ByteOf(bits[..8])] + rest) == bits
  {
    if |bits| % 8 == 0 {
      BitsToNatToBits(bits[..8]);
      assert ([ByteOf(bits[..8])] + rest)[1..] == rest;
      assert bits == bits[..8] + bits[8..];
    }
  }

  /** A trailing partial group is worth nothing exactly when it holds no 1. */
  lemma PartialByteZero(bits: seq<Bit>)
    requires |bits| < 8
    ensures PartialByte(bits) == 0 <==> 1 !in bits
  {
    BitsToNatZero(bits + Zeros(8 - |bits|));
    assert 1 in bits <==> 1 in bits + Zeros(8 - |bits|);
  }

  /** Bits that are `n` whole bytes long convert to `n` bytes. */
  lemma BitsToBytesLength(bits: seq<Bit>, n: nat)
    requires |bits| == 8 * n
    ensures |BitsToBytes(bits)| == n
    ensures BytesToBits(BitsToBytes(bits)) == bits
  {
    DivModUnique(8 * n, 8, n, 0);
    assert |BytesToBits(BitsToBytes(bits))| == 8 * n;
  }

  /** `_bit_array_to_bytes` inverts `_bytes_to_bit_array`. */
  lemma ByteRoundTrip(b: Byte)
    ensures ByteOf(ByteToBits(b)) == b
  {
    ByteBitsValue(b);
  }

  /** The eight bits of a byte read back as a number are the byte. */
  lemma ByteBitsValue(b: Byte)
    ensures BitsToNat(ByteToBits(b)) == b
  {
    NatToBitsToNat(b, 8);
    Pow2Byte();
  }

  lemma Pow2Byte()
    ensures Pow2(8) == 256
  {
  }

  lemma {:induction false} BytesBitsRoundTrip(bytes: seq<Byte>)
    ensures BitsToBytes(BytesToBits(bytes)) == bytes
  {
    if |bytes| > 0 {
      var head := ByteToBits(bytes[0]);
      var rest := BytesToBits(bytes[1..]);
      var bits := head + rest;
      assert BytesToBits(bytes) == bits;
      assert bits[..8] == head && bits[8..] == rest;
      ByteRoundTrip(bytes[0]);
      BytesBitsRoundTrip(bytes[1..]);
      assert BitsToBytes(bits) == [ByteOf(head)] + BitsToBytes(rest);
      assert bytes == [bytes[0]] + bytes[1..];
    }
  }

  /** Bits that stop short of a byte boundary: the whole bytes are converted
      as usual and the left-over bits give one more byte, left-aligned, unless
      they are all zero, in which case they are dropped. */
  lemma {:induction false} BitsToBytesTail(whole: seq<Bit>, tail: seq<Bit>)
    requires |whole| % 8 == 0 && |tail| < 8
    ensures BitsToBytes(whole + tail)
         == BitsToBytes(whole) + (if 1 in tail then [PartialByte(tail)] else [])
    decreases |whole|
  {
    if |whole| >= 8 {
      assert (whole + tail)[..8] == whole[..8];
      assert (whole + tail)[8..] == whole[8..] + tail;
      BitsToBytesTail(whole[8..], tail);
    } else {
      assert whole == [];
      assert whole + tail == tail;
    }
  }

  /** The byte conversion splits over concatenation of whole bytes. */
  lemma BitsToBytesAppend(a: seq<Bit>, b: seq<Bit>)
    requires |a| % 8 == 0 && |b| % 8 == 0
    ensures BitsToBytes(a + b) == BitsToBytes(a) + BitsToBytes(b)
  {
    BytesToBitsAppend(BitsToBytes(a), BitsToBytes(b));
    BytesBitsRoundTrip(BitsToBytes(a) + BitsToBytes(b));
  }

  // ---------------------------------------------------------------------------
  // Splitting, permutation, XOR, rotation
  // ---------------------------------------------------------------------------

  function Flatten<T>(pieces: seq<seq<T>>): (r: seq<T>)
  {
    if |pieces| == 0 then [] else pieces[0] + Flatten(pieces[1..])
  }

  /** `_nsplit`: consecutive non-empty pieces that concatenate back to the
      data, each `size` long except possibly the last, which is shorter when
      `size` does not divide the length. */
  function Nsplit<T>(data: seq<T>, size: nat): (r: seq<seq<T>>)
    requires size > 0
    ensures Flatten(r) == data
    ensures forall i :: 0 <= i < |r| ==> 0 < |r[i]| <= size
    ensures forall i :: 0 <= i < |r| - 1 ==> |r[i]| == size
    ensures |data| > 0 ==> |r| > 0 && r[0] == data[..Min(size, |data|)]
    decreases |data|
  {
    if |data| == 0 then []
    else if |data| <= size then
      assert Flatten([data]) == data + Flatten([]);
      [data]
    else
      var rest := Nsplit(data[size..], size);
      var r := [data[..size]] + rest;
      assert r[1..] == rest;
      assert data == data[..size] + data[size..];
      r
  }

  /** Every index of the table selects an element of the block. */
  predicate IndexesWithin(table: seq<nat>, n: nat) {
    forall i :: 0 <= i < |table| ==> table[i] < n
  }

  /** `_permute`: element `i` of the result is element `table[i]` of the
      block, so the result is as long as the table. */
  function Permute<T>(block: seq<T>, table: seq<nat>): (r: seq<T>)
    requires IndexesWithin(table, |block|)
    ensures |r| == |table|
    ensures forall i {:trigger r[i]} :: 0 <= i < |table| ==> r[i] == block[table[i]]
  {
    seq(|table|, i requires 0 <= i < |table| => block[table[i]])
  }

  /** Permuting by `t1` and then by `t2` restores the block when `t2` picks
      out, for every position, the entry `t1` moved away from it. */
  lemma PermuteInverse<T>(b: seq<T>, t1: seq<nat>, t2: seq<nat>)
    requires IndexesWithin(t1, |b|) && IndexesWithin(t2, |t1|) && |t2| == |b|
    requires forall i :: 0 <= i < |t2| ==> t1[t2[i]] == i
    ensures Permute(Permute(b, t1), t2) == b
  {
    var p := Permute(b, t1);
    var q := Permute(p, t2);
    forall i | 0 <= i < |b|
      ensures q[i] == b[i]
    {
      assert q[i] == p[t2[i]] == b[t1[t2[i]]];
    }
  }

  function BitXor(a: Bit, b: Bit): Bit {
    if a == b then 0 else 1
  }

  /** `_xor`: XOR over the common prefix, then the longer input's tail copied
      unchanged, so the result is as long as the longer input. */
  function Xor(x: seq<Bit>, y: seq<Bit>): (r: seq<Bit>)
    ensures |r| == Max(|x|, |y|)
    ensures forall i :: 0 <= i < |x| && i < |y| ==> r[i] == BitXor(x[i], y[i])
    ensures forall i :: |y| <= i < |x| ==> r[i] == x[i]
    ensures forall i :: |x| <= i < |y| ==> r[i] == y[i]
  {
    if |x| == 0 then y
    else if |y| == 0 then x
    else [BitXor(x[0], y[0])] + Xor(x[1..], y[1..])
  }

  lemma XorComm(x: seq<Bit>, y: seq<Bit>)
    ensures Xor(x, y) == Xor(y, x)
  {
  }

  /** XOR-ing the same bits in twice cancels, as long as they are no longer
      than the data. */
  lemma XorCancel(x: seq<Bit>, y: seq<Bit>)
    requires |y| <= |x|
    ensures Xor(Xor(x, y), y) == x
  {
  }

  lemma BitXorTwice(a: Bit, b: Bit)
    ensures BitXor(BitXor(a, b), b) == a
  {
  }

  /** XORing `y` in, keeping as many bits as `x` has, and XORing `y` in
      again gives `x` followed by the rest of `y`. */
  lemma {:induction false} XorPrefixCancel(x: seq<Bit>, y: seq<Bit>)
    requires |x| <= |y|
    ensures Xor(Xor(x, y)[..|x|], y) == x + y[|x|..]
  {
    var z := Xor(x, y)[..|x|];
    var w := Xor(z, y);
    forall i | 0 <= i < |y|
      ensures w[i] == (x + y[|x|..])[i]
    {
      if i < |x| {
        assert z[i] == BitXor(x[i], y[i]);
        assert w[i] == BitXor(z[i], y[i]);
        BitXorTwice(x[i], y[i]);
      }
    }
  }

  lemma XorSlice(x: seq<Bit>, y: seq<Bit>, i: nat, j: nat)
    requires |x| == |y| && i <= j <= |x|
    ensures Xor(x, y)[i..j] == Xor(x[i..j], y[i..j])
  {
  }

  /** `_lshift`: `s[n:] + s[:n]`, a circular rotation left by `n` when
      `n <= |s|`; Python's slicing leaves the sequence as it is for a larger
      `n`. */
  function LShift<T>(s: seq<T>, n: nat): (r: seq<T>)
    ensures |r| == |s|
  {
    if n <= |s| then s[n..] + s[..n] else s
  }

  /** Element `i` of the rotation is element `i + n` of the input, counted
      round the end; a shift beyond the length changes nothing. */
  lemma LShiftIndex<T>(s: seq<T>, n: nat)
    ensures n <= |s| ==> forall i :: 0 <= i < |s| - n ==> LShift(s, n)[i] == s[i + n]
    ensures n <= |s| ==> forall i :: |s| - n <= i < |s| ==> LShift(s, n)[i] == s[i + n - |s|]
    ensures n > |s| ==> LShift(s, n) == s
  {
  }

  /** Rotating by `a` and then by `b` is rotating by `a + b`. */
  lemma LShiftCompose<T>(s: seq<T>, a: nat, b: nat)
    requires a + b <= |s|
    ensures LShift(LShift(s, a), b) == LShift(s, a + b)
  {
    var p, q, w := s[a + b..], s[..a], s[a..a + b];
    var t := LShift(s, a);
    assert t == s[a..] + s[..a];
    assert s[a..] == w + p;
    assert t == w + (p + q);
    assert LShift(t, b) == (p + q) + w by {
      assert t[b..] == p + q && t[..b] == w;
    }
    assert LShift(s, a + b) == p + (q + w) by {
      assert s[..a + b] == q + w;
    }
  }

  function Reverse<T>(s: seq<T>): (r: seq<T>)
    ensures |r| == |s|
    ensures forall i :: 0 <= i < |s| ==> r[i] == s[|s| - 1 - i]
  {
    if |s| == 0 then [] else Reverse(s[1..]) + [s[0]]
  }

  lemma ReverseReverse<T>(s: seq<T>)
    ensures Reverse(Reverse(s)) == s
  {
  }
}
