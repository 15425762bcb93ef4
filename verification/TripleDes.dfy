/** The Triple-DES byte interface of `tDesCore.py`: three DES passes per block
    (encrypt with key 1, decrypt with key 2, encrypt with key 3) in the same
    three modes. Unlike `desCore.py` these methods check neither keys nor IV;
    what goes wrong with a bad argument is what Python raises further in. */
module TripleDes {
  import opened Bits
  import opened Results
  import opened Padding
  import opened Feistel
  import opened DesCore
  import opened Modes
  import opened DesModes

  /** Three keys of at least eight bytes each. */
  predicate ValidKeys(keys: seq<seq<Byte>>)
  {
    |keys| >= 3 && |keys[0]| >= 8 && |keys[1]| >= 8 && |keys[2]| >= 8
  }

  /** `_triple_generate_subkeys` on a key list. It reads `keys[0]`,
      `keys[1]` and `keys[2]` in turn; a missing entry or a key too short for
      PC-1 fails with an IndexError. */
  function TripleSchedules(keys: seq<seq<Byte>>, decrypt: bool): (r: Result<seq<Schedule>>)
    ensures !ValidKeys(keys) ==> r == Err(IndexError)
    ensures ValidKeys(keys) ==> r == Ok(TripleSubkeys(keys[0], keys[1], keys[2], decrypt))
  {
    if !ValidKeys(keys) then Err(IndexError)
    else Ok(TripleSubkeys(keys[0], keys[1], keys[2], decrypt))
  }

  /** The encryption passes: subkey lists 0, 1 and 2 in that order. */
  function Ede(s: seq<Schedule>): Block -> Block
    requires |s| == 3
  {
    Compose3(Cipher(s[0]), Cipher(s[1]), Cipher(s[2]))
  }

  /** The decryption passes: subkey lists 2, 1 and 0 in that order. */
  function Ded(s: seq<Schedule>): Block -> Block
    requires |s| == 3
  {
    Compose3(Cipher(s[2]), Cipher(s[1]), Cipher(s[0]))
  }

  /** With the decryption orientation of the schedules, the decryption passes
      undo the encryption passes: each DES pass is undone by the pass with
      the reversed schedule, innermost first. */
  lemma EdeInverse(k1: seq<Byte>, k2: seq<Byte>, k3: seq<Byte>)
    requires |k1| >= 8 && |k2| >= 8 && |k3| >= 8
    ensures forall b: Block :: Ded(TripleSubkeys(k1, k2, k3, true))(Ede(TripleSubkeys(k1, k2, k3, false))(b)) == b
  {
    var s1, s2, s3 := KeySchedule(k1), KeySchedule(k2), KeySchedule(k3);
    CipherInverse(s1);
    CipherInverseReversed(s2);
    CipherInverse(s3);
    Compose3Inverse(Cipher(s1), Cipher(ReverseSchedule(s2)), Cipher(s3),
                    Cipher(ReverseSchedule(s1)), Cipher(s2), Cipher(ReverseSchedule(s3)));
  }

  /** With one key three times the middle pass undoes the first, so EDE is
      single DES. */
  lemma EdeSingle(k: seq<Byte>)
    requires |k| >= 8
    ensures forall b: Block :: Ede(TripleSubkeys(k, k, k, false))(b) == Cipher(KeySchedule(k))(b)
  {
    var s := KeySchedule(k);
    CipherInverse(s);
    Compose3Collapse(Cipher(s), Cipher(ReverseSchedule(s)), Cipher(s));
  }

  /** The IV as `_bytes_to_bit_array` takes it: iterating over `None` fails,
      and so does masking a character of a non-empty string. An IV of any
      length is accepted. */
  function IvBytes(iv: Arg): (r: Result<seq<Byte>>)
    ensures r.Ok? <==> iv.Bytes? || iv == Text("")
    ensures iv.Bytes? ==> r == Ok(iv.bytes)
    ensures iv == Text("") ==> r == Ok([])
    ensures r.Err? ==> r.error.TypeError?
  {
    match iv
    case Missing => Err(TypeError("'NoneType' object is not iterable"))
    case Text(t) =>
      if |t| == 0 then Ok([]) else Err(TypeError("unsupported operand type(s) for &: 'str' and 'int'"))
    case Bytes(v) => Ok(v)
  }

  // ---------------------------------------------------------------------------
  // ECB
  // ---------------------------------------------------------------------------

  /** `tEncryptECB`. */
  function TEncryptEcb(data: seq<Byte>, keys: seq<seq<Byte>>): (r: Result<seq<Byte>>)
    ensures r.Ok? <==> ValidKeys(keys)
    ensures r.Err? ==> r.error == IndexError
    ensures r.Ok? ==> |r.value| == 8 * (|data| / 8 + 1)
  {
    var s :- TripleSchedules(keys, false);
    PaddedBits(data);
    Ok(EcbEncryptBytes(data, Ede(s)))
  }

  /** `tDecryptECB`. */
  function TDecryptEcb(data: seq<Byte>, keys: seq<seq<Byte>>): (r: Result<seq<Byte>>)
    ensures r.Ok? <==> ValidKeys(keys) && WholeBlocks(data)
    ensures r.Err? ==> r.error == IndexError
  {
    var s :- TripleSchedules(keys, true);
    if |data| % 8 != 0 then Err(IndexError)
    else EcbDecryptBytes(data, Ded(s))
  }

  /** Triple-DES ECB decryption undoes Triple-DES ECB encryption. */
  lemma TEcbRoundTrip(data: seq<Byte>, keys: seq<seq<Byte>>)
    requires ValidKeys(keys)
    ensures TDecryptEcb(TEncryptEcb(data, keys).value, keys) == Ok(data)
  {
    EdeInverse(keys[0], keys[1], keys[2]);
    var e := Ede(TripleSubkeys(keys[0], keys[1], keys[2], false));
    var d := Ded(TripleSubkeys(keys[0], keys[1], keys[2], true));
    EcbBytesRoundTrip(data, e, d);
  }

  /** Three copies of one key give exactly single-DES ECB, including the
      failure for a short key. */
  lemma TEcbSingleKey(data: seq<Byte>, k: seq<Byte>)
    ensures TEncryptEcb(data, [k, k, k]) == EncryptEcb(data, Bytes(k))
  {
    if |k| >= 8 {
      var e := Ede(TripleSubkeys(k, k, k, false));
      var c := Cipher(KeySchedule(k));
      EdeSingle(k);
      PaddedBits(data);
      EcbAgree(BytesToBits(AddPadding(data)), e, c);
      assert EcbEncryptBytes(data, e) == EcbEncryptBytes(data, c);
    }
  }

  // ---------------------------------------------------------------------------
  // CBC
  // ---------------------------------------------------------------------------

  /** `tEncryptCBC`: keys first, then the IV's bits. */
  function TEncryptCbc(data: seq<Byte>, keys: seq<seq<Byte>>, iv: Arg): (r: Result<seq<Byte>>)
    ensures r.Ok? <==> ValidKeys(keys) && IvBytes(iv).Ok?
    ensures !ValidKeys(keys) ==> r == Err(IndexError)
    ensures r.Ok? ==> |r.value| == 8 * (|data| / 8 + 1)
  {
    var s :- TripleSchedules(keys, false);
    var v :- IvBytes(iv);
    PaddedBits(data);
    Ok(CbcEncryptBytes(data, v, Ede(s)))
  }

  /** `tDecryptCBC`. */
  function TDecryptCbc(data: seq<Byte>, keys: seq<seq<Byte>>, iv: Arg): (r: Result<seq<Byte>>)
    ensures r.Ok? <==> ValidKeys(keys) && IvBytes(iv).Ok? && WholeBlocks(data)
    ensures !ValidKeys(keys) ==> r == Err(IndexError)
  {
    var s :- TripleSchedules(keys, true);
    var v :- IvBytes(iv);
    if |data| % 8 != 0 then Err(IndexError)
    else CbcDecryptBytes(data, v, Ded(s))
  }

  /** With an IV of at most eight bytes, Triple-DES CBC decryption undoes
      encryption. Nothing checks the IV's length; a shorter IV chains into
      the leading bits of the first block only. */
  lemma TCbcRoundTrip(data: seq<Byte>, keys: seq<seq<Byte>>, iv: seq<Byte>)
    requires ValidKeys(keys) && |iv| <= 8
    ensures TDecryptCbc(TEncryptCbc(data, keys, Bytes(iv)).value, keys, Bytes(iv)) == Ok(data)
  {
    EdeInverse(keys[0], keys[1], keys[2]);
    var e := Ede(TripleSubkeys(keys[0], keys[1], keys[2], false));
    var d := Ded(TripleSubkeys(keys[0], keys[1], keys[2], true));
    CbcBytesRoundTrip(data, iv, e, d);
  }

  /** As written, an IV longer than eight bytes breaks the round trip: the
      encryption passes read only its first 64 bits, but decryption XORs
      the whole IV into the first block, so its bytes past the eighth are
      inserted into the recovered message. */
  lemma TCbcLongIvInserts(data: seq<Byte>, keys: seq<seq<Byte>>, iv: seq<Byte>)
    requires ValidKeys(keys) && |iv| > 8 && |data| >= 8
    ensures TDecryptCbc(TEncryptCbc(data, keys, Bytes(iv)).value, keys, Bytes(iv))
         == Ok(data[..8] + iv[8..] + data[8..])
  {
    EdeInverse(keys[0], keys[1], keys[2]);
    var e := Ede(TripleSubkeys(keys[0], keys[1], keys[2], false));
    var d := Ded(TripleSubkeys(keys[0], keys[1], keys[2], true));
    CbcBytesLongIv(data, iv, e, d);
  }

  /** `tDecryptCBC` chaining from the first eight bytes of the IV only, the
      part of it that encryption reads. */
  function TDecryptCbcFirstBlock(data: seq<Byte>, keys: seq<seq<Byte>>, iv: Arg): (r: Result<seq<Byte>>)
    ensures r.Ok? <==> ValidKeys(keys) && IvBytes(iv).Ok? && WholeBlocks(data)
    ensures !ValidKeys(keys) ==> r == Err(IndexError)
  {
    var s :- TripleSchedules(keys, true);
    var v :- IvBytes(iv);
    if |data| % 8 != 0 then Err(IndexError)
    else CbcDecryptBytes(data, v[..Min(8, |v|)], Ded(s))
  }

  /** With the first-block decryption, the round trip holds for an IV of any
      length. */
  lemma TCbcRoundTripAnyIv(data: seq<Byte>, keys: seq<seq<Byte>>, iv: seq<Byte>)
    requires ValidKeys(keys)
    ensures TDecryptCbcFirstBlock(TEncryptCbc(data, keys, Bytes(iv)).value, keys, Bytes(iv)) == Ok(data)
  {
    EdeInverse(keys[0], keys[1], keys[2]);
    var e := Ede(TripleSubkeys(keys[0], keys[1], keys[2], false));
    var d := Ded(TripleSubkeys(keys[0], keys[1], keys[2], true));
    var v := iv[..Min(8, |iv|)];
    if |iv| >= 8 {
      CbcBytesIvPrefix(data, iv, e);
    } else {
      assert v == iv;
    }
    var ct := CbcEncryptBytes(data, v, e);
    assert TEncryptCbc(data, keys, Bytes(iv)) == Ok(ct);
    PaddedBits(data);
    assert TDecryptCbcFirstBlock(ct, keys, Bytes(iv)) == CbcDecryptBytes(ct, v, d);
    CbcBytesRoundTrip(data, v, e, d);
  }

  // ---------------------------------------------------------------------------
  // OFB
  // ---------------------------------------------------------------------------

  /** The first chained value: the block routine reads the first 64 bits of
      the IV, and indexes past an IV shorter than that. */
  function FirstChain(v: seq<Byte>): (r: Result<Block>)
    ensures r.Ok? <==> |v| >= 8
    ensures r.Ok? ==> r.value == BytesToBits(v[..8])
  {
    if |v| < 8 then Err(IndexError)
    else
      BytesToBitsSlice(v, 0, 8);
      Ok(BytesToBits(v)[..64])
  }

  /** What `tEncryptOFB` needs before its first block: the forward schedules
      and the first chained value. A key failure comes first, then the IV's
      type, then its length. */
  function OfbStart(keys: seq<seq<Byte>>, iv: Arg): (r: Result<(seq<Schedule>, Block)>)
    ensures !ValidKeys(keys) ==> r == Err(IndexError)
    ensures ValidKeys(keys) && !iv.Bytes? ==> r.Err?
    ensures ValidKeys(keys) && iv.Bytes? && |iv.bytes| < 8 ==> r == Err(IndexError)
    ensures ValidKeys(keys) && iv.Bytes? && |iv.bytes| >= 8 ==>
      r == Ok((TripleSubkeys(keys[0], keys[1], keys[2], false), BytesToBits(iv.bytes[..8])))
  {
    var s :- TripleSchedules(keys, false);
    var v :- IvBytes(iv);
    var o :- FirstChain(v);
    Ok((s, o))
  }

  /** `tEncryptOFB`: the padded message always has a block, so a short IV
      always fails; otherwise the keystream comes from the first eight IV
      bytes and the encryption passes. */
  function TEncryptOfb(data: seq<Byte>, keys: seq<seq<Byte>>, iv: Arg): (r: Result<seq<Byte>>)
    ensures !ValidKeys(keys) ==> r == Err(IndexError)
    ensures ValidKeys(keys) && !iv.Bytes? ==> r.Err?
    ensures ValidKeys(keys) && iv.Bytes? && |iv.bytes| < 8 ==> r == Err(IndexError)
    ensures ValidKeys(keys) && iv.Bytes? && |iv.bytes| >= 8 ==>
      r == Ok(OfbBytes(AddPadding(data), BytesToBits(iv.bytes[..8]), Ede(TripleSubkeys(keys[0], keys[1], keys[2], false))))
  {
    var (s, o) :- OfbStart(keys, iv);
    Ok(OfbBytes(AddPadding(data), o, Ede(s)))
  }

  /** `tDecryptOFB`: the forward schedules again and no padding removed; the
      keystream is cut to each block, so the output is exactly as long as the
      input, and empty data never reaches the IV. */
  function TDecryptOfb(data: seq<Byte>, keys: seq<seq<Byte>>, iv: Arg): (r: Result<seq<Byte>>)
    ensures !ValidKeys(keys) ==> r == Err(IndexError)
    ensures ValidKeys(keys) && IvBytes(iv).Err? ==> r.Err?
    ensures ValidKeys(keys) ==> (r.Ok? <==> IvBytes(iv).Ok? && (|data| == 0 || |IvBytes(iv).value| >= 8))
    ensures ValidKeys(keys) && IvBytes(iv).Ok? && |data| == 0 ==> r == Ok([])
    ensures ValidKeys(keys) && IvBytes(iv).Ok? && |IvBytes(iv).value| < 8 && |data| > 0 ==> r == Err(IndexError)
    ensures ValidKeys(keys) && iv.Bytes? && |iv.bytes| >= 8 ==>
      r == Ok(OfbBytes(data, BytesToBits(iv.bytes[..8]), Ede(TripleSubkeys(keys[0], keys[1], keys[2], false))))
  {
    if !ValidKeys(keys) then Err(IndexError)
    else if IvBytes(iv).Err? then IvBytes(iv).PropagateFailure()
    else if |data| == 0 then Ok([])
    else
      var v := IvBytes(iv).value;
      if |v| < 8 then Err(IndexError)
      else Ok(OfbBytes(data, BytesToBits(v[..8]), Ede(TripleSubkeys(keys[0], keys[1], keys[2], false))))
  }

  /** Triple-DES OFB decryption of a ciphertext gives back the PADDED
      message. */
  lemma TOfbRoundTrip(data: seq<Byte>, keys: seq<seq<Byte>>, iv: seq<Byte>)
    requires ValidKeys(keys) && |iv| >= 8
    ensures TDecryptOfb(TEncryptOfb(data, keys, Bytes(iv)).value, keys, Bytes(iv)) == Ok(AddPadding(data))
  {
    var e := Ede(TripleSubkeys(keys[0], keys[1], keys[2], false));
    OfbBytesTwice(AddPadding(data), BytesToBits(iv[..8]), e);
  }
}
