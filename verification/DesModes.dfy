/** The single-DES byte interface of `desCore.py`: argument checks, padding,
    the bit conversion and the three block modes around `_encrypt_block`. */
module DesModes {
  import opened Bits
  import opened Results
  import opened Padding
  import opened Feistel
  import opened DesCore
  import opened Modes

  /** A key or IV argument as Python sees it: `None`, a `bytes` value, or a
      `str` (the one other type the sources are called with). */
  datatype Arg = Missing | Bytes(bytes: seq<Byte>) | Text(text: string)

  /** A key the DES methods accept and can build a schedule from. */
  predicate ValidKey(key: Arg)
  {
    key.Bytes? && |key.bytes| >= 8
  }

  /** An IV the CBC and OFB methods accept. */
  predicate ValidIv(iv: Arg)
  {
    iv.Bytes? && |iv.bytes| == 8
  }

  /** The key checks every method starts with: `None` first, then the type.
      The length check is commented out in the source. */
  function CheckKey(key: Arg): (r: Result<seq<Byte>>)
    ensures r.Ok? <==> key.Bytes?
    ensures r.Ok? ==> r.value == key.bytes
  {
    match key
    case Missing => Err(ValueError("Key is None"))
    case Text(_) => Err(TypeError("Key must be a bytestring"))
    case Bytes(k) => Ok(k)
  }

  /** The IV checks of CBC and OFB, in the source's order: `None`, then the
      length (a `str` has one too), then the type. */
  function CheckIv(iv: Arg): (r: Result<seq<Byte>>)
    ensures r.Ok? <==> ValidIv(iv)
    ensures r.Ok? ==> r.value == iv.bytes
  {
    match iv
    case Missing => Err(ValueError("IV is None"))
    case Text(t) =>
      if |t| != 8 then Err(ValueError("IV must be 8 bytes long"))
      else Err(TypeError("IV must be a bytestring"))
    case Bytes(v) =>
      if |v| != 8 then Err(ValueError("IV must be 8 bytes long")) else Ok(v)
  }

  /** `_generate_subkeys`, which fails with an IndexError when PC-1 reads past
      the bits of a key shorter than eight bytes. */
  function Subkeys(key: seq<Byte>): (r: Result<Schedule>)
    ensures r.Ok? <==> |key| >= 8
  {
    if |key| < 8 then Err(IndexError) else Ok(KeySchedule(key))
  }

  /** The block routine with a fixed schedule, as a block function. */
  function Cipher(ks: Schedule): Block -> Block
  {
    b => EncryptBlock(b, ks)
  }

  /** The block function with the reversed schedule undoes the one with the
      schedule. */
  lemma CipherInverse(ks: Schedule)
    ensures forall b: Block :: Cipher(ReverseSchedule(ks))(Cipher(ks)(b)) == b
  {
    forall b: Block
      ensures Cipher(ReverseSchedule(ks))(Cipher(ks)(b)) == b
    {
      BlockRoundTrip(b, ks);
    }
  }

  /** The block function with a schedule undoes the one with the reversed
      schedule, too. */
  lemma CipherInverseReversed(ks: Schedule)
    ensures forall b: Block :: Cipher(ks)(Cipher(ReverseSchedule(ks))(b)) == b
  {
    forall b: Block
      ensures Cipher(ks)(Cipher(ReverseSchedule(ks))(b)) == b
    {
      BlockRoundTripReversed(b, ks);
    }
  }

  /** The failure a decryption of `data` meets after the argument checks:
      `_nsplit` hands a short final block to the block routine, whose initial
      permutation then indexes past it; with no data at all there is no last
      byte for `_rem_padding` to read. */
  predicate WholeBlocks(data: seq<Byte>)
  {
    |data| > 0 && |data| % 8 == 0
  }

  // ---------------------------------------------------------------------------
  // ECB
  // ---------------------------------------------------------------------------

  /** `encryptECB`: pad, then encrypt every block with the schedule. */
  function EncryptEcb(data: seq<Byte>, key: Arg): (r: Result<seq<Byte>>)
    ensures r.Ok? <==> ValidKey(key)
    ensures !key.Bytes? ==> r == CheckKey(key).PropagateFailure()
    ensures key.Bytes? && |key.bytes| < 8 ==> r == Err(IndexError)
    ensures r.Ok? ==> |r.value| == 8 * (|data| / 8 + 1)
  {
    var k :- CheckKey(key);
    var ks :- Subkeys(k);
    PaddedBits(data);
    Ok(EcbEncryptBytes(data, Cipher(ks)))
  }

  /** `decryptECB`: decrypt every block with the reversed schedule, then
      strip the padding. */
  function DecryptEcb(data: seq<Byte>, key: Arg): (r: Result<seq<Byte>>)
    ensures r.Ok? <==> ValidKey(key) && WholeBlocks(data)
    ensures !key.Bytes? ==> r == CheckKey(key).PropagateFailure()
    ensures key.Bytes? && (|key.bytes| < 8 || !WholeBlocks(data)) ==> r == Err(IndexError)
  {
    var k :- CheckKey(key);
    var ks :- Subkeys(k);
    if |data| % 8 != 0 then Err(IndexError)
    else EcbDecryptBytes(data, Cipher(ReverseSchedule(ks)))
  }

  /** ECB decryption undoes ECB encryption for every message and every key
      the encryption accepts. */
  lemma EcbRoundTrip(data: seq<Byte>, key: Arg)
    requires ValidKey(key)
    ensures DecryptEcb(EncryptEcb(data, key).value, key) == Ok(data)
  {
    var ks := KeySchedule(key.bytes);
    CipherInverse(ks);
    EcbBytesRoundTrip(data, Cipher(ks), Cipher(ReverseSchedule(ks)));
  }

  /** ECB has no chaining: ciphertext block `j` is the block routine applied
      to padded plaintext block `j` alone. */
  lemma EcbBlockwise(data: seq<Byte>, key: Arg, j: nat)
    requires ValidKey(key) && 8 * j + 8 <= |AddPadding(data)|
    ensures BlockAt(BytesToBits(EncryptEcb(data, key).value), j)
         == EncryptBlock(BlockAt(BytesToBits(AddPadding(data)), j), KeySchedule(key.bytes))
  {
    var ks := KeySchedule(key.bytes);
    var p := BytesToBits(AddPadding(data));
    PaddedBits(data);
    var c := Ecb(p, Cipher(ks));
    BitsToBytesLength(c, |AddPadding(data)|);
    assert EncryptEcb(data, key).value == BitsToBytes(c);
    EcbBlocks(p, Cipher(ks), j);
  }

  // ---------------------------------------------------------------------------
  // CBC
  // ---------------------------------------------------------------------------

  /** `encryptCBC`: pad, then chain each block into the next through XOR,
      starting from the IV. */
  function EncryptCbc(data: seq<Byte>, key: Arg, iv: Arg): (r: Result<seq<Byte>>)
    ensures r.Ok? <==> ValidKey(key) && ValidIv(iv)
    ensures !key.Bytes? ==> r == CheckKey(key).PropagateFailure()
    ensures key.Bytes? && !ValidIv(iv) ==> r == CheckIv(iv).PropagateFailure()
    ensures key.Bytes? && ValidIv(iv) && |key.bytes| < 8 ==> r == Err(IndexError)
    ensures r.Ok? ==> |r.value| == 8 * (|data| / 8 + 1)
  {
    var k :- CheckKey(key);
    var v :- CheckIv(iv);
    var ks :- Subkeys(k);
    PaddedBits(data);
    Ok(CbcEncryptBytes(data, v, Cipher(ks)))
  }

  /** `decryptCBC`: decrypt each block with the reversed schedule and XOR in
      the previous ciphertext block, then strip the padding. */
  function DecryptCbc(data: seq<Byte>, key: Arg, iv: Arg): (r: Result<seq<Byte>>)
    ensures r.Ok? <==> ValidKey(key) && ValidIv(iv) && WholeBlocks(data)
    ensures !key.Bytes? ==> r == CheckKey(key).PropagateFailure()
    ensures key.Bytes? && !ValidIv(iv) ==> r == CheckIv(iv).PropagateFailure()
    ensures key.Bytes? && ValidIv(iv) && (|key.bytes| < 8 || !WholeBlocks(data)) ==> r == Err(IndexError)
  {
    var k :- CheckKey(key);
    var v :- CheckIv(iv);
    var ks :- Subkeys(k);
    if |data| % 8 != 0 then Err(IndexError)
    else CbcDecryptBytes(data, v, Cipher(ReverseSchedule(ks)))
  }

  /** CBC decryption with the same key and IV undoes CBC encryption. */
  lemma CbcRoundTrip(data: seq<Byte>, key: Arg, iv: Arg)
    requires ValidKey(key) && ValidIv(iv)
    ensures DecryptCbc(EncryptCbc(data, key, iv).value, key, iv) == Ok(data)
  {
    var ks := KeySchedule(key.bytes);
    CipherInverse(ks);
    CbcBytesRoundTrip(data, iv.bytes, Cipher(ks), Cipher(ReverseSchedule(ks)));
  }

  // ---------------------------------------------------------------------------
  // OFB
  // ---------------------------------------------------------------------------

  /** `encryptOFB`: pad, then XOR every block with the next keystream block
      (the IV encrypted once more per block, with the forward schedule). */
  function EncryptOfb(data: seq<Byte>, key: Arg, iv: Arg): (r: Result<seq<Byte>>)
    ensures r.Ok? <==> ValidKey(key) && ValidIv(iv)
    ensures !key.Bytes? ==> r == CheckKey(key).PropagateFailure()
    ensures key.Bytes? && !ValidIv(iv) ==> r == CheckIv(iv).PropagateFailure()
    ensures key.Bytes? && ValidIv(iv) && |key.bytes| < 8 ==> r == Err(IndexError)
    ensures r.Ok? ==> |r.value| == 8 * (|data| / 8 + 1)
  {
    var k :- CheckKey(key);
    var v :- CheckIv(iv);
    var ks :- Subkeys(k);
    PaddedBits(data);
    var out := OfbWholeBytes(AddPadding(data), v, Cipher(ks));
    assert |out| == |AddPadding(data)|;
    Ok(out)
  }

  /** `decryptOFB`: the same keystream with the same forward schedule, and no
      padding removed. A short final block is XORed with a whole keystream
      block, so the output is rounded up to whole blocks. */
  function DecryptOfb(data: seq<Byte>, key: Arg, iv: Arg): (r: Result<seq<Byte>>)
    ensures r.Ok? <==> ValidKey(key) && ValidIv(iv)
    ensures !key.Bytes? ==> r == CheckKey(key).PropagateFailure()
    ensures key.Bytes? && !ValidIv(iv) ==> r == CheckIv(iv).PropagateFailure()
    ensures key.Bytes? && ValidIv(iv) && |key.bytes| < 8 ==> r == Err(IndexError)
    ensures r.Ok? ==> |r.value| == 8 * ((|data| + 7) / 8)
  {
    var k :- CheckKey(key);
    var v :- CheckIv(iv);
    var ks :- Subkeys(k);
    Ok(OfbWholeBytes(data, v, Cipher(ks)))
  }

  /** OFB decryption of an OFB ciphertext gives back the PADDED message:
      encryption pads and decryption does not unpad. */
  lemma OfbRoundTrip(data: seq<Byte>, key: Arg, iv: Arg)
    requires ValidKey(key) && ValidIv(iv)
    ensures DecryptOfb(EncryptOfb(data, key, iv).value, key, iv) == Ok(AddPadding(data))
  {
    var ks := KeySchedule(key.bytes);
    OfbWholeBytesTwice(AddPadding(data), iv.bytes, Cipher(ks));
  }
}
