/** The second DES engine, in `password-crack/PasswordCracker.py`: a copy of
    the `core.py` engine (same tables, same key schedule, same round
    function) with its own padding rule, its own `DES` class over lower-case
    mode names, and the LM hash built on it. Only the byte path is modelled;
    the hex and UTF-8 formatting around it is presentation. */
module PasswordCracker {
  import opened Bits
  import opened Results
  import opened Padding
  import opened Feistel
  import opened DesTables
  import opened DesCore
  import opened Modes
  import opened DesModes

  // ---------------------------------------------------------------------------
  // Helpers of `Core` that differ from, or are checked against, `core.py`
  // ---------------------------------------------------------------------------

  /** `_add_padding` of this engine: a message that is already whole blocks
      is returned as it is; otherwise `n = 8 - |m| % 8` bytes of value `n`
      are appended, exactly as `core.py` does. */
  function PcAddPadding(m: seq<Byte>): (r: seq<Byte>)
    ensures |r| % 8 == 0
    ensures |m| % 8 == 0 ==> r == m
    ensures |m| % 8 != 0 ==> r == AddPadding(m)
  {
    if |m| % 8 == 0 then m
    else
      var n := 8 - |m| % 8;
      m + seq(n, _ => n)
  }

  /** The padding checks of `run_unit_tests`: `b'CSC428'` gains two bytes of
      value 2, and removing them gives it back. */
  lemma PcPaddingExamples()
    ensures PcAddPadding([67, 83, 67, 52, 50, 56]) == [67, 83, 67, 52, 50, 56, 2, 2]
    ensures RemPadding([67, 83, 67, 52, 50, 56, 2, 2]) == Ok([67, 83, 67, 52, 50, 56])
  {
    assert seq(2, _ => 2) == [2, 2];
  }

  /** The XOR check of `run_unit_tests`: the common prefix is XORed and the
      longer operand's tail is kept. */
  lemma XorExample()
    ensures Xor([1, 1, 1, 1, 0], [1, 0, 0, 1, 0, 1, 1]) == [0, 1, 1, 0, 0, 1, 1]
  {
    var r := Xor([1, 1, 1, 1, 0], [1, 0, 0, 1, 0, 1, 1]);
    assert r[0] == 0 && r[1] == 1 && r[2] == 1 && r[3] == 0 && r[4] == 0;
  }

  /** The rotation check of `run_unit_tests`. */
  lemma LShiftExample()
    ensures LShift([1, 0, 1, 0, 1, 1, 1], 3) == [0, 1, 1, 1, 1, 0, 1]
  {
    var s: seq<Bit> := [1, 0, 1, 0, 1, 1, 1];
    assert s[3..] == [0, 1, 1, 1] && s[..3] == [1, 0, 1];
  }

  // ---------------------------------------------------------------------------
  // The block routine
  // ---------------------------------------------------------------------------

  /** One round as this engine writes it: the round function's output comes
      first in the XOR. */
  function PcRound<K>(l: Half, r: Half, k: K, f: (Half, K) -> Half): (Half, Half)
  {
    (r, Xor(f(r, k), l))
  }

  /** The rounds of `_encrypt_block`, round keys taken from the front. */
  function PcRounds<K>(l: Half, r: Half, ks: seq<K>, f: (Half, K) -> Half): (Half, Half)
    decreases |ks|
  {
    if |ks| == 0 then (l, r)
    else
      var (l1, r1) := PcRound(l, r, ks[0], f);
      PcRounds(l1, r1, ks[1..], f)
  }

  /** Swapping the XOR operands changes nothing: these rounds are the
      Feistel rounds of `core.py`, for any round function. */
  lemma {:induction false} PcRoundsAgree<K>(l: Half, r: Half, ks: seq<K>, f: (Half, K) -> Half)
    ensures PcRounds(l, r, ks, f) == Rounds(l, r, ks, f)
    decreases |ks|
  {
    if |ks| > 0 {
      XorComm(f(r, ks[0]), l);
      PcRoundsAgree(r, Xor(l, f(r, ks[0])), ks[1..], f);
    }
  }

  /** `_encrypt_block` of this engine: IP, sixteen rounds, the halves
      swapped, IP^-1. The tables, the round function (`_function`) and the
      subkeys (`_generate_subkeys`, called with the same tables) are those
      of `core.py`. */
  function PcEncryptBlock(b: Block, ks: Schedule): (c: Block)
  {
    var p := Permute(b, InitPermutation);
    var (l, r) := PcRounds(p[..32], p[32..], ks, F);
    Permute(r + l, FinalPermutation)
  }

  /** Both engines encrypt every block alike under every schedule. */
  lemma PcEncryptBlockAgrees(b: Block, ks: Schedule)
    ensures PcEncryptBlock(b, ks) == EncryptBlock(b, ks)
  {
    var p := Permute(b, InitPermutation);
    PcRoundsAgree(p[..32], p[32..], ks, F);
  }

  /** This engine's block routine with a fixed schedule, as a block function. */
  function PcCipher(ks: Schedule): Block -> Block
  {
    b => PcEncryptBlock(b, ks)
  }

  /** The reversed schedule undoes the schedule in this engine too. */
  lemma PcCipherInverse(ks: Schedule)
    ensures forall b: Block :: PcCipher(ReverseSchedule(ks))(PcCipher(ks)(b)) == b
  {
    forall b: Block
      ensures PcCipher(ReverseSchedule(ks))(PcCipher(ks)(b)) == b
    {
      var c := EncryptBlock(b, ks);
      PcEncryptBlockAgrees(b, ks);
      PcEncryptBlockAgrees(c, ReverseSchedule(ks));
      BlockRoundTrip(b, ks);
    }
  }

  // ---------------------------------------------------------------------------
  // `DES.encrypt` and `DES.decrypt`
  // ---------------------------------------------------------------------------

  /** The mode names the loops act on; any other name makes them do nothing. */
  predicate PcMode(mode: string)
  {
    mode == "ecb" || mode == "cbc" || mode == "ofb"
  }

  /** The constructor's default IV. */
  const ZeroIv: seq<Byte> := [0, 0, 0, 0, 0, 0, 0, 0]

  /** The OFB keystream start: the block routine reads the first 64 bits of
      the IV's bits. */
  function OfbIv(iv: seq<Byte>): (o: Block)
    requires |iv| >= 8
    ensures o == BytesToBits(iv)[..64]
  {
    BytesToBitsSlice(iv, 0, 8);
    assert iv[0..8] == iv[..8];
    BytesToBits(iv[..8])
  }

  /** `DES.encrypt` on bytes, with CBC chaining from the IV's bits (the
      evidently intended behaviour; `PcEncryptAsWritten` is the code as it
      stands). The subkeys are computed for every mode, so a short key fails
      first. ECB and CBC pad with `PcAddPadding`; OFB does not pad, and it
      needs a whole IV block only once there is a block to encrypt; an
      unknown mode produces nothing. */
  function PcEncrypt(key: seq<Byte>, mode: string, iv: seq<Byte>, data: seq<Byte>): (r: Result<seq<Byte>>)
    ensures |key| < 8 ==> r == Err(IndexError)
    ensures r.Ok? <==> |key| >= 8 && (mode == "ofb" ==> |data| == 0 || |iv| >= 8)
    ensures r.Err? ==> r.error == IndexError
    ensures |key| >= 8 && (mode == "ecb" || mode == "cbc") ==> r.Ok? && |r.value| == |PcAddPadding(data)|
    ensures |key| >= 8 && mode == "ofb" && |iv| >= 8 ==> r.Ok? && |r.value| == |data|
    ensures |key| >= 8 && !PcMode(mode) ==> r == Ok([])
  {
    if |key| < 8 then Err(IndexError)
    else
      var e := PcCipher(KeySchedule(key));
      if mode == "ecb" then Ok(EcbWholeBytes(PcAddPadding(data), e))
      else if mode == "cbc" then Ok(CbcWholeBytes(PcAddPadding(data), BytesToBits(iv), e))
      else if mode == "ofb" then
        if |data| == 0 then Ok([])
        else if |iv| < 8 then Err(IndexError)
        else Ok(OfbBytes(data, OfbIv(iv), e))
      else Ok([])
  }

  /** IV bytes that are all 0 or 1, the only ones the CBC branch as written
      can XOR into a bit list without producing non-bit values. */
  predicate BitValued(iv: seq<Byte>)
  {
    forall i :: 0 <= i < |iv| ==> iv[i] <= 1
  }

  /** The IV bytes read as bits, one byte per bit. */
  function RawIv(iv: seq<Byte>): (r: seq<Bit>)
    requires BitValued(iv)
    ensures |r| == |iv|
    ensures forall i :: 0 <= i < |iv| ==> r[i] == iv[i]
  {
    seq(|iv|, i requires 0 <= i < |iv| => iv[i])
  }

  /** `DES.encrypt` as written: in CBC mode the IV is never converted to
      bits, so the first block is XORed with the raw IV bytes, one byte per
      bit; the other modes are as in `PcEncrypt`. */
  function PcEncryptAsWritten(key: seq<Byte>, mode: string, iv: seq<Byte>, data: seq<Byte>): (r: Result<seq<Byte>>)
    requires mode == "cbc" ==> BitValued(iv)
    ensures mode != "cbc" ==> r == PcEncrypt(key, mode, iv, data)
    ensures mode == "cbc" ==> (r.Ok? <==> |key| >= 8)
    ensures mode == "cbc" && |key| >= 8 ==> |r.value| == |PcAddPadding(data)|
  {
    if mode == "cbc" && |key| >= 8 then
      Ok(CbcWholeBytes(PcAddPadding(data), RawIv(iv), PcCipher(KeySchedule(key))))
    else PcEncrypt(key, mode, iv, data)
  }

  /** `DES.decrypt` on bytes. The IV is always taken as bits. An unknown
      mode computes no subkeys and decrypts nothing, and then `_rem_padding`
      reads the last byte of nothing. ECB and CBC run the reversed schedule
      and always strip the padding: a short final block and empty data both
      fail with an IndexError. OFB runs the forward schedule and strips
      nothing. */
  function PcDecrypt(key: seq<Byte>, mode: string, iv: seq<Byte>, data: seq<Byte>): (r: Result<seq<Byte>>)
    ensures !PcMode(mode) ==> r == Err(IndexError)
    ensures r.Err? ==> r.error == IndexError
    ensures r.Ok? <==>
              (PcMode(mode) && |key| >= 8
               && (if mode == "ofb" then |data| == 0 || |iv| >= 8 else WholeBlocks(data)))
    ensures |key| >= 8 && mode == "ofb" && |iv| >= 8 ==> r.Ok? && |r.value| == |data|
  {
    if !PcMode(mode) then Err(IndexError)
    else if |key| < 8 then Err(IndexError)
    else
      var ks := KeySchedule(key);
      if mode == "ofb" then
        if |data| == 0 then Ok([])
        else if |iv| < 8 then Err(IndexError)
        else Ok(OfbBytes(data, OfbIv(iv), PcCipher(ks)))
      else if |data| % 8 != 0 then Err(IndexError)
      else if mode == "ecb" then EcbDecryptBytes(data, PcCipher(ReverseSchedule(ks)))
      else CbcDecryptBytes(data, iv, PcCipher(ReverseSchedule(ks)))
  }

  /** ECB decryption undoes ECB encryption when the message is not whole
      blocks, so that the encryption did pad it. */
  lemma PcEcbRoundTrip(key: seq<Byte>, iv: seq<Byte>, data: seq<Byte>)
    requires |key| >= 8 && |data| % 8 != 0
    ensures PcDecrypt(key, "ecb", iv, PcEncrypt(key, "ecb", iv, data).value) == Ok(data)
  {
    var ks := KeySchedule(key);
    PcCipherInverse(ks);
    EcbBytesRoundTrip(data, PcCipher(ks), PcCipher(ReverseSchedule(ks)));
  }

  /** CBC decryption undoes CBC encryption with an eight-byte IV when the
      message is not whole blocks. */
  lemma PcCbcRoundTrip(key: seq<Byte>, iv: seq<Byte>, data: seq<Byte>)
    requires |key| >= 8 && |iv| == 8 && |data| % 8 != 0
    ensures PcDecrypt(key, "cbc", iv, PcEncrypt(key, "cbc", iv, data).value) == Ok(data)
  {
    var ks := KeySchedule(key);
    PcCipherInverse(ks);
    CbcBytesRoundTrip(data, iv, PcCipher(ks), PcCipher(ReverseSchedule(ks)));
  }

  /** A message that is already whole blocks is encrypted unpadded, yet
      decryption strips padding all the same: what comes back is the
      message with as many bytes dropped as its last byte says. */
  lemma PcWholeBlocksUnpadded(key: seq<Byte>, mode: string, iv: seq<Byte>, data: seq<Byte>)
    requires |key| >= 8 && (mode == "ecb" || mode == "cbc") && |iv| == 8 && |data| % 8 == 0
    ensures PcDecrypt(key, mode, iv, PcEncrypt(key, mode, iv, data).value) == RemPadding(data)
  {
    var ks := KeySchedule(key);
    var e, d := PcCipher(ks), PcCipher(ReverseSchedule(ks));
    PcCipherInverse(ks);
    if mode == "ecb" {
      assert PcEncrypt(key, mode, iv, data).value == EcbWholeBytes(data, e);
      EcbWholeBlocksBack(data, e, d);
    } else {
      assert PcEncrypt(key, mode, iv, data).value == CbcWholeBytes(data, BytesToBits(iv), e);
      CbcWholeBlocksBack(data, iv, e, d);
    }
  }

  /** ECB with an inverse pair of block functions gives whole blocks back,
      less what the last byte says is padding. */
  lemma EcbWholeBlocksBack(data: seq<Byte>, e: Block -> Block, d: Block -> Block)
    requires |data| % 8 == 0
    requires forall b: Block :: d(e(b)) == b
    ensures EcbDecryptBytes(EcbWholeBytes(data, e), d) == RemPadding(data)
  {
    WholeBlockBits(data);
    Modes.EcbRoundTrip(BytesToBits(data), e, d);
    BytesBitsRoundTrip(data);
  }

  /** CBC with an inverse pair of block functions gives whole blocks back,
      less what the last byte says is padding. */
  lemma CbcWholeBlocksBack(data: seq<Byte>, iv: seq<Byte>, e: Block -> Block, d: Block -> Block)
    requires |data| % 8 == 0 && |iv| == 8
    requires forall b: Block :: d(e(b)) == b
    ensures CbcDecryptBytes(CbcWholeBytes(data, BytesToBits(iv), e), iv, d) == RemPadding(data)
  {
    WholeBlockBits(data);
    Modes.CbcRoundTrip(BytesToBits(data), BytesToBits(iv), e, d);
    BytesBitsRoundTrip(data);
  }

  /** With the padding rule of `core.py`, which pads whole-block messages
      too, this engine's ECB and CBC decryption give every message back,
      whole blocks and the empty message included. */
  lemma PcPaddedRoundTrip(key: seq<Byte>, iv: seq<Byte>, data: seq<Byte>)
    requires |key| >= 8 && |iv| == 8
    ensures var ks := KeySchedule(key);
      PcDecrypt(key, "ecb", iv, EcbWholeBytes(AddPadding(data), PcCipher(ks))) == Ok(data)
      && PcDecrypt(key, "cbc", iv, CbcWholeBytes(AddPadding(data), BytesToBits(iv), PcCipher(ks))) == Ok(data)
  {
    var ks := KeySchedule(key);
    PcCipherInverse(ks);
    PaddingRoundTrip(data);
    PaddedEcbBack(key, iv, data);
    PaddedCbcBack(key, iv, data);
  }

  /** The ECB half of `PcPaddedRoundTrip`, up to the padding removal. */
  lemma PaddedEcbBack(key: seq<Byte>, iv: seq<Byte>, data: seq<Byte>)
    requires |key| >= 8
    ensures var ks := KeySchedule(key);
      PcDecrypt(key, "ecb", iv, EcbWholeBytes(AddPadding(data), PcCipher(ks))) == RemPadding(AddPadding(data))
  {
    var ks := KeySchedule(key);
    PcCipherInverse(ks);
    EcbWholeBlocksBack(AddPadding(data), PcCipher(ks), PcCipher(ReverseSchedule(ks)));
  }

  /** The CBC half of `PcPaddedRoundTrip`, up to the padding removal. */
  lemma PaddedCbcBack(key: seq<Byte>, iv: seq<Byte>, data: seq<Byte>)
    requires |key| >= 8 && |iv| == 8
    ensures var ks := KeySchedule(key);
      PcDecrypt(key, "cbc", iv, CbcWholeBytes(AddPadding(data), BytesToBits(iv), PcCipher(ks))) == RemPadding(AddPadding(data))
  {
    var ks := KeySchedule(key);
    PcCipherInverse(ks);
    CbcWholeBlocksBack(AddPadding(data), iv, PcCipher(ks), PcCipher(ReverseSchedule(ks)));
  }

  /** Two instances: `b"ABCDEFGH"` decrypts to nothing (its last byte, 72,
      exceeds its length) and the empty message fails to decrypt. */
  lemma PcWholeBlockExamples(key: seq<Byte>)
    requires |key| >= 8
    ensures PcDecrypt(key, "ecb", ZeroIv, PcEncrypt(key, "ecb", ZeroIv, [65, 66, 67, 68, 69, 70, 71, 72]).value) == Ok([])
    ensures PcDecrypt(key, "ecb", ZeroIv, PcEncrypt(key, "ecb", ZeroIv, []).value) == Err(IndexError)
  {
    PcWholeBlocksUnpadded(key, "ecb", ZeroIv, [65, 66, 67, 68, 69, 70, 71, 72]);
    PcWholeBlocksUnpadded(key, "ecb", ZeroIv, []);
  }

  /** OFB decryption undoes OFB encryption exactly: neither pads. */
  lemma PcOfbRoundTrip(key: seq<Byte>, iv: seq<Byte>, data: seq<Byte>)
    requires |key| >= 8 && |iv| >= 8
    ensures PcDecrypt(key, "ofb", iv, PcEncrypt(key, "ofb", iv, data).value) == Ok(data)
  {
    if |data| > 0 {
      OfbBytesTwice(data, OfbIv(iv), PcCipher(KeySchedule(key)));
    }
  }

  /** The CBC branch as written, unfolded. */
  lemma PcEncryptCbcAsWritten(key: seq<Byte>, iv: seq<Byte>, data: seq<Byte>)
    requires |key| >= 8 && BitValued(iv)
    ensures PcEncryptAsWritten(key, "cbc", iv, data)
         == Ok(CbcWholeBytes(PcAddPadding(data), RawIv(iv), PcCipher(KeySchedule(key))))
  {
  }

  /** The corrected CBC branch, unfolded. */
  lemma PcEncryptCbc(key: seq<Byte>, iv: seq<Byte>, data: seq<Byte>)
    requires |key| >= 8
    ensures PcEncrypt(key, "cbc", iv, data)
         == Ok(CbcWholeBytes(PcAddPadding(data), BytesToBits(iv), PcCipher(KeySchedule(key))))
  {
  }

  /** CBC decryption of whole blocks, unfolded. */
  lemma PcDecryptCbc(key: seq<Byte>, iv: seq<Byte>, data: seq<Byte>)
    requires |key| >= 8 && |data| % 8 == 0
    ensures PcDecrypt(key, "cbc", iv, data)
         == CbcDecryptBytes(data, iv, PcCipher(ReverseSchedule(KeySchedule(key))))
  {
  }

  /** CBC encryption depends on the IV only through what it does to the
      first block. */
  lemma CbcFirstBlockOnly(bits: seq<Bit>, iv1: seq<Bit>, iv2: seq<Bit>, e: Block -> Block)
    requires |bits| % 64 == 0 && |bits| > 0
    requires Xor(bits[..64], iv1)[..64] == Xor(bits[..64], iv2)[..64]
    ensures CbcEncrypt(bits, iv1, e) == CbcEncrypt(bits, iv2, e)
  {
  }

  /** One block, encrypted in CBC mode. */
  lemma CbcEncryptOneBlock(b: Block, iv: seq<Bit>, e: Block -> Block)
    ensures CbcEncrypt(b, iv, e) == e(Xor(b, iv)[..64])
  {
    assert b[..64] == b;
    assert |b[64..]| == 0;
  }

  /** One block, decrypted in CBC mode, is the decrypted block XORed with
      the IV. */
  lemma CbcDecryptOneBlock(c: Block, v: seq<Bit>, d: Block -> Block)
    ensures CbcDecrypt(c, v, d) == Xor(d(c), v)
  {
    assert c[..64] == c;
    assert |c[64..]| == 0;
  }

  /** XOR with zeros changes nothing. */
  lemma {:induction false} XorZeros(x: seq<Bit>, n: nat)
    requires n <= |x|
    ensures Xor(x, Zeros(n)) == x
  {
    var r := Xor(x, Zeros(n));
    forall i | 0 <= i < |x|
      ensures r[i] == x[i]
    {
      if i < n {
        assert r[i] == BitXor(x[i], 0);
      }
    }
  }

  /** XOR of two concatenations with equally long fronts is the
      concatenation of the XORs. */
  lemma XorAppend(a: seq<Bit>, b: seq<Bit>, x: seq<Bit>, y: seq<Bit>)
    requires |a| == |x|
    ensures Xor(a + b, x + y) == Xor(a, x) + Xor(b, y)
  {
    var r, s := Xor(a + b, x + y), Xor(a, x) + Xor(b, y);
    assert |r| == |s|;
    forall i | 0 <= i < |r|
      ensures r[i] == s[i]
    {
      if i >= |a| {
        var j := i - |a|;
        if j < |b| {
          assert (a + b)[i] == b[j];
        }
        if j < |y| {
          assert (x + y)[i] == y[j];
        }
      }
    }
  }

  /** Zero bytes are zero bits. */
  lemma ZeroBytesBits(n: nat)
    ensures BytesToBits(seq(n, _ => 0)) == Zeros(8 * n)
  {
    if n > 0 {
      assert ByteToBits(0) == Zeros(8);
      ZeroBytesBits(n - 1);
      assert seq(n, _ => 0)[1..] == seq(n - 1, _ => 0);
      assert Zeros(8) + Zeros(8 * (n - 1)) == Zeros(8 * n);
    }
  }

  /** The default IV, as raw bytes and as bits, is all zeros. */
  lemma ZeroIvBits()
    ensures RawIv(ZeroIv) == Zeros(8)
    ensures BytesToBits(ZeroIv) == Zeros(64)
  {
    ZeroBytesBits(8);
    assert ZeroIv == seq(8, _ => 0);
  }

  /** An IV that changes no bit of a block, raw or converted, gives the same
      CBC ciphertext either way. */
  lemma {:induction false} NeutralIvAgrees(key: seq<Byte>, iv: seq<Byte>, data: seq<Byte>)
    requires |key| >= 8 && |iv| == 8 && BitValued(iv)
    requires RawIv(iv) == Zeros(|iv|) && BytesToBits(iv) == Zeros(8 * |iv|)
    ensures PcEncryptAsWritten(key, "cbc", iv, data) == PcEncrypt(key, "cbc", iv, data)
  {
    PcEncryptCbcAsWritten(key, iv, data);
    PcEncryptCbc(key, iv, data);
    var m := PcAddPadding(data);
    var p := BytesToBits(m);
    var e := PcCipher(KeySchedule(key));
    WholeBlockBits(m);
    if |m| > 0 {
      assert |m| >= 8 && |p| == 8 * |m|;
      ZeroIvFirstBlock(p, RawIv(iv), BytesToBits(iv), e);
    }
    assert CbcWholeBytes(m, RawIv(iv), e) == CbcWholeBytes(m, BytesToBits(iv), e);
  }

  /** Two all-zero IVs of at most one block chain alike. */
  lemma ZeroIvFirstBlock(p: seq<Bit>, iv1: seq<Bit>, iv2: seq<Bit>, e: Block -> Block)
    requires |p| % 64 == 0 && |p| > 0 && |iv1| <= 64 && |iv2| <= 64
    requires iv1 == Zeros(|iv1|) && iv2 == Zeros(|iv2|)
    ensures CbcEncrypt(p, iv1, e) == CbcEncrypt(p, iv2, e)
  {
    XorZeros(p[..64], |iv1|);
    XorZeros(p[..64], |iv2|);
    CbcFirstBlockOnly(p, iv1, iv2, e);
  }

  /** With the default all-zero IV the raw bytes and the bits XOR alike, so
      the code as written agrees with the corrected CBC. */
  lemma PcZeroIvAgrees(key: seq<Byte>, data: seq<Byte>)
    ensures PcEncryptAsWritten(key, "cbc", ZeroIv, data) == PcEncrypt(key, "cbc", ZeroIv, data)
  {
    if |key| >= 8 {
      ZeroIvBits();
      NeutralIvAgrees(key, ZeroIv, data);
    }
  }

  /** The bits of the bytes in the example below. */
  lemma Bits65()
    ensures ByteToBits(65) == [0, 1, 0, 0, 0, 0, 0, 1]
  {
  }

  lemma Bits193()
    ensures ByteToBits(193) == [1, 1, 0, 0, 0, 0, 0, 1]
  {
  }

  lemma Bits192()
    ensures ByteToBits(192) == [1, 1, 0, 0, 0, 0, 0, 0]
  {
  }

  lemma Bits1()
    ensures ByteToBits(1) == [0, 0, 0, 0, 0, 0, 0, 1]
  {
  }

  /** XORing a one in the first place flips the first of eight bits. */
  lemma XorFirstOfEight(x: seq<Bit>)
    requires |x| == 8
    ensures Xor(x, [1, 0, 0, 0, 0, 0, 0, 0]) == [BitXor(x[0], 1)] + x[1..]
  {
    assert x == [x[0]] + x[1..];
    assert [1, 0, 0, 0, 0, 0, 0, 0] == [1] + Zeros(7);
    XorAppend([x[0]], x[1..], [1], Zeros(7));
    XorZeros(x[1..], 7);
  }

  /** 0x41 with its first bit flipped is 0xC1. */
  lemma FlipFirstBit()
    ensures Xor(ByteToBits(65), [1, 0, 0, 0, 0, 0, 0, 0]) == ByteToBits(193)
  {
    var a: seq<Bit> := [0, 1, 0, 0, 0, 0, 0, 1];
    Bits65();
    Bits193();
    XorFirstOfEight(a);
    assert [1] + a[1..] == [1, 1, 0, 0, 0, 0, 0, 1];
  }

  /** 0xC1 XORed with the bits of the byte 1 is 0xC0. */
  lemma FlipLastBit()
    ensures Xor(ByteToBits(193), ByteToBits(1)) == ByteToBits(192)
  {
    Bits193();
    Bits1();
    Bits192();
    var x := Xor([1, 1, 0, 0, 0, 0, 0, 1], [0, 0, 0, 0, 0, 0, 0, 1]);
    assert x[0] == 1 && x[1] == 1 && x[7] == 0;
    assert x[2] == 0 && x[3] == 0 && x[4] == 0 && x[5] == 0 && x[6] == 0;
  }

  /** The bits of an IV whose first byte is 1 and whose other bytes are 0. */
  lemma IvOneBits()
    ensures BytesToBits([1, 0, 0, 0, 0, 0, 0, 0]) == ByteToBits(1) + Zeros(56)
  {
    var n := 7;
    assert [1, 0, 0, 0, 0, 0, 0, 0] == [1] + seq(n, _ => 0);
    BytesToBitsAppend([1], seq(n, _ => 0));
    assert BytesToBits([1]) == ByteToBits(1) + BytesToBits([]);
    ZeroBytesBits(n);
  }

  /** XORing eight bits, then zeros, into a message changes its first byte
      only. */
  lemma XorFrontByte(a: Byte, c: Byte, pad: seq<Byte>, y: seq<Bit>, n: nat)
    requires |y| == 8 && n <= 8 * |pad|
    requires Xor(ByteToBits(a), y) == ByteToBits(c)
    ensures Xor(BytesToBits([a] + pad), y + Zeros(n)) == BytesToBits([c] + pad)
  {
    var t := BytesToBits(pad);
    BytesToBitsAppend([a], pad);
    BytesToBitsAppend([c], pad);
    assert BytesToBits([a]) == ByteToBits(a) + BytesToBits([]);
    assert BytesToBits([c]) == ByteToBits(c) + BytesToBits([]);
    XorAppend(ByteToBits(a), t, y, Zeros(n));
    XorZeros(t, n);
  }

  /** The raw IV `01 00 00 00 00 00 00 00` as bits. */
  lemma RawIvOne()
    ensures RawIv([1, 0, 0, 0, 0, 0, 0, 0]) == [1, 0, 0, 0, 0, 0, 0, 0] + Zeros(0)
  {
  }

  /** The raw IV `01 00 00 00 00 00 00 00` flips the first bit of 0x41
      followed by any seven bytes, turning it into 0xC1. */
  lemma RawIvFlipsFirst(pad: seq<Byte>)
    requires |pad| == 7
    ensures Xor(BytesToBits([65] + pad), RawIv([1, 0, 0, 0, 0, 0, 0, 0]))[..64]
         == BytesToBits([193] + pad)
  {
    RawIvXorFront(pad);
    var x := BytesToBits([193] + pad);
    assert x[..64] == x;
  }

  /** The whole XOR of the message with the raw IV, before the cut to one
      block. */
  lemma RawIvXorFront(pad: seq<Byte>)
    requires |pad| == 7
    ensures Xor(BytesToBits([65] + pad), RawIv([1, 0, 0, 0, 0, 0, 0, 0])) == BytesToBits([193] + pad)
  {
    RawIvOne();
    FlipFirstBit();
    XorFrontByte(65, 193, pad, [1, 0, 0, 0, 0, 0, 0, 0], 0);
  }

  /** Encryption half of the example below: the block function sees 0xC1
      instead of 0x41. */
  lemma RawIvEncryptsFlipped(pad: seq<Byte>, e: Block -> Block)
    requires |pad| == 7
    ensures BytesToBits(CbcWholeBytes([65] + pad, RawIv([1, 0, 0, 0, 0, 0, 0, 0]), e))
         == e(BytesToBits([193] + pad))
  {
    var m: seq<Byte> := [65] + pad;
    var b: Block := BytesToBits(m);
    var iv := RawIv([1, 0, 0, 0, 0, 0, 0, 0]);
    RawIvFlipsFirst(pad);
    CbcEncryptOneBlock(b, iv, e);
    assert BytesToBits(CbcWholeBytes(m, iv, e)) == CbcEncrypt(b, iv, e);
  }

  /** Decryption half of the example below: the IV's bits turn 0xC1 into
      0xC0. */
  lemma IvBitsFlipLast(pad: seq<Byte>)
    requires |pad| == 7
    ensures Xor(BytesToBits([193] + pad), BytesToBits([1, 0, 0, 0, 0, 0, 0, 0]))
         == BytesToBits([192] + pad)
  {
    IvOneBits();
    FlipLastBit();
    XorFrontByte(193, 192, pad, ByteToBits(1), 56);
  }

  /** The example below for any pair of mutually undoing block functions:
      the raw IV flips bit 0 of 0x41 on the way in, its bits flip bit 7 on
      the way out, and the padding byte 7 is stripped. */
  lemma RawIvExample(pad: seq<Byte>, e: Block -> Block, d: Block -> Block)
    requires |pad| == 7 && pad[6] == 7
    requires forall b: Block :: d(e(b)) == b
    ensures var iv: seq<Byte> := [1, 0, 0, 0, 0, 0, 0, 0];
            CbcDecryptBytes(CbcWholeBytes([65] + pad, RawIv(iv), e), iv, d) == Ok([192])
  {
    var iv: seq<Byte> := [1, 0, 0, 0, 0, 0, 0, 0];
    var x: Block := BytesToBits([193] + pad);
    RawIvEncryptsFlipped(pad, e);
    CbcDecryptOneBlock(e(x), BytesToBits(iv), d);
    assert d(e(x)) == x;
    IvBitsFlipLast(pad);
    var m2: seq<Byte> := [192] + pad;
    BytesBitsRoundTrip(m2);
    assert m2[..|m2| - 7] == [192];
  }

  /** The IV `01 00 00 00 00 00 00 00` breaks the CBC round trip as written:
      encryption flips the first bit of the message (the raw byte 1 sits at
      bit 0), decryption flips the eighth (where the byte's bits put it), so
      `b"A"` (0x41) comes back as 0xC0 under every key. */
  lemma PcRawIvFlipsBits(key: seq<Byte>)
    requires |key| >= 8
    ensures PcDecrypt(key, "cbc", [1, 0, 0, 0, 0, 0, 0, 0],
              PcEncryptAsWritten(key, "cbc", [1, 0, 0, 0, 0, 0, 0, 0], [65]).value) == Ok([192])
  {
    var iv: seq<Byte> := [1, 0, 0, 0, 0, 0, 0, 0];
    var ks := KeySchedule(key);
    PcCipherInverse(ks);
    var pad: seq<Byte> := seq(7, _ => 7);
    assert PcAddPadding([65]) == [65] + pad;
    PcEncryptCbcAsWritten(key, iv, [65]);
    var ct := CbcWholeBytes([65] + pad, RawIv(iv), PcCipher(ks));
    PcDecryptCbc(key, iv, ct);
    RawIvExample(pad, PcCipher(ks), PcCipher(ReverseSchedule(ks)));
  }

  // ---------------------------------------------------------------------------
  // The LM hash
  // ---------------------------------------------------------------------------

  /** Every character is ASCII, so `upper` and `encode` work byte by byte. */
  predicate Ascii(s: string)
  {
    forall i :: 0 <= i < |s| ==> s[i] < 128 as char
  }

  /** `str.upper` on one ASCII character. */
  function UpperByte(c: char): (b: Byte)
    requires c < 128 as char
    ensures 'a' <= c <= 'z' ==> b == (c as int) - 32
    ensures !('a' <= c <= 'z') ==> b == c as int
  {
    if 'a' <= c <= 'z' then (c as int) - 32 else c as int
  }

  /** The fourteen password bytes: upper-cased, encoded, then cut to 14 bytes
      or padded with NUL bytes up to 14. */
  function LmPassword(password: string): (pw: seq<Byte>)
    requires Ascii(password)
    ensures |pw| == 14
    ensures forall i :: 0 <= i < |password| && i < 14 ==> pw[i] == UpperByte(password[i])
    ensures forall i :: |password| <= i < 14 ==> pw[i] == 0
  {
    var b := seq(|password|, i requires 0 <= i < |password| => UpperByte(password[i]));
    if |b| > 14 then b[..14]
    else if |b| < 14 then b + seq(14 - |b|, _ => 0)
    else b
  }

  /** Bits `7j..7j+6` of the 56 bits of a key half. */
  function Group(bits: seq<Bit>, j: nat): (g: seq<Bit>)
    requires j < 8 && |bits| == 56
    ensures |g| == 7
  {
    bits[7 * j..7 * j + 7]
  }

  /** Byte `j` of a 64-bit key, as bits. */
  function Octet(key: seq<Bit>, j: nat): (o: seq<Bit>)
    requires j < 8 && |key| == 64
    ensures |o| == 8
  {
    key[8 * j..8 * j + 8]
  }

  /** The 64 key bits made from 56: bit `i` of the key is 0 when `i` is the
      last bit of a byte and bit `7 * (i / 8) + i % 8` of the half otherwise;
      that is, every seven bits are followed by a 0. */
  function ParityKeyBits(bits: seq<Bit>): (key: seq<Bit>)
    requires |bits| == 56
    ensures |key| == 64
    ensures forall j :: 0 <= j < 8 ==> Octet(key, j) == Group(bits, j) + [0]
  {
    var key := seq(64, i requires 0 <= i < 64 => if i % 8 == 7 then 0 else bits[7 * (i / 8) + i % 8]);
    forall j | 0 <= j < 8
      ensures Octet(key, j) == Group(bits, j) + [0]
    {
      forall m | 0 <= m < 8
        ensures Octet(key, j)[m] == (Group(bits, j) + [0])[m]
      {
        DivModUnique(8 * j + m, 8, j, m);
        assert Octet(key, j)[m] == key[8 * j + m];
        if m < 7 {
          assert Group(bits, j)[m] == bits[7 * j + m];
        }
      }
    }
    key
  }

  /** The 56 key bits that are not the last of their byte, in order. */
  function DropParity(key: seq<Bit>): (bits: seq<Bit>)
    requires |key| == 64
    ensures |bits| == 56
  {
    seq(56, i requires 0 <= i < 56 => key[8 * (i / 7) + i % 7])
  }

  /** Dropping the inserted bits gives back the 56 bits: the key construction
      loses none of the password's bits. */
  lemma ParityKeyBitsInverse(bits: seq<Bit>)
    requires |bits| == 56
    ensures DropParity(ParityKeyBits(bits)) == bits
  {
    var key := ParityKeyBits(bits);
    forall i | 0 <= i < 56
      ensures DropParity(key)[i] == bits[i]
    {
      var j, m := i / 7, i % 7;
      assert Octet(key, j) == Group(bits, j) + [0];
      assert key[8 * j + m] == Octet(key, j)[m];
    }
  }

  /** The loop of `LMHash` that inserts the zeros: `range(7, 56, 8)` is
      evaluated once, before the list grows, and each insertion at `i` lands
      right after the seven bits of the group it closes; the last zero is
      appended afterwards. */
  method InsertParityBits(bits: seq<Bit>) returns (key: seq<Bit>)
    requires |bits| == 56
    ensures key == ParityKeyBits(bits)
  {
    var target := ParityKeyBits(bits);
    key := bits;
    var k := 0;
    while k < 7
      invariant 0 <= k <= 7
      invariant |key| == 56 + k
      invariant key[..8 * k] == target[..8 * k]
      invariant key[8 * k..] == bits[7 * k..]
    {
      var i := 8 * k + 7;
      var next := key[..i] + [0] + key[i..];
      assert Octet(target, k) == Group(bits, k) + [0];
      assert next[..8 * k] == key[..8 * k];
      assert next[8 * k..8 * k + 8] == key[8 * k..8 * k + 7] + [0];
      assert key[8 * k..8 * k + 7] == bits[7 * k..7 * k + 7];
      assert target[..8 * k + 8] == target[..8 * k] + Octet(target, k);
      assert next[..8 * k + 8] == next[..8 * k] + next[8 * k..8 * k + 8];
      assert next[8 * k + 8..] == key[8 * k + 7..];
      key := next;
      k := k + 1;
    }
    key := key + [0];
    assert Octet(target, 7) == Group(bits, 7) + [0];
    assert target == target[..56] + Octet(target, 7);
  }

  /** A byte whose bits are seven bits followed by a 0 is twice their
      value. */
  lemma ShiftedByte(b: Byte, g: seq<Bit>)
    requires |g| == 7 && ByteToBits(b) == g + [0]
    ensures b == 2 * BitsToNat(g)
  {
    ByteBitsValue(b);
    assert (g + [0])[..7] == g;
  }

  /** Byte `j` of a whole number of bytes is made of bits `8j..8j+7`. */
  lemma ByteAtBits(bytes: seq<Byte>, j: nat)
    requires j < |bytes|
    ensures ByteToBits(bytes[j]) == BytesToBits(bytes)[8 * j..8 * j + 8]
  {
    BytesToBitsSlice(bytes, j, j + 1);
    assert 8 * (j + 1) == 8 * j + 8;
    assert bytes[j..j + 1] == [bytes[j]];
    assert BytesToBits([bytes[j]]) == ByteToBits(bytes[j]) + BytesToBits([]);
  }

  /** The DES key built from the first seven password bytes. Key byte `j` is
      twice the value of bits `7j..7j+6` of those bytes. */
  function LmKey(password: string): (key: seq<Byte>)
    requires Ascii(password)
    ensures |key| == 8
    ensures forall j :: 0 <= j < 8 ==>
      key[j] == 2 * BitsToNat(Group(BytesToBits(LmPassword(password)[..7]), j))
  {
    var bits := BytesToBits(LmPassword(password)[..7]);
    var kb := ParityKeyBits(bits);
    BitsToBytesLength(kb, 8);
    var key := BitsToBytes(kb);
    forall j | 0 <= j < 8
      ensures key[j] == 2 * BitsToNat(Group(bits, j))
    {
      ByteAtBits(key, j);
      assert ByteToBits(key[j]) == Octet(kb, j);
      ShiftedByte(key[j], Group(bits, j));
    }
    key
  }

  /** The constant block `b"KGS!@#$%"`. */
  const Magic: seq<Byte> := [75, 71, 83, 33, 64, 35, 36, 37]

  /** ECB over exactly one block is the block function of that block. */
  lemma EcbOneBlockBytes(m: seq<Byte>, e: Block -> Block)
    requires |m| == 8
    ensures BytesToBits(EcbWholeBytes(m, e)) == e(BytesToBits(m))
  {
    EcbOneBlock(BytesToBits(m), e);
  }

  /** ECB over exactly one block. */
  lemma EcbOneBlock(b: Block, e: Block -> Block)
    ensures Ecb(b, e) == e(b)
  {
    assert b[..64] == b;
    assert |b[64..]| == 0;
  }

  /** `LMHash` as written: the ECB encryption, without padding, of the
      constant block under the key from the first half of the password. The
      hex formatting of the result is not modelled. */
  function LmHash(password: string): (h: seq<Byte>)
    requires Ascii(password)
    ensures |h| == 8
    ensures BytesToBits(h) == EncryptBlock(BytesToBits(Magic), KeySchedule(LmKey(password)))
  {
    var key := LmKey(password);
    var ks := KeySchedule(key);
    assert PcAddPadding(Magic) == Magic;
    var h := PcEncrypt(key, "ecb", ZeroIv, Magic).value;
    EcbOneBlockBytes(Magic, PcCipher(ks));
    PcEncryptBlockAgrees(BytesToBits(Magic), ks);
    h
  }

  /** Only the first seven characters count: a password and its first seven
      characters hash alike. */
  lemma LmHashIgnoresSecondHalf(password: string)
    requires Ascii(password) && |password| >= 7
    ensures LmHash(password) == LmHash(password[..7])
  {
    assert LmPassword(password)[..7] == LmPassword(password[..7])[..7];
  }

  /** Seven NUL bytes: the second half of every password of at most seven
      characters. */
  const NulHalf: seq<Byte> := [0, 0, 0, 0, 0, 0, 0]

  /** A password of at most seven characters is padded with a whole half of
      NUL bytes. */
  lemma ShortPasswordHalf(password: string)
    requires Ascii(password) && |password| <= 7
    ensures LmPassword(password)[7..] == NulHalf
  {
    var pw := LmPassword(password);
    forall i | 0 <= i < 7
      ensures pw[7..][i] == NulHalf[i]
    {
      assert pw[7 + i] == 0;
    }
  }

  /** The LM hash described in the file's header: both seven-byte halves make
      a key, each key encrypts the constant block, and the two results are
      concatenated into sixteen bytes. */
  function LmHashFull(password: string): (h: seq<Byte>)
    requires Ascii(password)
    ensures |h| == 16
  {
    var pw := LmPassword(password);
    LmHalf(pw[..7]) + LmHalf(pw[7..])
  }

  /** The first half of the full hash is what the code returns; every
      password of at most seven characters shares the second half. */
  lemma LmHashFullHalves(password: string)
    requires Ascii(password)
    ensures LmHashFull(password)[..8] == LmHash(password)
    ensures |password| <= 7 ==> LmHashFull(password)[8..] == LmHalf(NulHalf)
  {
    var pw := LmPassword(password);
    var h := LmHashFull(password);
    assert h[..8] == LmHalf(pw[..7]);
    assert h[8..] == LmHalf(pw[7..]);
    LmHalfIsHash(password);
    if |password| <= 7 {
      ShortPasswordHalf(password);
    }
  }

  /** The encryption of the constant block under the key from seven bytes. */
  function LmHalf(half: seq<Byte>): (h: seq<Byte>)
    requires |half| == 7
    ensures |h| == 8
  {
    var kb := ParityKeyBits(BytesToBits(half));
    BitsToBytesLength(kb, 8);
    var key := BitsToBytes(kb);
    var b: Block := BytesToBits(Magic);
    BitsToBytesLength(EncryptBlock(b, KeySchedule(key)), 8);
    BitsToBytes(EncryptBlock(b, KeySchedule(key)))
  }

  /** The first half of the full hash is what `LMHash` returns. */
  lemma LmHalfIsHash(password: string)
    requires Ascii(password)
    ensures LmHalf(LmPassword(password)[..7]) == LmHash(password)
  {
    var h := LmHash(password);
    BytesBitsRoundTrip(h);
  }
}
