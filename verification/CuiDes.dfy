/** The user-facing `DES` and `TDES` classes of `cui_des.py`: a key, a mode
    name and an IV held in an object, `encrypt`/`decrypt` dispatching on the
    mode name, and `reset`. The objects are modelled as immutable records;
    `encrypt` and `decrypt` take the record and return only the output, which
    is all the source does with them: it never assigns to the object there,
    the chaining value being local to each call. */
module CuiDes {
  import opened Bits
  import opened Results
  import opened Padding
  import opened DesModes
  import opened TripleDes

  /** `b'\x00' * 8`, the `originalIV` of both classes. */
  const ZeroIv: seq<Byte> := [0, 0, 0, 0, 0, 0, 0, 0]

  /** The three mode names the dispatch knows. */
  predicate KnownMode(mode: string)
  {
    mode == "ECB" || mode == "CBC" || mode == "OFB"
  }

  /** The failure of `encrypt`/`decrypt` for any other mode name; it is only
      raised at call time, construction accepts any name. */
  function InvalidMode(mode: string): Error
  {
    ValueError("Invalid mode: " + mode)
  }

  // ---------------------------------------------------------------------------
  // DES
  // ---------------------------------------------------------------------------

  /** The state of a `DES` object. */
  datatype Des = Des(key: Arg, mode: string, originalIv: seq<Byte>, iv: Arg)

  /** `DES.__init__` as written: the zero-IV branch for a missing IV is
      overwritten by the next line, so the IV is always the argument. */
  function NewDes(key: Arg, mode: string, iv: Arg): (d: Des)
    ensures d.key == key && d.mode == mode && d.originalIv == ZeroIv
    ensures d.iv == iv
  {
    var d := Des(key, mode, ZeroIv, Missing);
    var d := if iv.Missing? && mode != "ECB" then d.(iv := Bytes(d.originalIv)) else d;
    d.(iv := iv)
  }

  /** `DES.__init__` as its comments intend it: CBC and OFB without an IV
      start from the zero IV. */
  function NewDesDefaulted(key: Arg, mode: string, iv: Arg): (d: Des)
    ensures d.key == key && d.mode == mode && d.originalIv == ZeroIv
    ensures iv.Missing? && mode != "ECB" ==> d.iv == Bytes(ZeroIv)
    ensures !iv.Missing? || mode == "ECB" ==> d.iv == iv
  {
    if iv.Missing? && mode != "ECB" then Des(key, mode, ZeroIv, Bytes(ZeroIv))
    else Des(key, mode, ZeroIv, iv)
  }

  /** `DES.reset`: the IV becomes eight zero bytes, whatever IV the object
      was built with; nothing else changes. */
  function DesReset(d: Des): (r: Des)
    ensures r.key == d.key && r.mode == d.mode && r.originalIv == d.originalIv
    ensures r.iv == Bytes(d.originalIv)
  {
    d.(iv := Bytes(d.originalIv))
  }

  /** `DES.encrypt`: succeeds exactly for a known mode, a usable key and, in
      CBC and OFB, an eight-byte IV. */
  function DesEncrypt(d: Des, data: seq<Byte>): (r: Result<seq<Byte>>)
    ensures !KnownMode(d.mode) ==> r == Err(InvalidMode(d.mode))
    ensures r.Ok? <==> KnownMode(d.mode) && ValidKey(d.key) && (d.mode == "ECB" || ValidIv(d.iv))
    ensures KnownMode(d.mode) && !d.key.Bytes? ==> r == CheckKey(d.key).PropagateFailure()
  {
    if d.mode == "ECB" then EncryptEcb(data, d.key)
    else if d.mode == "CBC" then EncryptCbc(data, d.key, d.iv)
    else if d.mode == "OFB" then EncryptOfb(data, d.key, d.iv)
    else Err(InvalidMode(d.mode))
  }

  /** `DES.decrypt`. OFB decryption succeeds whatever the data; ECB and CBC
      need whole, non-empty blocks. */
  function DesDecrypt(d: Des, data: seq<Byte>): (r: Result<seq<Byte>>)
    ensures !KnownMode(d.mode) ==> r == Err(InvalidMode(d.mode))
    ensures r.Ok? <==> KnownMode(d.mode) && ValidKey(d.key) && (d.mode == "ECB" || ValidIv(d.iv))
                       && (d.mode == "OFB" || WholeBlocks(data))
    ensures KnownMode(d.mode) && !d.key.Bytes? ==> r == CheckKey(d.key).PropagateFailure()
  {
    if d.mode == "ECB" then DecryptEcb(data, d.key)
    else if d.mode == "CBC" then DecryptCbc(data, d.key, d.iv)
    else if d.mode == "OFB" then DecryptOfb(data, d.key, d.iv)
    else Err(InvalidMode(d.mode))
  }

  /** Decrypting with the same object undoes encrypting with it: exactly in
      ECB and CBC, up to the padding in OFB. */
  lemma DesRoundTrip(d: Des, data: seq<Byte>)
    requires KnownMode(d.mode) && ValidKey(d.key) && (d.mode == "ECB" || ValidIv(d.iv))
    ensures d.mode != "OFB" ==> DesDecrypt(d, DesEncrypt(d, data).value) == Ok(data)
    ensures d.mode == "OFB" ==> DesDecrypt(d, DesEncrypt(d, data).value) == Ok(AddPadding(data))
  {
    if d.mode == "ECB" {
      EcbRoundTrip(data, d.key);
    } else if d.mode == "CBC" {
      CbcRoundTrip(data, d.key, d.iv);
    } else {
      OfbRoundTrip(data, d.key, d.iv);
    }
  }

  /** As written, an object built for CBC without an IV fails on its first
      `encrypt` with the IV check's error: the zero-IV default never takes
      effect. */
  lemma DesMissingIvFails(key: seq<Byte>, data: seq<Byte>)
    ensures DesEncrypt(NewDes(Bytes(key), "CBC", Missing), data) == Err(ValueError("IV is None"))
  {
  }

  /** With the default in effect, a CBC or OFB object built without an IV
      encrypts with the zero IV, and decrypts its own output. */
  lemma DesDefaultIvWorks(key: seq<Byte>, mode: string, data: seq<Byte>)
    requires |key| >= 8 && (mode == "CBC" || mode == "OFB")
    ensures DesEncrypt(NewDesDefaulted(Bytes(key), mode, Missing), data).Ok?
    ensures mode == "CBC" ==>
      var d := NewDesDefaulted(Bytes(key), mode, Missing);
      DesDecrypt(d, DesEncrypt(d, data).value) == Ok(data)
  {
    DesRoundTrip(NewDesDefaulted(Bytes(key), mode, Missing), data);
  }

  /** After `reset` a CBC object encrypts with the zero IV, not with the IV it
      was built with. */
  lemma DesResetUsesZeroIv(d: Des, data: seq<Byte>)
    requires d.mode == "CBC" && d.originalIv == ZeroIv
    ensures DesEncrypt(DesReset(d), data) == EncryptCbc(data, d.key, Bytes(ZeroIv))
  {
  }

  // ---------------------------------------------------------------------------
  // TDES
  // ---------------------------------------------------------------------------

  /** The state of a `TDES` object; the key is held already split. */
  datatype Tdes = Tdes(keys: seq<seq<Byte>>, mode: string, originalIv: seq<Byte>, iv: Arg)

  /** Python's `key[i:j]` on bytes: out-of-range bounds are clamped. */
  function Slice(key: seq<Byte>, i: nat, j: nat): (r: seq<Byte>)
    requires i <= j
    ensures |r| == Max(0, Min(j, |key|) - i)
    ensures forall k :: 0 <= k < |r| ==> r[k] == key[i + k]
  {
    if i >= |key| then [] else key[i..Min(j, |key|)]
  }

  /** `_split_encryption_keys`: bytes 0-7, 8-15 and 16-23 of the key, each
      cut short (or empty) when the key is. */
  function SplitKeys(key: seq<Byte>): (r: seq<seq<Byte>>)
    ensures |r| == 3
    ensures ValidKeys(r) <==> |key| >= 24
    ensures |key| >= 24 ==> r[0] + r[1] + r[2] == key[..24]
  {
    var r := [Slice(key, 0, 8), Slice(key, 8, 16), Slice(key, 16, 24)];
    if |key| >= 24 then
      assert r[0] + r[1] + r[2] == key[..24];
      r
    else r
  }

  /** Splitting loses nothing of a key of at most 24 bytes. */
  lemma SplitKeysJoin(key: seq<Byte>)
    requires |key| <= 24
    ensures SplitKeys(key)[0] + SplitKeys(key)[1] + SplitKeys(key)[2] == key
  {
    var r := SplitKeys(key);
    assert r[0] + r[1] + r[2] == key;
  }

  /** `TDES.__init__` as written: the IV is always the argument. */
  function NewTdes(key: seq<Byte>, mode: string, iv: Arg): (t: Tdes)
    ensures t.keys == SplitKeys(key) && t.mode == mode && t.originalIv == ZeroIv
    ensures t.iv == iv
  {
    var t := Tdes([key], mode, ZeroIv, Missing);
    var t := if iv.Missing? && mode != "ECB" then t.(iv := Bytes(t.originalIv)) else t;
    t.(iv := iv, keys := SplitKeys(key))
  }

  /** `TDES.__init__` with the zero-IV default in effect: CBC and OFB objects
      built without an IV start from the zero IV. */
  function NewTdesDefaulted(key: seq<Byte>, mode: string, iv: Arg): (t: Tdes)
    ensures t.keys == SplitKeys(key) && t.mode == mode && t.originalIv == ZeroIv
    ensures iv.Missing? && mode != "ECB" ==> t.iv == Bytes(ZeroIv)
    ensures !(iv.Missing? && mode != "ECB") ==> t.iv == iv
  {
    var t := NewTdes(key, mode, iv);
    if iv.Missing? && mode != "ECB" then t.(iv := Bytes(ZeroIv)) else t
  }

  /** `TDES.reset` as written: the key is replaced by the split of the zero
      IV, that is eight zero bytes and two empty keys; the IV is left as it
      was. */
  function TdesResetAsWritten(t: Tdes): (r: Tdes)
    ensures r.keys == [t.originalIv[..Min(8, |t.originalIv|)], Slice(t.originalIv, 8, 16), Slice(t.originalIv, 16, 24)]
    ensures r.iv == t.iv && r.mode == t.mode
  {
    t.(keys := SplitKeys(t.originalIv))
  }

  /** `TDES.reset` as its documentation describes it: the IV goes back to
      the zero IV and the keys stay. */
  function TdesReset(t: Tdes): (r: Tdes)
    ensures r.keys == t.keys && r.mode == t.mode && r.originalIv == t.originalIv
    ensures r.iv == Bytes(t.originalIv)
  {
    t.(iv := Bytes(t.originalIv))
  }

  /** `TDES.encrypt`: a known mode and three long enough keys are needed in
      every mode. CBC also needs an IV the bit conversion accepts, of any
      length; OFB needs a byte string IV of at least eight bytes. An IV of
      the wrong type fails with the conversion's TypeError. */
  function TdesEncrypt(t: Tdes, data: seq<Byte>): (r: Result<seq<Byte>>)
    ensures !KnownMode(t.mode) ==> r == Err(InvalidMode(t.mode))
    ensures KnownMode(t.mode) && !ValidKeys(t.keys) ==> r == Err(IndexError)
    ensures t.mode == "ECB" && ValidKeys(t.keys) ==> r.Ok?
    ensures t.mode == "CBC" && ValidKeys(t.keys) ==> (r.Ok? <==> IvBytes(t.iv).Ok?)
    ensures t.mode == "OFB" && ValidKeys(t.keys) ==> (r.Ok? <==> t.iv.Bytes? && |t.iv.bytes| >= 8)
    ensures t.mode in {"CBC", "OFB"} && ValidKeys(t.keys) && IvBytes(t.iv).Err? ==>
      r == IvBytes(t.iv).PropagateFailure()
  {
    if t.mode == "ECB" then TEncryptEcb(data, t.keys)
    else if t.mode == "CBC" then TEncryptCbc(data, t.keys, t.iv)
    else if t.mode == "OFB" then TEncryptOfb(data, t.keys, t.iv)
    else Err(InvalidMode(t.mode))
  }

  /** `TDES.decrypt`: ECB and CBC need whole, non-empty blocks; OFB reads
      the IV's first eight bytes only when there is data to decrypt. */
  function TdesDecrypt(t: Tdes, data: seq<Byte>): (r: Result<seq<Byte>>)
    ensures !KnownMode(t.mode) ==> r == Err(InvalidMode(t.mode))
    ensures KnownMode(t.mode) && !ValidKeys(t.keys) ==> r == Err(IndexError)
    ensures t.mode == "ECB" && ValidKeys(t.keys) ==> (r.Ok? <==> WholeBlocks(data))
    ensures t.mode == "CBC" && ValidKeys(t.keys) ==> (r.Ok? <==> IvBytes(t.iv).Ok? && WholeBlocks(data))
    ensures t.mode == "OFB" && ValidKeys(t.keys) ==>
      (r.Ok? <==> IvBytes(t.iv).Ok? && (|data| == 0 || |IvBytes(t.iv).value| >= 8))
    ensures t.mode in {"CBC", "OFB"} && ValidKeys(t.keys) && IvBytes(t.iv).Err? ==>
      r == IvBytes(t.iv).PropagateFailure()
  {
    if t.mode == "ECB" then TDecryptEcb(data, t.keys)
    else if t.mode == "CBC" then TDecryptCbc(data, t.keys, t.iv)
    else if t.mode == "OFB" then TDecryptOfb(data, t.keys, t.iv)
    else Err(InvalidMode(t.mode))
  }

  /** An object built from a key of at least 24 bytes decrypts its own
      output: exactly in ECB and in CBC (with an IV of at most eight bytes),
      up to the padding in OFB. */
  lemma TdesRoundTrip(key: seq<Byte>, mode: string, iv: Arg, data: seq<Byte>)
    requires |key| >= 24 && KnownMode(mode)
    requires mode == "CBC" ==> IvBytes(iv).Ok? && |IvBytes(iv).value| <= 8
    requires mode == "OFB" ==> iv.Bytes? && |iv.bytes| >= 8
    ensures var t := NewTdes(key, mode, iv);
      mode != "OFB" ==> TdesDecrypt(t, TdesEncrypt(t, data).value) == Ok(data)
    ensures var t := NewTdes(key, mode, iv);
      mode == "OFB" ==> TdesDecrypt(t, TdesEncrypt(t, data).value) == Ok(AddPadding(data))
  {
    var keys := SplitKeys(key);
    if mode == "ECB" {
      TEcbRoundTrip(data, keys);
    } else if mode == "CBC" {
      var v := IvBytes(iv).value;
      TCbcRoundTrip(data, keys, v);
      assert TdesEncrypt(NewTdes(key, mode, iv), data) == TEncryptCbc(data, keys, Bytes(v));
    } else {
      TOfbRoundTrip(data, keys, iv.bytes);
    }
  }

  /** As written, `reset` leaves a TDES object unable to encrypt in any mode:
      the second and third keys are empty. */
  lemma TdesResetBreaksKeys(t: Tdes, data: seq<Byte>)
    requires KnownMode(t.mode) && t.originalIv == ZeroIv
    ensures TdesEncrypt(TdesResetAsWritten(t), data) == Err(IndexError)
  {
    assert SplitKeys(ZeroIv)[1] == [];
  }

  /** With the intended `reset`, an ECB object encrypts exactly as before and
      a CBC object encrypts with the zero IV under the same keys. */
  lemma TdesResetKeepsKeys(t: Tdes, data: seq<Byte>)
    requires t.originalIv == ZeroIv
    ensures t.mode == "ECB" ==> TdesEncrypt(TdesReset(t), data) == TdesEncrypt(t, data)
    ensures t.mode == "CBC" ==> TdesEncrypt(TdesReset(t), data) == TEncryptCbc(data, t.keys, Bytes(ZeroIv))
  {
  }

  /** As written, a `TDES` object built for CBC or OFB without an IV keeps
      `None` as its IV, so both encryption and decryption fail converting
      it to bits. */
  lemma TdesMissingIvFails(key: seq<Byte>, mode: string, data: seq<Byte>)
    requires |key| >= 24 && (mode == "CBC" || mode == "OFB")
    ensures TdesEncrypt(NewTdes(key, mode, Missing), data) == Err(TypeError("'NoneType' object is not iterable"))
    ensures TdesDecrypt(NewTdes(key, mode, Missing), data) == Err(TypeError("'NoneType' object is not iterable"))
  {
  }

  /** With the default in effect, a CBC or OFB object built without an IV
      encrypts from the zero IV and decrypts its own output: exactly in CBC,
      up to the padding in OFB. */
  lemma TdesDefaultIvWorks(key: seq<Byte>, mode: string, data: seq<Byte>)
    requires |key| >= 24 && (mode == "CBC" || mode == "OFB")
    ensures TdesEncrypt(NewTdesDefaulted(key, mode, Missing), data).Ok?
    ensures var t := NewTdesDefaulted(key, mode, Missing);
      mode == "CBC" ==> TdesDecrypt(t, TdesEncrypt(t, data).value) == Ok(data)
    ensures var t := NewTdesDefaulted(key, mode, Missing);
      mode == "OFB" ==> TdesDecrypt(t, TdesEncrypt(t, data).value) == Ok(AddPadding(data))
  {
    var t := NewTdesDefaulted(key, mode, Missing);
    assert t == NewTdes(key, mode, Bytes(ZeroIv));
    TdesRoundTrip(key, mode, Bytes(ZeroIv), data);
  }
}
