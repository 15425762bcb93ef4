/** `TheSauce/caesar.py`: the Caesar shift over ASCII letters. Letters are
    turned into their place in the alphabet, shifted modulo 26 and written
    back in upper case; every other character is carried through. */
module Caesar {
  import opened Letters
  import Bits

  /** `words_to_ordinals`. */
  function WordsToOrdinals(s: string): (r: seq<Token>)
    ensures |r| == |s|
    ensures forall i :: 0 <= i < |s| ==> r[i] == ToToken(s[i])
  {
    seq(|s|, i requires 0 <= i < |s| => ToToken(s[i]))
  }

  /** `ordinals_to_words`, joined into a string. */
  function OrdinalsToWords(ts: seq<Token>): (r: string)
    ensures |r| == |ts|
    ensures forall i :: 0 <= i < |ts| ==> r[i] == FromToken(ts[i])
  {
    seq(|ts|, i requires 0 <= i < |ts| => FromToken(ts[i]))
  }

  /** `_caesar_rotate`: Python's `%` with a positive modulus is never
      negative, like Dafny's, so negative keys land in 0..25 too. */
  function Rotate(letter: Letter, shift: int): (r: int)
    ensures 0 <= r < 26
    ensures (letter + shift - r) % 26 == 0
  {
    (letter + shift) % 26
  }

  /** Rotating back by the same amount undoes a rotation. */
  lemma RotateInverse(letter: Letter, shift: int)
    ensures Rotate(Rotate(letter, shift), -shift) == letter
  {
    var r := Rotate(letter, shift);
    var q := (letter + shift) / 26;
    assert r == letter + shift - 26 * q;
    assert r - shift == letter - 26 * q;
    Bits.DivModUnique(r - shift, 26, -q, letter);
  }

  /** Shifts that differ by 26 rotate alike. */
  lemma RotatePeriod(letter: Letter, shift: int)
    ensures Rotate(letter, shift + 26) == Rotate(letter, shift)
  {
    var r := Rotate(letter, shift);
    var q := (letter + shift) / 26;
    Bits.DivModUnique(letter + shift + 26, 26, q + 1, r);
  }

  /** `_caesar_shift_ordinals`. */
  function ShiftOrdinals(ts: seq<Token>, key: int): (r: seq<Token>)
    ensures |r| == |ts|
    ensures forall i :: 0 <= i < |ts| && ts[i].Ord? ==> r[i] == Ord(Rotate(ts[i].n, key))
    ensures forall i :: 0 <= i < |ts| && ts[i].Other? ==> r[i] == ts[i]
  {
    seq(|ts|, i requires 0 <= i < |ts| =>
      match ts[i]
      case Ord(n) => Ord(Rotate(n, key))
      case Other(_) => ts[i])
  }

  /** `encrypt`: letters come out upper case and shifted by the key; every
      other character stays where it is. */
  function Encrypt(plaintext: string, key: int): (c: string)
    ensures |c| == |plaintext|
    ensures forall i :: 0 <= i < |c| && !IsLetter(plaintext[i]) ==> c[i] == plaintext[i]
    ensures forall i :: 0 <= i < |c| && IsLetter(plaintext[i]) ==>
      IsUpper(c[i]) && Ordinal(c[i]) == Rotate(Ordinal(plaintext[i]), key)
  {
    OrdinalsToWords(ShiftOrdinals(WordsToOrdinals(plaintext), key))
  }

  /** `decrypt`: the shift by the negated key. */
  function Decrypt(ciphertext: string, key: int): (p: string)
    ensures |p| == |ciphertext|
    ensures forall i :: 0 <= i < |p| && !IsLetter(ciphertext[i]) ==> p[i] == ciphertext[i]
    ensures forall i :: 0 <= i < |p| && IsLetter(ciphertext[i]) ==>
      IsUpper(p[i]) && Ordinal(p[i]) == Rotate(Ordinal(ciphertext[i]), -key)
  {
    OrdinalsToWords(ShiftOrdinals(WordsToOrdinals(ciphertext), -key))
  }

  /** Decrypting with the key used to encrypt gives the plaintext back, upper
      case. */
  lemma RoundTrip(plaintext: string, key: int)
    ensures Decrypt(Encrypt(plaintext, key), key) == UpperString(plaintext)
  {
    var c := Encrypt(plaintext, key);
    var p := Decrypt(c, key);
    forall i | 0 <= i < |p|
      ensures p[i] == ToUpper(plaintext[i])
    {
      if IsLetter(plaintext[i]) {
        RotateInverse(Ordinal(plaintext[i]), key);
        OrdinalUpper(plaintext[i]);
        OrdinalOfLetter(Ordinal(p[i]));
        OrdinalOfLetter(Ordinal(plaintext[i]));
      }
    }
  }

  /** Keys `k` and `k + 26` encrypt every text alike. */
  lemma KeyPeriod(plaintext: string, key: int)
    ensures Encrypt(plaintext, key + 26) == Encrypt(plaintext, key)
  {
    var a, b := Encrypt(plaintext, key + 26), Encrypt(plaintext, key);
    forall i | 0 <= i < |a|
      ensures a[i] == b[i]
    {
      if IsLetter(plaintext[i]) {
        RotatePeriod(Ordinal(plaintext[i]), key);
        OrdinalOfLetter(Ordinal(a[i]));
        OrdinalOfLetter(Ordinal(b[i]));
      }
    }
  }

  /** Decryption with a key is encryption with its negation. */
  lemma DecryptIsNegatedEncrypt(ciphertext: string, key: int)
    ensures Decrypt(ciphertext, key) == Encrypt(ciphertext, -key)
  {
  }
}
