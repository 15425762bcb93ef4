/** ASCII letters as the classical ciphers see them: `str.isalpha`,
    `str.upper`/`str.lower` on single characters, and the conversion between
    letters and their 0-based place in the alphabet that the Caesar cipher and
    the Enigma simulator share. */
module Letters {

  /** A place in the alphabet: 0 for A through 25 for Z. */
  type Letter = x: int | 0 <= x < 26

  predicate IsUpper(c: char)
  {
    'A' <= c <= 'Z'
  }

  predicate IsLower(c: char)
  {
    'a' <= c <= 'z'
  }

  /** `str.isalpha` on one ASCII character. */
  predicate IsLetter(c: char)
  {
    IsUpper(c) || IsLower(c)
  }

  /** The upper-case letter at place `n`, `chr(n + ord('A'))`. */
  function LetterOf(n: Letter): (c: char)
    ensures IsUpper(c)
    ensures c as int - 'A' as int == n
  {
    ('A' as int + n) as char
  }

  /** `str.upper` on one ASCII character. */
  function ToUpper(c: char): (u: char)
    ensures IsLower(c) ==> IsUpper(u) && u as int == c as int - 32
    ensures !IsLower(c) ==> u == c
  {
    if IsLower(c) then (c as int - 32) as char else c
  }

  /** `str.lower` on one ASCII character. */
  function ToLower(c: char): (l: char)
    ensures IsUpper(c) ==> IsLower(l) && l as int == c as int + 32
    ensures !IsUpper(c) ==> l == c
  {
    if IsUpper(c) then (c as int + 32) as char else c
  }

  function UpperString(s: string): (r: string)
    ensures |r| == |s|
    ensures forall i :: 0 <= i < |s| ==> r[i] == ToUpper(s[i])
  {
    seq(|s|, i requires 0 <= i < |s| => ToUpper(s[i]))
  }

  /** Upper-casing a string upper-cases its first character and then the
      rest. */
  lemma UpperStringCons(s: string)
    requires |s| > 0
    ensures UpperString(s) == [ToUpper(s[0])] + UpperString(s[1..])
  {
  }

  function LowerString(s: string): (r: string)
    ensures |r| == |s|
    ensures forall i :: 0 <= i < |s| ==> r[i] == ToLower(s[i])
  {
    seq(|s|, i requires 0 <= i < |s| => ToLower(s[i]))
  }

  /** The place of a letter in the alphabet, whatever its case:
      `ord(c) - ord('a')` for lower case, `ord(c) - ord('A')` otherwise. */
  function Ordinal(c: char): (n: Letter)
    requires IsLetter(c)
    ensures LetterOf(n) == ToUpper(c)
    ensures LetterOf(n) == c <==> IsUpper(c)
  {
    if IsLower(c) then c as int - 'a' as int else c as int - 'A' as int
  }

  /** Reading a letter back gives its place. */
  lemma OrdinalOfLetter(n: Letter)
    ensures Ordinal(LetterOf(n)) == n
  {
  }

  /** Letters with the same place are the same letter up to case. */
  lemma OrdinalUpper(c: char)
    requires IsLetter(c)
    ensures Ordinal(ToUpper(c)) == Ordinal(c)
  {
  }

  lemma OrdinalLower(c: char)
    requires IsLetter(c)
    ensures IsLower(ToLower(c)) && Ordinal(ToLower(c)) == Ordinal(c)
  {
  }

  /** Letters with the same place in the alphabet agree once their case is
      fixed. */
  lemma SameLetter(a: char, b: char)
    requires IsLetter(a) && IsLetter(b) && Ordinal(a) == Ordinal(b)
    ensures ToLower(a) == ToLower(b) && ToUpper(a) == ToUpper(b)
  {
  }

  /** What the ciphers turn a character into before working on it: a letter
      becomes its place in the alphabet, anything else is kept as it is. */
  datatype Token = Ord(n: Letter) | Other(c: char)

  /** `words_to_ordinals` for one character, and `_letter_to_ordinal`. */
  function ToToken(c: char): (t: Token)
    ensures t.Ord? <==> IsLetter(c)
    ensures t.Ord? ==> LetterOf(t.n) == ToUpper(c)
    ensures t.Other? ==> t.c == c
  {
    if IsLetter(c) then Ord(Ordinal(c)) else Other(c)
  }

  /** `ordinals_to_words` for one token, and `_ordinal_to_letter`. */
  function FromToken(t: Token): (c: char)
    ensures t.Ord? ==> IsUpper(c) && Ordinal(c) == t.n
    ensures t.Other? ==> c == t.c
  {
    match t
    case Ord(n) => OrdinalOfLetter(n); LetterOf(n)
    case Other(c) => c
  }

  /** Converting a character to a token and back upper-cases it and changes
      nothing else. */
  lemma TokenRoundTrip(c: char)
    ensures FromToken(ToToken(c)) == ToUpper(c)
  {
  }
}
