/** `TheSauce/vigenere.py`: the Vigenère cipher as a Caesar shift per
    character, with the shift taken from the keyword letter at the same
    position (spaces take no part), and the helpers of the Kasiski analysis
    that guess the keyword length from repeated sequences. */
module Vigenere {
  import opened Bits
  import opened Results
  import opened Letters
  import Caesar

  // ---------------------------------------------------------------------------
  // Spaces
  // ---------------------------------------------------------------------------

  /** `_get_space_positions`: the indices of the spaces, in ascending order. */
  function SpacePositions(text: string): (ps: seq<nat>)
    ensures forall k :: 0 <= k < |ps| ==> ps[k] < |text| && text[ps[k]] == ' '
    ensures forall k, l :: 0 <= k < l < |ps| ==> ps[k] < ps[l]
    decreases |text|
  {
    if |text| == 0 then []
    else
      var ps := SpacePositions(text[..|text| - 1]);
      if text[|text| - 1] == ' ' then ps + [|text| - 1] else ps
  }

  /** Every space of the text is listed. */
  lemma {:induction false} SpacePositionsComplete(text: string)
    ensures forall i :: 0 <= i < |text| && text[i] == ' ' ==> i in SpacePositions(text)
    decreases |text|
  {
    if |text| > 0 {
      var v := text[..|text| - 1];
      SpacePositionsComplete(v);
      assert forall i :: 0 <= i < |v| ==> v[i] == text[i];
    }
  }

  /** `text.replace(' ', '')`: the other characters, in order. */
  function RemoveSpaces(text: string): (r: string)
    ensures forall i :: 0 <= i < |r| ==> r[i] != ' '
    ensures |r| + |SpacePositions(text)| == |text|
    decreases |text|
  {
    if |text| == 0 then []
    else
      var r := RemoveSpaces(text[..|text| - 1]);
      if text[|text| - 1] == ' ' then r else r + [text[|text| - 1]]
  }

  /** One more character adds its index to the space positions when it is a
      space. */
  lemma SpacePositionsSnoc(v: string, c: char)
    ensures SpacePositions(v + [c]) == if c == ' ' then SpacePositions(v) + [|v|] else SpacePositions(v)
  {
    assert (v + [c])[..|v|] == v;
  }

  /** One more character is kept by `RemoveSpaces` unless it is a space. */
  lemma RemoveSpacesSnoc(v: string, c: char)
    ensures RemoveSpaces(v + [c]) == if c == ' ' then RemoveSpaces(v) else RemoveSpaces(v) + [c]
  {
    assert (v + [c])[..|v|] == v;
  }

  /** A text has nothing but spaces exactly when removing them leaves
      nothing. */
  lemma {:induction false} RemoveSpacesEmpty(text: string)
    ensures |RemoveSpaces(text)| == 0 <==> forall i :: 0 <= i < |text| ==> text[i] == ' '
    decreases |text|
  {
    if |text| > 0 {
      var v := text[..|text| - 1];
      RemoveSpacesEmpty(v);
      assert forall i :: 0 <= i < |v| ==> v[i] == text[i];
    }
  }

  /** `_insert_spaces`: a space goes in at each position in turn, each
      insertion shifting what follows it; a position past the end appends, as
      Python's slicing does. */
  function InsertSpaces(text: string, ps: seq<nat>): (r: string)
    ensures |r| == |text| + |ps|
    decreases |ps|
  {
    if |ps| == 0 then text
    else
      var t := InsertSpaces(text, ps[..|ps| - 1]);
      var p := Min(ps[|ps| - 1], |t|);
      t[..p] + " " + t[p..]
  }

  /** Inserting spaces adds nothing but spaces. */
  lemma {:induction false} InsertSpacesChars(text: string, ps: seq<nat>)
    ensures forall i :: 0 <= i < |InsertSpaces(text, ps)| ==>
      InsertSpaces(text, ps)[i] == ' ' || InsertSpaces(text, ps)[i] in text
    decreases |ps|
  {
    if |ps| > 0 {
      InsertSpacesChars(text, ps[..|ps| - 1]);
      var t := InsertSpaces(text, ps[..|ps| - 1]);
      var p := Min(ps[|ps| - 1], |t|);
      var r := InsertSpaces(text, ps);
      forall i | 0 <= i < |r|
        ensures r[i] == ' ' || r[i] in text
      {
        if i < p {
          assert r[i] == t[i];
        } else if i > p {
          assert r[i] == t[i - 1];
        }
      }
    }
  }

  /** A character added after the text stays last, as long as every
      insertion point lies within the text built so far. */
  lemma {:induction false} InsertSpacesAppend(s: string, c: char, ps: seq<nat>)
    requires forall k :: 0 <= k < |ps| ==> ps[k] <= |s| + k
    ensures InsertSpaces(s + [c], ps) == InsertSpaces(s, ps) + [c]
    decreases |ps|
  {
    if |ps| > 0 {
      var n := |ps| - 1;
      InsertSpacesAppend(s, c, ps[..n]);
      var t := InsertSpaces(s, ps[..n]);
      var p := ps[n];
      assert (t + [c])[..p] == t[..p];
      assert (t + [c])[p..] == t[p..] + [c];
    }
  }

  /** The `k`-th space of a text has at most `k` spaces and all the other
      characters before it. */
  lemma {:induction false} SpacePositionsBound(u: string)
    ensures forall k :: 0 <= k < |SpacePositions(u)| ==> SpacePositions(u)[k] <= |RemoveSpaces(u)| + k
    decreases |u|
  {
    if |u| > 0 {
      SpacePositionsBound(u[..|u| - 1]);
    }
  }

  /** Putting the spaces back where they were restores the text. */
  lemma {:induction false} Unspace(u: string)
    ensures InsertSpaces(RemoveSpaces(u), SpacePositions(u)) == u
    decreases |u|
  {
    if |u| > 0 {
      var n := |u| - 1;
      var v := u[..n];
      Unspace(v);
      assert u == v + [u[n]];
      SpacePositionsSnoc(v, u[n]);
      RemoveSpacesSnoc(v, u[n]);
      if u[n] == ' ' {
        InsertSpacesEnd(RemoveSpaces(v), SpacePositions(v), n);
      } else {
        SpacePositionsBound(v);
        InsertSpacesAppend(RemoveSpaces(v), u[n], SpacePositions(v));
      }
    }
  }

  /** The space-free string `s` with the spaces of `t` inserted. */
  predicate Respaced(t: string, s: string)
  {
    SpacePositions(InsertSpaces(s, SpacePositions(t))) == SpacePositions(t) &&
    RemoveSpaces(InsertSpaces(s, SpacePositions(t))) == s
  }

  /** The step of `Respace` for a text that ends in a space. */
  lemma RespaceEndSpace(t: string, s: string)
    requires |t| > 0 && t[|t| - 1] == ' '
    requires |s| == |RemoveSpaces(t[..|t| - 1])|
    requires Respaced(t[..|t| - 1], s)
    ensures Respaced(t, s)
  {
    var n := |t| - 1;
    var v := t[..n];
    var w := InsertSpaces(s, SpacePositions(v));
    SpacePositionsSnoc(v, ' ');
    assert t == v + [' '];
    InsertSpacesEnd(s, SpacePositions(v), n);
    SpacePositionsSnoc(w, ' ');
    RemoveSpacesSnoc(w, ' ');
  }

  /** A space inserted at the very end is appended. */
  lemma InsertSpacesEnd(s: string, qs: seq<nat>, n: nat)
    requires |s| + |qs| == n
    ensures InsertSpaces(s, qs + [n]) == InsertSpaces(s, qs) + [' ']
  {
    assert (qs + [n])[..|qs|] == qs;
    var w := InsertSpaces(s, qs);
    assert w[..n] == w;
  }

  /** The step of `Respace` for a text that ends in another character. */
  lemma RespaceEndChar(t: string, s: string)
    requires |t| > 0 && t[|t| - 1] != ' ' && |s| > 0 && s[|s| - 1] != ' '
    requires |s| - 1 == |RemoveSpaces(t[..|t| - 1])|
    requires Respaced(t[..|t| - 1], s[..|s| - 1])
    ensures Respaced(t, s)
  {
    var v := t[..|t| - 1];
    var s' := s[..|s| - 1];
    var c := s[|s| - 1];
    SpacePositionsBound(v);
    InsertSpacesAppend(s', c, SpacePositions(v));
    assert s == s' + [c];
    var w := InsertSpaces(s', SpacePositions(v));
    assert (w + [c])[..|w|] == w;
  }

  /** A space-free string as long as a text's other characters, with the
      text's spaces inserted, has its spaces exactly where the text has them,
      and removing them gives the string back. */
  lemma {:induction false} Respace(t: string, s: string)
    requires forall i :: 0 <= i < |s| ==> s[i] != ' '
    requires |s| == |RemoveSpaces(t)|
    ensures Respaced(t, s)
    decreases |t|
  {
    if |t| > 0 {
      var v := t[..|t| - 1];
      if t[|t| - 1] == ' ' {
        Respace(v, s);
        RespaceEndSpace(t, s);
      } else {
        Respace(v, s[..|s| - 1]);
        RespaceEndChar(t, s);
      }
    }
  }

  /** Texts of one length with the same space positions have their spaces in
      the same places. */
  lemma SameSpaces(u: string, t: string)
    requires |u| == |t| && SpacePositions(u) == SpacePositions(t)
    ensures forall i :: 0 <= i < |t| ==> (u[i] == ' ' <==> t[i] == ' ')
  {
    SpacePositionsComplete(u);
    SpacePositionsComplete(t);
    forall i | 0 <= i < |t|
      ensures u[i] == ' ' <==> t[i] == ' '
    {
      var ps := SpacePositions(t);
      if u[i] == ' ' {
        var k :| 0 <= k < |ps| && ps[k] == i;
      }
      if t[i] == ' ' {
        var k :| 0 <= k < |ps| && ps[k] == i;
      }
    }
  }

  /** Lower-casing keeps the spaces where they are. */
  lemma {:induction false} LowerSpacePositions(t: string)
    ensures SpacePositions(LowerString(t)) == SpacePositions(t)
    decreases |t|
  {
    if |t| > 0 {
      var n := |t| - 1;
      var v := t[..n];
      var c := ToLower(t[n]);
      LowerSpacePositions(v);
      assert t == v + [t[n]];
      assert LowerString(t) == LowerString(v) + [c];
      SpacePositionsSnoc(v, t[n]);
      SpacePositionsSnoc(LowerString(v), c);
    }
  }

  /** Lower-casing commutes with removing the spaces. */
  lemma {:induction false} LowerRemoveSpaces(t: string)
    ensures RemoveSpaces(LowerString(t)) == LowerString(RemoveSpaces(t))
    decreases |t|
  {
    if |t| > 0 {
      var n := |t| - 1;
      var v := t[..n];
      var c := ToLower(t[n]);
      var r := RemoveSpaces(v);
      LowerRemoveSpaces(v);
      assert t == v + [t[n]];
      LowerStringSnoc(v, t[n]);
      RemoveSpacesSnoc(v, t[n]);
      RemoveSpacesSnoc(LowerString(v), c);
      if t[n] != ' ' {
        LowerStringSnoc(r, t[n]);
      }
    }
  }

  /** Lower-casing one more character appends its lower case. */
  lemma LowerStringSnoc(v: string, c: char)
    ensures LowerString(v + [c]) == LowerString(v) + [ToLower(c)]
  {
  }

  /** Lower-casing keeps the spaces where they are and lower-cases the other
      characters. */
  lemma LowerSpaces(t: string)
    ensures SpacePositions(LowerString(t)) == SpacePositions(t)
    ensures RemoveSpaces(LowerString(t)) == LowerString(RemoveSpaces(t))
  {
    LowerSpacePositions(t);
    LowerRemoveSpaces(t);
  }

  // ---------------------------------------------------------------------------
  // Encryption and decryption
  // ---------------------------------------------------------------------------

  /** `_get_shift_factor`: the 0-based place of the lower-cased character
      (negative or past 25 for characters that are not letters). */
  function ShiftFactor(ch: char): (sh: int)
    ensures IsLetter(ch) ==> sh == Ordinal(ch)
  {
    ToLower(ch) as int - 'a' as int
  }

  /** The keyword repeated to the text's length, as shifts. */
  function KeywordShift(keyword: string, i: nat): (r: int)
    requires |keyword| > 0
    ensures IsLetter(keyword[i % |keyword|]) ==> 0 <= r < 26
  {
    ShiftFactor(keyword[i % |keyword|])
  }

  /** One character through `caesar.encrypt`, then lower-cased. */
  function EncryptChar(ch: char, shift: int): (e: char)
    ensures IsLetter(ch) ==> IsLower(e) && Ordinal(e) == Caesar.Rotate(Ordinal(ch), shift)
    ensures !IsLetter(ch) ==> e == ch
  {
    var c := Caesar.Encrypt([ch], shift)[0];
    if IsLetter(ch) then OrdinalLower(c); ToLower(c) else ToLower(c)
  }

  /** One character through `caesar.decrypt`, then lower-cased. */
  function DecryptChar(ch: char, shift: int): (d: char)
    ensures IsLetter(ch) ==> IsLower(d) && Ordinal(d) == Caesar.Rotate(Ordinal(ch), -shift)
    ensures !IsLetter(ch) ==> d == ch
  {
    var c := Caesar.Decrypt([ch], shift)[0];
    if IsLetter(ch) then OrdinalLower(c); ToLower(c) else ToLower(c)
  }

  /** Decrypting a character with the shift it was encrypted with gives it
      back lower-cased. */
  lemma CharRoundTrip(ch: char, shift: int)
    ensures DecryptChar(EncryptChar(ch, shift), shift) == ToLower(ch)
  {
    if IsLetter(ch) {
      Caesar.RotateInverse(Ordinal(ch), shift);
      SameLetter(DecryptChar(EncryptChar(ch, shift), shift), ch);
    }
  }

  function EncryptLetters(plaintext: string, keyword: string): (r: string)
    requires |plaintext| == 0 || |keyword| > 0
    ensures |r| == |plaintext|
    ensures forall i :: 0 <= i < |r| ==> r[i] == EncryptChar(plaintext[i], KeywordShift(keyword, i))
  {
    seq(|plaintext|, i requires 0 <= i < |plaintext| => EncryptChar(plaintext[i], KeywordShift(keyword, i)))
  }

  function DecryptLetters(ciphertext: string, keyword: string): (r: string)
    requires |ciphertext| == 0 || |keyword| > 0
    ensures |r| == |ciphertext|
    ensures forall i :: 0 <= i < |r| ==> r[i] == DecryptChar(ciphertext[i], KeywordShift(keyword, i))
  {
    seq(|ciphertext|, i requires 0 <= i < |ciphertext| => DecryptChar(ciphertext[i], KeywordShift(keyword, i)))
  }

  /** `out` has a space exactly where `text` has one, and no upper-case
      letter anywhere: what both cipher passes produce. */
  predicate SpacedLikeLower(out: string, text: string)
  {
    |out| == |text| &&
    (forall i :: 0 <= i < |text| ==> (out[i] == ' ' <==> text[i] == ' ')) &&
    (forall i :: 0 <= i < |text| ==> !IsUpper(out[i]))
  }

  /** The characters a cipher pass produces from space-free input at given
      space positions: the spaces go back where they were, and no letter is
      upper case. */
  lemma Reassembled(text: string, s: string)
    requires forall i :: 0 <= i < |s| ==> s[i] != ' ' && !IsUpper(s[i])
    requires |s| == |RemoveSpaces(text)|
    ensures SpacedLikeLower(InsertSpaces(s, SpacePositions(text)), text)
  {
    var u := InsertSpaces(s, SpacePositions(text));
    Respace(text, s);
    SameSpaces(u, text);
    InsertSpacesChars(s, SpacePositions(text));
  }

  /** `encrypt`. With `preserve_spaces` the spaces are taken out, the rest
      encrypted and the spaces put back; without it a space is encrypted (to
      itself) like any other character and uses up a keyword letter. The
      keyword index is `i % len(keyword)`, so an empty keyword fails with
      ZeroDivisionError as soon as there is something to encrypt. */
  function Encrypt(text: string, keyword: string, preserveSpaces: bool): (r: Result<string>)
    ensures r.Err? <==> |keyword| == 0 && exists i :: 0 <= i < |text| && (text[i] != ' ' || !preserveSpaces)
    ensures r.Err? ==> r.error == ZeroDivisionError
    ensures r.Ok? ==> SpacedLikeLower(r.value, text)
  {
    RemoveSpacesEmpty(text);
    if preserveSpaces then
      if |RemoveSpaces(text)| > 0 && |keyword| == 0 then Err(ZeroDivisionError)
      else Ok(EncryptSpaced(text, keyword))
    else if |text| > 0 && |keyword| == 0 then Err(ZeroDivisionError)
    else Ok(EncryptAll(text, keyword))
  }

  /** Every character, spaces included, through its Caesar pass. */
  function EncryptAll(text: string, keyword: string): (c: string)
    requires |text| == 0 || |keyword| > 0
    ensures SpacedLikeLower(c, text)
  {
    EncryptLetters(text, keyword)
  }

  /** The spaces taken out, the rest through its Caesar passes, the spaces
      put back. */
  function EncryptSpaced(text: string, keyword: string): (c: string)
    requires |RemoveSpaces(text)| == 0 || |keyword| > 0
    ensures SpacedLikeLower(c, text)
  {
    var c := EncryptLetters(RemoveSpaces(text), keyword);
    Reassembled(text, c);
    InsertSpaces(c, SpacePositions(text))
  }

  /** `decrypt`: spaces are always taken out and put back. */
  function Decrypt(text: string, keyword: string): (r: Result<string>)
    ensures r.Err? <==> |keyword| == 0 && exists i :: 0 <= i < |text| && text[i] != ' '
    ensures r.Err? ==> r.error == ZeroDivisionError
    ensures r.Ok? ==> SpacedLikeLower(r.value, text)
  {
    RemoveSpacesEmpty(text);
    if |RemoveSpaces(text)| > 0 && |keyword| == 0 then Err(ZeroDivisionError)
    else Ok(DecryptSpaced(text, keyword))
  }

  /** The spaces taken out, the rest through its inverse Caesar passes, the
      spaces put back. */
  function DecryptSpaced(text: string, keyword: string): (p: string)
    requires |RemoveSpaces(text)| == 0 || |keyword| > 0
    ensures SpacedLikeLower(p, text)
  {
    var p := DecryptLetters(RemoveSpaces(text), keyword);
    Reassembled(text, p);
    InsertSpaces(p, SpacePositions(text))
  }

  /** `encrypt` with `preserve_spaces`, unfolded. */
  lemma EncryptPreserving(text: string, keyword: string)
    requires |RemoveSpaces(text)| == 0 || |keyword| > 0
    ensures Encrypt(text, keyword, true) == Ok(InsertSpaces(EncryptLetters(RemoveSpaces(text), keyword), SpacePositions(text)))
  {
  }

  /** Decrypting a text made by inserting spaces into a space-free string
      decrypts that string. */
  lemma DecryptRespaced(text: string, c: string, keyword: string)
    requires forall i :: 0 <= i < |c| ==> c[i] != ' '
    requires |c| == |RemoveSpaces(text)|
    requires |c| == 0 || |keyword| > 0
    ensures Decrypt(InsertSpaces(c, SpacePositions(text)), keyword)
         == Ok(InsertSpaces(DecryptLetters(c, keyword), SpacePositions(text)))
  {
    Respace(text, c);
  }

  /** Character by character, decryption undoes encryption up to case. */
  lemma LettersRoundTrip(p: string, keyword: string)
    requires |p| == 0 || |keyword| > 0
    ensures DecryptLetters(EncryptLetters(p, keyword), keyword) == LowerString(p)
  {
    var d := DecryptLetters(EncryptLetters(p, keyword), keyword);
    forall i | 0 <= i < |d|
      ensures d[i] == ToLower(p[i])
    {
      CharRoundTrip(p[i], KeywordShift(keyword, i));
    }
  }

  /** With the default `preserve_spaces`, decrypting with the keyword used to
      encrypt gives the text back in lower case. */
  lemma RoundTrip(text: string, keyword: string)
    ensures Encrypt(text, keyword, true).Ok? ==>
      Decrypt(Encrypt(text, keyword, true).value, keyword) == Ok(LowerString(text))
  {
    var p := RemoveSpaces(text);
    if |p| == 0 || |keyword| > 0 {
      var c := EncryptLetters(p, keyword);
      EncryptPreserving(text, keyword);
      DecryptRespaced(text, c, keyword);
      LettersRoundTrip(p, keyword);
      LowerSpaces(text);
      Unspace(LowerString(text));
    }
  }

  /** The characters of the example below. */
  lemma ShiftExampleChars()
    ensures KeywordShift("ab", 0) == 0 && KeywordShift("ab", 1) == 1 && KeywordShift("ab", 2) == 0
    ensures EncryptChar('a', 0) == 'a' && EncryptChar(' ', 1) == ' ' && EncryptChar('b', 0) == 'b'
    ensures DecryptChar('a', 0) == 'a' && DecryptChar('b', 1) == 'a'
  {
  }

  /** The spaces of the example below. */
  lemma ShiftExampleSpaces(t: string)
    requires t == "a b"
    ensures RemoveSpaces(t) == "ab" && SpacePositions(t) == [1]
  {
    var u, v := t[..2], t[..1];
    assert u[..1] == v && v[..0] == [];
    assert RemoveSpaces(v) == "a" && SpacePositions(v) == [];
  }

  /** The spaces put back in the example below. */
  lemma ShiftExampleRespace(t: string)
    requires t == "aa"
    ensures InsertSpaces(t, [1]) == "a a"
  {
    var ps: seq<nat> := [1];
    assert ps[..0] == [];
  }

  /** Encryption half of the example below. */
  lemma SpacesShiftEncrypt(t: string, keyword: string)
    requires t == "a b" && keyword == "ab"
    ensures Encrypt(t, keyword, false) == Ok(t)
  {
    ShiftExampleChars();
    var e := EncryptLetters(t, keyword);
    assert e[0] == 'a' && e[1] == ' ' && e[2] == 'b';
    assert e == t;
  }

  /** The letters decrypted in the example below. */
  lemma ShiftExampleLetters(u: string, keyword: string)
    requires u == "ab" && keyword == "ab"
    ensures DecryptLetters(u, keyword) == "aa"
  {
    ShiftExampleChars();
    var d := DecryptLetters(u, keyword);
    assert d[0] == 'a' && d[1] == 'a';
  }

  /** Decryption half of the example below. */
  lemma SpacesShiftDecrypt(t: string, keyword: string)
    requires t == "a b" && keyword == "ab"
    ensures Decrypt(t, keyword) == Ok("a a")
  {
    ShiftExampleSpaces(t);
    ShiftExampleRespace("aa");
    ShiftExampleLetters("ab", keyword);
  }

  /** Without `preserve_spaces` the round trip fails for texts with spaces:
      encryption lets each space use up a keyword letter but decryption does
      not, so the letters after a space are decrypted with the wrong shifts.
      Here "a b" with keyword "ab" encrypts to itself and decrypts to "a a". */
  lemma SpacesShiftKeyword(t: string, keyword: string)
    requires t == "a b" && keyword == "ab"
    ensures Encrypt(t, keyword, false).Ok?
    ensures Decrypt(Encrypt(t, keyword, false).value, keyword) == Ok("a a")
    ensures LowerString(t) != "a a"
  {
    SpacesShiftEncrypt(t, keyword);
    SpacesShiftDecrypt(t, keyword);
    assert LowerString(t)[2] == 'b';
  }

  // ---------------------------------------------------------------------------
  // Kasiski analysis
  // ---------------------------------------------------------------------------

  /** The `count` characters from index `i`. */
  function Window(text: string, i: nat, count: nat): (w: string)
    requires i + count <= |text|
    ensures |w| == count
  {
    text[i..i + count]
  }

  /** The dictionary `sequence_lists` has built after its first `n` loop
      iterations: the window at each index so far, appended to its list. */
  function ListsUpTo(text: string, count: nat, n: nat): (m: map<string, seq<nat>>)
    requires n + count <= |text| + 1
    ensures forall s :: s in m ==> |m[s]| > 0
  {
    if n == 0 then map[]
    else
      var m := ListsUpTo(text, count, n - 1);
      var s := Window(text, n - 1, count);
      m[s := (if s in m then m[s] else []) + [n - 1]]
  }

  /** Every index so far is listed under its window. */
  lemma {:induction false} ListsComplete(text: string, count: nat, n: nat)
    requires n + count <= |text| + 1
    ensures forall i :: 0 <= i < n ==>
      Window(text, i, count) in ListsUpTo(text, count, n) && i in ListsUpTo(text, count, n)[Window(text, i, count)]
  {
    if n > 0 {
      ListsComplete(text, count, n - 1);
      var m := ListsUpTo(text, count, n - 1);
      var s := Window(text, n - 1, count);
      forall i | 0 <= i < n - 1 && Window(text, i, count) == s
        ensures i in ListsUpTo(text, count, n)[s]
      {
        assert i in m[s];
      }
    }
  }

  /** Every listed index is one where the window occurs, and the lists are
      ascending. */
  lemma {:induction false} ListsSound(text: string, count: nat, n: nat)
    requires n + count <= |text| + 1
    ensures forall s, k :: s in ListsUpTo(text, count, n) && 0 <= k < |ListsUpTo(text, count, n)[s]| ==>
      ListsUpTo(text, count, n)[s][k] < n && Window(text, ListsUpTo(text, count, n)[s][k], count) == s
    ensures forall s, k, l :: s in ListsUpTo(text, count, n) && 0 <= k < l < |ListsUpTo(text, count, n)[s]| ==>
      ListsUpTo(text, count, n)[s][k] < ListsUpTo(text, count, n)[s][l]
  {
    if n > 0 {
      ListsSound(text, count, n - 1);
    }
  }

  /** `sequence_lists`: every window of `count` characters, mapped to the
      ascending list of the indices where it occurs. */
  function SequenceLists(text: string, count: nat): (m: map<string, seq<nat>>)
    ensures forall i :: 0 <= i && i + count <= |text| ==> Window(text, i, count) in m && i in m[Window(text, i, count)]
    ensures forall s :: s in m ==> |m[s]| > 0
    ensures forall s, k :: s in m && 0 <= k < |m[s]| ==>
      m[s][k] + count <= |text| && Window(text, m[s][k], count) == s
    ensures forall s, k, l :: s in m && 0 <= k < l < |m[s]| ==> m[s][k] < m[s][l]
  {
    if count > |text| then map[]
    else
      ListsComplete(text, count, |text| - count + 1);
      ListsSound(text, count, |text| - count + 1);
      ListsUpTo(text, count, |text| - count + 1)
  }

  /** One more loop iteration appends the next index to its window's list. */
  lemma ListsStep(text: string, count: nat, n: nat)
    requires n + 1 + count <= |text| + 1
    ensures var m, w := ListsUpTo(text, count, n), Window(text, n, count);
      ListsUpTo(text, count, n + 1) == m[w := (if w in m then m[w] else []) + [n]]
  {
  }

  /** The windows of the worked example below. */
  lemma ExampleWindows(t: string)
    requires t == "ABCDABCD"
    ensures Window(t, 0, 3) == "ABC" && Window(t, 1, 3) == "BCD" && Window(t, 2, 3) == "CDA"
    ensures Window(t, 3, 3) == "DAB" && Window(t, 4, 3) == "ABC" && Window(t, 5, 3) == "BCD"
  {
  }

  /** The first four iterations of the worked example below. */
  lemma ExampleFirstFour(t: string)
    requires t == "ABCDABCD"
    ensures ListsUpTo(t, 3, 4) == map["ABC" := [0], "BCD" := [1], "CDA" := [2], "DAB" := [3]]
  {
    ExampleWindows(t);
    var l0, l1, l2, l3: seq<nat> := [0], [1], [2], [3];
    assert [] + l0 == l0 && [] + l1 == l1 && [] + l2 == l2 && [] + l3 == l3;
    assert ListsUpTo(t, 3, 0) == map[];
    ListsStep(t, 3, 0);
    ListsStep(t, 3, 1);
    ListsStep(t, 3, 2);
    ListsStep(t, 3, 3);
  }

  /** The worked example of `sequence_lists`. */
  lemma SequenceListsExample(t: string)
    requires t == "ABCDABCD"
    ensures SequenceLists(t, 3) == map["ABC" := [0, 4], "BCD" := [1, 5], "CDA" := [2], "DAB" := [3]]
  {
    ExampleSix(t);
    assert SequenceLists(t, 3) == ListsUpTo(t, 3, |t| - 3 + 1);
  }

  /** All six iterations of the worked example: "BCD" seen again. */
  lemma ExampleSix(t: string)
    requires t == "ABCDABCD"
    ensures ListsUpTo(t, 3, 6) == map["ABC" := [0, 4], "BCD" := [1, 5], "CDA" := [2], "DAB" := [3]]
  {
    ExampleFive(t);
    ExampleWindows(t);
    var l1, l5: seq<nat> := [1], [1, 5];
    assert l1 + [5] == l5;
    ListsStep(t, 3, 5);
  }

  /** The first five iterations of the worked example: "ABC" seen again. */
  lemma ExampleFive(t: string)
    requires t == "ABCDABCD"
    ensures ListsUpTo(t, 3, 5) == map["ABC" := [0, 4], "BCD" := [1], "CDA" := [2], "DAB" := [3]]
  {
    ExampleFirstFour(t);
    ExampleWindows(t);
    var l0, l4: seq<nat> := [0], [0, 4];
    assert l0 + [4] == l4;
    ListsStep(t, 3, 4);
  }

  /** The differences of consecutive elements. */
  function Diffs(idx: seq<int>): (d: seq<int>)
    ensures |d| == Max(|idx| - 1, 0)
    ensures forall i :: 0 <= i < |d| ==> d[i] == idx[i + 1] - idx[i]
  {
    if |idx| < 2 then [] else seq(|idx| - 1, i requires 0 <= i < |idx| - 1 => idx[i + 1] - idx[i])
  }

  function Sum(xs: seq<int>): int
  {
    if |xs| == 0 then 0 else Sum(xs[..|xs| - 1]) + xs[|xs| - 1]
  }

  /** The spans between consecutive occurrences add up to the distance from
      the first occurrence to the last. */
  lemma {:induction false} DiffsTelescope(idx: seq<int>)
    requires |idx| > 0
    ensures Sum(Diffs(idx)) == idx[|idx| - 1] - idx[0]
    decreases |idx|
  {
    if |idx| > 1 {
      var v := idx[..|idx| - 1];
      calc {
        Sum(Diffs(idx));
        { DiffsSnoc(idx); }
        Sum(Diffs(v)) + (idx[|idx| - 1] - idx[|idx| - 2]);
        { DiffsTelescope(v); }
        idx[|idx| - 1] - idx[0];
      }
    }
  }

  /** The differences of a sequence are those of its front and then the last
      step. */
  lemma DiffsSnoc(idx: seq<int>)
    requires |idx| > 1
    ensures Sum(Diffs(idx)) == Sum(Diffs(idx[..|idx| - 1])) + (idx[|idx| - 1] - idx[|idx| - 2])
  {
    var d := Diffs(idx);
    assert d[..|d| - 1] == Diffs(idx[..|idx| - 1]);
  }

  /** `sequence_span_lengths`: only sequences seen twice or more, each with
      the gaps between its occurrences. */
  function SpanLengths(sequences: map<string, seq<int>>): (spans: map<string, seq<int>>)
    ensures forall s :: s in spans <==> s in sequences && |sequences[s]| > 1
    ensures forall s :: s in spans ==> spans[s] == Diffs(sequences[s])
  {
    map s | s in sequences && |sequences[s]| > 1 :: Diffs(sequences[s])
  }

  /** On the output of `sequence_lists` every span is positive and the spans
      of one sequence add up to at most the text's length less the window. */
  lemma SpansOfRepeats(text: string, count: nat)
    ensures var spans := SpanLengths(SequenceLists(text, count));
      forall s :: s in spans ==>
        |spans[s]| > 0 && (forall i :: 0 <= i < |spans[s]| ==> spans[s][i] > 0) && Sum(spans[s]) <= |text| - count
  {
    var m := SequenceLists(text, count);
    var spans := SpanLengths(m);
    forall s | s in spans
      ensures |spans[s]| > 0 && (forall i :: 0 <= i < |spans[s]| ==> spans[s][i] > 0) && Sum(spans[s]) <= |text| - count
    {
      SpansOfIndices(m[s], |text| - count);
    }
  }

  /** The gaps of an ascending list of indices, the last of them at most
      `bound`, are positive and add up to at most `bound`. */
  lemma SpansOfIndices(idx: seq<nat>, bound: int)
    requires |idx| > 1 && idx[|idx| - 1] <= bound
    requires forall k, l :: 0 <= k < l < |idx| ==> idx[k] < idx[l]
    ensures |Diffs(idx)| > 0 && (forall i :: 0 <= i < |Diffs(idx)| ==> Diffs(idx)[i] > 0)
    ensures Sum(Diffs(idx)) <= bound
  {
    DiffsTelescope(idx);
  }

  /** The divisors of `n` from `i` up to `n // 2`, ascending. */
  function DivisorsFrom(n: int, i: int): (r: seq<int>)
    requires i >= 2
    ensures forall k :: 0 <= k < |r| ==> i <= r[k] <= n / 2 && n % r[k] == 0
    ensures forall d :: i <= d <= n / 2 && n % d == 0 ==> d in r
    ensures forall k, l :: 0 <= k < l < |r| ==> r[k] < r[l]
    decreases n / 2 - i
  {
    if i > n / 2 then [] else (if n % i == 0 then [i] else []) + DivisorsFrom(n, i + 1)
  }

  /** `_get_factor_list`: the divisors of `n` in 2..n // 2, ascending, and
      then `n` itself (1 is left out; `n` is listed whatever it is). */
  function FactorList(n: int): (r: seq<int>)
    ensures |r| > 0 && r[|r| - 1] == n
    ensures forall k :: 0 <= k < |r| - 1 ==> 2 <= r[k] <= n / 2 && n % r[k] == 0
    ensures forall d :: 2 <= d <= n / 2 && n % d == 0 ==> d in r[..|r| - 1]
  {
    var r := DivisorsFrom(n, 2) + [n];
    assert r[..|r| - 1] == DivisorsFrom(n, 2);
    r
  }

  /** A divisor of `n` below `n` is at most half of `n`. */
  lemma ProperDivisorAtMostHalf(n: int, d: int)
    requires 2 <= d < n && n % d == 0
    ensures d <= n / 2
  {
    var q := n / d;
    assert n == d * q;
    if q <= 0 {
      MulAtLeast(d, 1 - q);
      assert false;
    }
    if q == 1 {
      assert false;
    }
    MulAtLeast(d, q - 1);
  }

  /** For `n` of 2 or more the factor list holds exactly the divisors of `n`
      other than 1. */
  lemma FactorListDivisors(n: int)
    requires n >= 2
    ensures forall d :: d in FactorList(n) <==> 2 <= d <= n && n % d == 0
  {
    var r := FactorList(n);
    forall d | 2 <= d <= n && n % d == 0
      ensures d in r
    {
      if d < n {
        ProperDivisorAtMostHalf(n, d);
        assert d in r[..|r| - 1];
      }
    }
    forall d | d in r
      ensures 2 <= d <= n && n % d == 0
    {
      var k :| 0 <= k < |r| && r[k] == d;
    }
  }

  predicate Ascending(r: seq<int>)
  {
    forall k, l :: 0 <= k < l < |r| ==> r[k] < r[l]
  }

  /** `x` added to an ascending list without duplicates. */
  function InsertSorted(x: int, r: seq<int>): (r': seq<int>)
    requires Ascending(r)
    ensures Ascending(r')
    ensures forall y :: y in r' <==> y == x || y in r
  {
    if |r| == 0 then [x]
    else if x < r[0] then [x] + r
    else if x == r[0] then r
    else
      var t := InsertSorted(x, r[1..]);
      assert forall y :: y in r ==> y == r[0] || y in r[1..];
      AscendingTail(r);
      ConsAscending(r[0], t);
      [r[0]] + t
  }

  /** The head of an ascending list is below everything after it. */
  lemma AscendingTail(r: seq<int>)
    requires Ascending(r) && |r| > 0
    ensures Ascending(r[1..])
    ensures forall y :: y in r[1..] ==> r[0] < y
  {
    forall y | y in r[1..]
      ensures r[0] < y
    {
      var k :| 0 <= k < |r| - 1 && r[1..][k] == y;
      assert r[k + 1] == y;
    }
  }

  /** A value below everything in an ascending list stays ascending in
      front of it. */
  lemma ConsAscending(a: int, t: seq<int>)
    requires Ascending(t) && forall y :: y in t ==> a < y
    ensures Ascending([a] + t)
  {
    forall k, l | 0 <= k < l < |t| + 1
      ensures ([a] + t)[k] < ([a] + t)[l]
    {
      assert t[l - 1] in t;
    }
  }

  /** Every element of `xs` added to `r`. */
  function InsertAll(xs: seq<int>, r: seq<int>): (r': seq<int>)
    requires Ascending(r)
    ensures Ascending(r')
    ensures forall y :: y in r' <==> y in xs || y in r
  {
    if |xs| == 0 then r
    else
      assert forall y :: y in xs ==> y == xs[0] || y in xs[1..];
      InsertAll(xs[1..], InsertSorted(xs[0], r))
  }

  /** `sorted(set(...))` of the factors of every span length in a list:
      ascending, without duplicates, holding each factor of each span. */
  function SortedFactors(lengths: seq<int>): (r: seq<int>)
    ensures Ascending(r)
    ensures forall x :: x in r <==> exists j :: 0 <= j < |lengths| && x in FactorList(lengths[j])
  {
    if |lengths| == 0 then []
    else
      var front := lengths[..|lengths| - 1];
      var r := InsertAll(FactorList(lengths[|lengths| - 1]), SortedFactors(front));
      FactorsOfSplit(lengths, front, r, SortedFactors(front));
      r
  }

  /** Being a factor of some span splits into being a factor of an earlier
      span or of the last one. */
  lemma FactorsOfSplit(lengths: seq<int>, front: seq<int>, r: seq<int>, prev: seq<int>)
    requires |lengths| > 0 && front == lengths[..|lengths| - 1]
    requires forall x :: x in prev <==> exists j :: 0 <= j < |front| && x in FactorList(front[j])
    requires forall y :: y in r <==> y in FactorList(lengths[|lengths| - 1]) || y in prev
    ensures forall x :: x in r <==> exists j :: 0 <= j < |lengths| && x in FactorList(lengths[j])
  {
    forall x
      ensures x in r <==> exists j :: 0 <= j < |lengths| && x in FactorList(lengths[j])
    {
      if x in prev {
        var j :| 0 <= j < |lengths| - 1 && x in FactorList(front[j]);
        assert front[j] == lengths[j];
      }
      if exists j :: 0 <= j < |lengths| && x in FactorList(lengths[j]) {
        var j :| 0 <= j < |lengths| && x in FactorList(lengths[j]);
        if j < |lengths| - 1 {
          assert front[j] == lengths[j];
        }
      }
    }
  }

  /** `sequence_length_factors`: for each sequence, the sorted factors of all
      its spans together. A sequence with no spans at all never gets an entry
      before the sort reads it back, so the lookup fails with KeyError. */
  function SequenceLengthFactors(span: map<string, seq<int>>): (r: Result<map<string, seq<int>>>)
    ensures r.Ok? <==> forall s :: s in span ==> |span[s]| > 0
    ensures r.Err? ==> r.error == KeyError
    ensures r.Ok? ==> forall s :: s in r.value <==> s in span
    ensures r.Ok? ==> forall s, x :: s in r.value ==>
      (x in r.value[s] <==> exists j :: 0 <= j < |span[s]| && x in FactorList(span[s][j]))
    ensures r.Ok? ==> forall s :: s in r.value ==> Ascending(r.value[s])
  {
    if exists s :: s in span && |span[s]| == 0 then Err(KeyError)
    else Ok(map s | s in span :: SortedFactors(span[s]))
  }

  /** `find_common_factors`: the factors found in every sequence's list. The
      source returns them in the iteration order of a Python set, which is
      not modelled; the result is the set. */
  function CommonFactors(factors: map<string, seq<int>>): (r: set<int>)
    ensures forall x :: x in r ==> factors != map[] && forall s :: s in factors ==> x in factors[s]
    ensures forall s, x :: s in factors && x in factors[s] && (forall t :: t in factors ==> x in factors[t]) ==> x in r
  {
    set s, x | s in factors && x in factors[s] && (forall t :: t in factors ==> x in factors[t]) :: x
  }

  /** `x` is in the factor list of a positive span length `n`: a divisor of
      `n` other than 1, or `n` itself. */
  predicate FactorOf(x: int, n: int)
  {
    1 <= x <= n && n % x == 0 && (x >= 2 || x == n)
  }

  /** For a positive `n` the factor list holds exactly its `FactorOf`s. */
  lemma FactorListOfPositive(n: int, x: int)
    requires n > 0
    ensures x in FactorList(n) <==> FactorOf(x, n)
  {
    if n >= 2 {
      FactorListDivisors(n);
    } else {
      assert FactorList(n) == [1];
    }
  }

  /** The common factors of the sorted factor lists: with positive spans (as
      `sequence_span_lengths` yields for repeated sequences), `x` is common
      exactly when every sequence has some span that `x` is a factor of. A
      sequence's list is the union over its spans, so `x` need not divide
      each of them. */
  lemma {:induction false} CommonFactorsOfSpans(span: map<string, seq<int>>)
    requires forall s :: s in span ==> |span[s]| > 0 && forall j :: 0 <= j < |span[s]| ==> span[s][j] > 0
    ensures SequenceLengthFactors(span).Ok?
    ensures forall x :: x in CommonFactors(SequenceLengthFactors(span).value) <==>
      span != map[] && forall s :: s in span ==> exists j :: 0 <= j < |span[s]| && FactorOf(x, span[s][j])
  {
    var f := SequenceLengthFactors(span).value;
    forall x
      ensures x in CommonFactors(f) <==>
        span != map[] && forall s :: s in span ==> exists j :: 0 <= j < |span[s]| && FactorOf(x, span[s][j])
    {
      forall s | s in span
        ensures x in f[s] <==> exists j :: 0 <= j < |span[s]| && FactorOf(x, span[s][j])
      {
        forall j | 0 <= j < |span[s]|
          ensures x in FactorList(span[s][j]) <==> FactorOf(x, span[s][j])
        {
          FactorListOfPositive(span[s][j], x);
        }
      }
      if span != map[] && forall s :: s in span ==> exists j :: 0 <= j < |span[s]| && FactorOf(x, span[s][j]) {
        var s0 :| s0 in span;
        assert x in f[s0];
      }
    }
  }

  /** The column of the text that key letter `j` encrypted: the characters at
      `j`, `j + keyLength`, `j + 2 keyLength`, ... */
  function Column(ciphertext: string, j: nat, keyLength: nat): (r: string)
    requires keyLength > 0
    ensures forall m :: 0 <= m < |r| ==> Pos(j, m, keyLength) < |ciphertext| && r[m] == ciphertext[Pos(j, m, keyLength)]
    ensures forall m: nat :: Pos(j, m, keyLength) < |ciphertext| ==> m < |r|
    decreases |ciphertext| - j
  {
    if j >= |ciphertext| then []
    else
      var r := [ciphertext[j]] + Column(ciphertext, j + keyLength, keyLength);
      forall m: nat | 0 < m
        ensures Pos(j, m, keyLength) == Pos(j + keyLength, m - 1, keyLength)
      {
        PosStep(j, m, keyLength);
      }
      r
  }

  /** Index `m` of column `j`. */
  function Pos(j: nat, m: nat, keyLength: nat): nat
  {
    j + m * keyLength
  }

  lemma PosStep(j: nat, m: nat, keyLength: nat)
    requires m > 0
    ensures Pos(j, m, keyLength) == Pos(j + keyLength, m - 1, keyLength)
  {
    assert m * keyLength == (m - 1) * keyLength + keyLength;
  }

  /** `split_ciphertext_by_key_length`: one column per key letter; no
      columns for a key length of zero or less. */
  function SplitByKeyLength(ciphertext: string, keyLength: int): (r: seq<string>)
    ensures |r| == Max(keyLength, 0)
    ensures forall j, m :: 0 <= j < |r| && 0 <= m < |r[j]| ==>
      Pos(j, m, keyLength) < |ciphertext| && r[j][m] == ciphertext[Pos(j, m, keyLength)]
  {
    if keyLength <= 0 then []
    else seq(keyLength, j requires 0 <= j < keyLength => Column(ciphertext, j, keyLength))
  }

  /** Every character of the ciphertext lands in exactly one place: column
      `i % keyLength`, position `i / keyLength`. */
  lemma SplitPartition(ciphertext: string, keyLength: int)
    requires keyLength > 0
    ensures forall i :: 0 <= i < |ciphertext| ==>
      i / keyLength < |SplitByKeyLength(ciphertext, keyLength)[i % keyLength]| &&
      SplitByKeyLength(ciphertext, keyLength)[i % keyLength][i / keyLength] == ciphertext[i]
  {
    var r := SplitByKeyLength(ciphertext, keyLength);
    forall i | 0 <= i < |ciphertext|
      ensures i / keyLength < |r[i % keyLength]| && r[i % keyLength][i / keyLength] == ciphertext[i]
    {
      var j, m := i % keyLength, i / keyLength;
      assert Pos(j, m, keyLength) == i;
      assert r[j] == Column(ciphertext, j, keyLength);
    }
  }

  /** The worked example of `split_ciphertext_by_key_length`. */
  lemma SplitExample()
    ensures SplitByKeyLength("ABCDABCD", 3) == ["ADC", "BAD", "CB"]
  {
    var t := "ABCDABCD";
    ExampleColumns(t);
    var r := SplitByKeyLength(t, 3);
    assert r[0] == "ADC" && r[1] == "BAD" && r[2] == "CB";
  }

  /** The three columns of the split example, built from the back. */
  lemma ExampleColumns(t: string)
    requires t == "ABCDABCD"
    ensures Column(t, 0, 3) == "ADC" && Column(t, 1, 3) == "BAD" && Column(t, 2, 3) == "CB"
  {
    assert Column(t, 8, 3) == [] && Column(t, 9, 3) == [] && Column(t, 10, 3) == [];
    assert Column(t, 6, 3) == "C" && Column(t, 7, 3) == "D";
    assert Column(t, 3, 3) == "DC" && Column(t, 4, 3) == "AD" && Column(t, 5, 3) == "B";
  }

  /** The worked example of `find_common_factors`. */
  lemma CommonFactorsExample()
    ensures CommonFactors(map["ABC" := [2, 4], "BCD" := [4]]) == {4}
  {
    var f := map["ABC" := [2, 4], "BCD" := [4]];
    assert "ABC" != "BCD";
    assert f["ABC"] == [2, 4] && f["BCD"] == [4];
    assert 4 in f["ABC"] && 4 in f["BCD"];
    assert forall t :: t in f ==> 4 in f[t];
    var c := CommonFactors(f);
    assert 4 in c;
    forall x | x in c
      ensures x == 4
    {
      assert x in f["BCD"];
    }
  }

  /** The worked examples of `sequence_span_lengths` and
      `_get_factor_list`. */
  lemma SpanExample()
    ensures SpanLengths(map["ABC" := [0, 4], "BCD" := [1, 5], "CDA" := [2], "DAB" := [3]])
         == map["ABC" := [4], "BCD" := [4]]
    ensures FactorList(4) == [2, 4]
  {
    var m := map["ABC" := [0, 4], "BCD" := [1, 5], "CDA" := [2], "DAB" := [3]];
    var spans := SpanLengths(m);
    assert Diffs([0, 4]) == [4] && Diffs([1, 5]) == [4];
    assert m.Keys == {"ABC", "BCD", "CDA", "DAB"};
    assert spans.Keys == {"ABC", "BCD"};
    assert DivisorsFrom(4, 3) == [];
  }
}
