/** The constant tables of the DES engine (`core.py`, repeated verbatim in
    `PasswordCracker.py`). Indices are zero-based, as in the source. Each
    table's element type bounds its entries, so every table can index the
    block it is applied to. */
module DesTables {

  type Idx64 = i: nat | i < 64
  type Idx56 = i: nat | i < 56
  type Idx32 = i: nat | i < 32
  type Nibble = v: nat | v < 16

  /** E: expands a 32-bit half to 48 bits. */
  const Expand: seq<Idx32> :=
    [31,  0,  1,  2,  3,  4,  3,  4]
  + [ 5,  6,  7,  8,  7,  8,  9, 10]
  + [11, 12, 11, 12, 13, 14, 15, 16]
  + [15, 16, 17, 18, 19, 20, 19, 20]
  + [21, 22, 23, 24, 23, 24, 25, 26]
  + [27, 28, 27, 28, 29, 30, 31,  0]

  /** P: permutes the 32 bits leaving the S-boxes. */
  const Contract: seq<Idx32> :=
    [15,  6, 19, 20, 28, 11, 27, 16]
  + [ 0, 14, 22, 25,  4, 17, 30,  9]
  + [ 1,  7, 23, 13, 31, 26,  2,  8]
  + [18, 12, 29,  5, 21, 10,  3, 24]

  /** IP: the permutation applied to each incoming block. */
  const InitPermutation: seq<Idx64> :=
    [57, 49, 41, 33, 25, 17,  9,  1]
  + [59, 51, 43, 35, 27, 19, 11,  3]
  + [61, 53, 45, 37, 29, 21, 13,  5]
  + [63, 55, 47, 39, 31, 23, 15,  7]
  + [56, 48, 40, 32, 24, 16,  8,  0]
  + [58, 50, 42, 34, 26, 18, 10,  2]
  + [60, 52, 44, 36, 28, 20, 12,  4]
  + [62, 54, 46, 38, 30, 22, 14,  6]

  /** IP^-1: the permutation applied to each outgoing block. */
  const FinalPermutation: seq<Idx64> :=
    [39,  7, 47, 15, 55, 23, 63, 31]
  + [38,  6, 46, 14, 54, 22, 62, 30]
  + [37,  5, 45, 13, 53, 21, 61, 29]
  + [36,  4, 44, 12, 52, 20, 60, 28]
  + [35,  3, 43, 11, 51, 19, 59, 27]
  + [34,  2, 42, 10, 50, 18, 58, 26]
  + [33,  1, 41,  9, 49, 17, 57, 25]
  + [32,  0, 40,  8, 48, 16, 56, 24]

  /** PC-1: selects 56 key bits out of 64, dropping the parity bits. */
  const KeyPermutation1: seq<Idx64> :=
    [56, 48, 40, 32, 24, 16,  8,  0]
  + [57, 49, 41, 33, 25, 17,  9,  1]
  + [58, 50, 42, 34, 26, 18, 10,  2]
  + [59, 51, 43, 35, 62, 54, 46, 38]
  + [30, 22, 14,  6, 61, 53, 45, 37]
  + [29, 21, 13,  5, 60, 52, 44, 36]
  + [28, 20, 12,  4, 27, 19, 11,  3]

  /** PC-2: selects the 48 subkey bits out of the 56 rotated key bits. */
  const KeyPermutation2: seq<Idx56> :=
    [13, 16, 10, 23,  0,  4,  2, 27]
  + [14,  5, 20,  9, 22, 18, 11,  3]
  + [25,  7, 15,  6, 26, 19, 12,  1]
  + [40, 51, 30, 36, 46, 54, 29, 39]
  + [50, 44, 32, 47, 43, 48, 38, 55]
  + [33, 52, 45, 41, 49, 35, 28, 31]

  /** The left rotation applied to both key halves before each round. */
  const KeyShift: seq<nat> := [1, 1, 2, 2, 2, 2, 2, 2, 1, 2, 2, 2, 2, 2, 2, 1]

  /** The eight S-boxes, each four rows of sixteen entries stored row after
      row. */
  const SBox1: seq<Nibble> :=
    [14,  4, 13,  1,  2, 15, 11,  8,  3, 10,  6, 12,  5,  9,  0,  7]
  + [ 0, 15,  7,  4, 14,  2, 13,  1, 10,  6, 12, 11,  9,  5,  3,  8]
  + [ 4,  1, 14,  8, 13,  6,  2, 11, 15, 12,  9,  7,  3, 10,  5,  0]
  + [15, 12,  8,  2,  4,  9,  1,  7,  5, 11,  3, 14, 10,  0,  6, 13]

  const SBox2: seq<Nibble> :=
    [15,  1,  8, 14,  6, 11,  3,  4,  9,  7,  2, 13, 12,  0,  5, 10]
  + [ 3, 13,  4,  7, 15,  2,  8, 14, 12,  0,  1, 10,  6,  9, 11,  5]
  + [ 0, 14,  7, 11, 10,  4, 13,  1,  5,  8, 12,  6,  9,  3,  2, 15]
  + [13,  8, 10,  1,  3, 15,  4,  2, 11,  6,  7, 12,  0,  5, 14,  9]

  const SBox3: seq<Nibble> :=
    [10,  0,  9, 14,  6,  3, 15,  5,  1, 13, 12,  7, 11,  4,  2,  8]
  + [13,  7,  0,  9,  3,  4,  6, 10,  2,  8,  5, 14, 12, 11, 15,  1]
  + [13,  6,  4,  9,  8, 15,  3,  0, 11,  1,  2, 12,  5, 10, 14,  7]
  + [ 1, 10, 13,  0,  6,  9,  8,  7,  4, 15, 14,  3, 11,  5,  2, 12]

  const SBox4: seq<Nibble> :=
    [ 7, 13, 14,  3,  0,  6,  9, 10,  1,  2,  8,  5, 11, 12,  4, 15]
  + [13,  8, 11,  5,  6, 15,  0,  3,  4,  7,  2, 12,  1, 10, 14,  9]
  + [10,  6,  9,  0, 12, 11,  7, 13, 15,  1,  3, 14,  5,  2,  8,  4]
  + [ 3, 15,  0,  6, 10,  1, 13,  8,  9,  4,  5, 11, 12,  7,  2, 14]

  const SBox5: seq<Nibble> :=
    [ 2, 12,  4,  1,  7, 10, 11,  6,  8,  5,  3, 15, 13,  0, 14,  9]
  + [14, 11,  2, 12,  4,  7, 13,  1,  5,  0, 15, 10,  3,  9,  8,  6]
  + [ 4,  2,  1, 11, 10, 13,  7,  8, 15,  9, 12,  5,  6,  3,  0, 14]
  + [11,  8, 12,  7,  1, 14,  2, 13,  6, 15,  0,  9, 10,  4,  5,  3]

  const SBox6: seq<Nibble> :=
    [12,  1, 10, 15,  9,  2,  6,  8,  0, 13,  3,  4, 14,  7,  5, 11]
  + [10, 15,  4,  2,  7, 12,  9,  5,  6,  1, 13, 14,  0, 11,  3,  8]
  + [ 9, 14, 15,  5,  2,  8, 12,  3,  7,  0,  4, 10,  1, 13, 11,  6]
  + [ 4,  3,  2, 12,  9,  5, 15, 10, 11, 14,  1,  7,  6,  0,  8, 13]

  const SBox7: seq<Nibble> :=
    [ 4, 11,  2, 14, 15,  0,  8, 13,  3, 12,  9,  7,  5, 10,  6,  1]
  + [13,  0, 11,  7,  4,  9,  1, 10, 14,  3,  5, 12,  2, 15,  8,  6]
  + [ 1,  4, 11, 13, 12,  3,  7, 14, 10, 15,  6,  8,  0,  5,  9,  2]
  + [ 6, 11, 13,  8,  1,  4, 10,  7,  9,  5,  0, 15, 14,  2,  3, 12]

  const SBox8: seq<Nibble> :=
    [13,  2,  8,  4,  6, 15, 11,  1, 10,  9,  3, 14,  5,  0, 12,  7]
  + [ 1, 15, 13,  8, 10,  3,  7,  4, 12,  5,  6, 11,  0, 14,  9,  2]
  + [ 7, 11,  4,  1,  9, 12, 14,  2,  0,  6, 10, 13, 15,  3,  5,  8]
  + [ 2,  1, 14,  7,  4, 10,  8, 13, 15, 12,  9,  0,  3,  5,  6, 11]

  /** Entry `[box][row][col]` of the source's nested S-box list. */
  function SBox(box: nat, row: nat, col: nat): Nibble
    requires box < 8 && row < 4 && col < 16
  {
    var boxTable :=
      if box == 0 then SBox1 else if box == 1 then SBox2
      else if box == 2 then SBox3 else if box == 3 then SBox4
      else if box == 4 then SBox5 else if box == 5 then SBox6
      else if box == 6 then SBox7 else SBox8;
    boxTable[16 * row + col]
  }

  /** The final permutation is the inverse of the initial one. */
  lemma PermutationTablesInverse()
    ensures forall i :: 0 <= i < 64 ==> InitPermutation[FinalPermutation[i]] == i
    ensures forall i :: 0 <= i < 64 ==> FinalPermutation[InitPermutation[i]] == i
  {
    FinalThenInitRow0();
    InitThenFinalRow0();
    FinalThenInitRow1();
    InitThenFinalRow1();
    FinalThenInitRow2();
    InitThenFinalRow2();
    FinalThenInitRow3();
    InitThenFinalRow3();
    FinalThenInitRow4();
    InitThenFinalRow4();
    FinalThenInitRow5();
    InitThenFinalRow5();
    FinalThenInitRow6();
    InitThenFinalRow6();
    FinalThenInitRow7();
    InitThenFinalRow7();
  }

  lemma FinalThenInitRow0()
    ensures forall i :: 0 <= i < 8 ==> InitPermutation[FinalPermutation[i]] == i
  {
    assert InitPermutation[FinalPermutation[0]] == 0;
    assert InitPermutation[FinalPermutation[1]] == 1;
    assert InitPermutation[FinalPermutation[2]] == 2;
    assert InitPermutation[FinalPermutation[3]] == 3;
    assert InitPermutation[FinalPermutation[4]] == 4;
    assert InitPermutation[FinalPermutation[5]] == 5;
    assert InitPermutation[FinalPermutation[6]] == 6;
    assert InitPermutation[FinalPermutation[7]] == 7;
  }

  lemma InitThenFinalRow0()
    ensures forall i :: 0 <= i < 8 ==> FinalPermutation[InitPermutation[i]] == i
  {
    assert FinalPermutation[InitPermutation[0]] == 0;
    assert FinalPermutation[InitPermutation[1]] == 1;
    assert FinalPermutation[InitPermutation[2]] == 2;
    assert FinalPermutation[InitPermutation[3]] == 3;
    assert FinalPermutation[InitPermutation[4]] == 4;
    assert FinalPermutation[InitPermutation[5]] == 5;
    assert FinalPermutation[InitPermutation[6]] == 6;
    assert FinalPermutation[InitPermutation[7]] == 7;
  }

  lemma FinalThenInitRow1()
    ensures forall i :: 8 <= i < 16 ==> InitPermutation[FinalPermutation[i]] == i
  {
    assert InitPermutation[FinalPermutation[8]] == 8;
    assert InitPermutation[FinalPermutation[9]] == 9;
    assert InitPermutation[FinalPermutation[10]] == 10;
    assert InitPermutation[FinalPermutation[11]] == 11;
    assert InitPermutation[FinalPermutation[12]] == 12;
    assert InitPermutation[FinalPermutation[13]] == 13;
    assert InitPermutation[FinalPermutation[14]] == 14;
    assert InitPermutation[FinalPermutation[15]] == 15;
  }

  lemma InitThenFinalRow1()
    ensures forall i :: 8 <= i < 16 ==> FinalPermutation[InitPermutation[i]] == i
  {
    assert FinalPermutation[InitPermutation[8]] == 8;
    assert FinalPermutation[InitPermutation[9]] == 9;
    assert FinalPermutation[InitPermutation[10]] == 10;
    assert FinalPermutation[InitPermutation[11]] == 11;
    assert FinalPermutation[InitPermutation[12]] == 12;
    assert FinalPermutation[InitPermutation[13]] == 13;
    assert FinalPermutation[InitPermutation[14]] == 14;
    assert FinalPermutation[InitPermutation[15]] == 15;
  }

  lemma FinalThenInitRow2()
    ensures forall i :: 16 <= i < 24 ==> InitPermutation[FinalPermutation[i]] == i
  {
    assert InitPermutation[FinalPermutation[16]] == 16;
    assert InitPermutation[FinalPermutation[17]] == 17;
    assert InitPermutation[FinalPermutation[18]] == 18;
    assert InitPermutation[FinalPermutation[19]] == 19;
    assert InitPermutation[FinalPermutation[20]] == 20;
    assert InitPermutation[FinalPermutation[21]] == 21;
    assert InitPermutation[FinalPermutation[22]] == 22;
    assert InitPermutation[FinalPermutation[23]] == 23;
  }

  lemma InitThenFinalRow2()
    ensures forall i :: 16 <= i < 24 ==> FinalPermutation[InitPermutation[i]] == i
  {
    assert FinalPermutation[InitPermutation[16]] == 16;
    assert FinalPermutation[InitPermutation[17]] == 17;
    assert FinalPermutation[InitPermutation[18]] == 18;
    assert FinalPermutation[InitPermutation[19]] == 19;
    assert FinalPermutation[InitPermutation[20]] == 20;
    assert FinalPermutation[InitPermutation[21]] == 21;
    assert FinalPermutation[InitPermutation[22]] == 22;
    assert FinalPermutation[InitPermutation[23]] == 23;
  }

  lemma FinalThenInitRow3()
    ensures forall i :: 24 <= i < 32 ==> InitPermutation[FinalPermutation[i]] == i
  {
    assert InitPermutation[FinalPermutation[24]] == 24;
    assert InitPermutation[FinalPermutation[25]] == 25;
    assert InitPermutation[FinalPermutation[26]] == 26;
    assert InitPermutation[FinalPermutation[27]] == 27;
    assert InitPermutation[FinalPermutation[28]] == 28;
    assert InitPermutation[FinalPermutation[29]] == 29;
    assert InitPermutation[FinalPermutation[30]] == 30;
    assert InitPermutation[FinalPermutation[31]] == 31;
  }

  lemma InitThenFinalRow3()
    ensures forall i :: 24 <= i < 32 ==> FinalPermutation[InitPermutation[i]] == i
  {
    assert FinalPermutation[InitPermutation[24]] == 24;
    assert FinalPermutation[InitPermutation[25]] == 25;
    assert FinalPermutation[InitPermutation[26]] == 26;
    assert FinalPermutation[InitPermutation[27]] == 27;
    assert FinalPermutation[InitPermutation[28]] == 28;
    assert FinalPermutation[InitPermutation[29]] == 29;
    assert FinalPermutation[InitPermutation[30]] == 30;
    assert FinalPermutation[InitPermutation[31]] == 31;
  }

  lemma FinalThenInitRow4()
    ensures forall i :: 32 <= i < 40 ==> InitPermutation[FinalPermutation[i]] == i
  {
    assert InitPermutation[FinalPermutation[32]] == 32;
    assert InitPermutation[FinalPermutation[33]] == 33;
    assert InitPermutation[FinalPermutation[34]] == 34;
    assert InitPermutation[FinalPermutation[35]] == 35;
    assert InitPermutation[FinalPermutation[36]] == 36;
    assert InitPermutation[FinalPermutation[37]] == 37;
    assert InitPermutation[FinalPermutation[38]] == 38;
    assert InitPermutation[FinalPermutation[39]] == 39;
  }

  lemma InitThenFinalRow4()
    ensures forall i :: 32 <= i < 40 ==> FinalPermutation[InitPermutation[i]] == i
  {
    assert FinalPermutation[InitPermutation[32]] == 32;
    assert FinalPermutation[InitPermutation[33]] == 33;
    assert FinalPermutation[InitPermutation[34]] == 34;
    assert FinalPermutation[InitPermutation[35]] == 35;
    assert FinalPermutation[InitPermutation[36]] == 36;
    assert FinalPermutation[InitPermutation[37]] == 37;
    assert FinalPermutation[InitPermutation[38]] == 38;
    assert FinalPermutation[InitPermutation[39]] == 39;
  }

  lemma FinalThenInitRow5()
    ensures forall i :: 40 <= i < 48 ==> InitPermutation[FinalPermutation[i]] == i
  {
    assert InitPermutation[FinalPermutation[40]] == 40;
    assert InitPermutation[FinalPermutation[41]] == 41;
    assert InitPermutation[FinalPermutation[42]] == 42;
    assert InitPermutation[FinalPermutation[43]] == 43;
    assert InitPermutation[FinalPermutation[44]] == 44;
    assert InitPermutation[FinalPermutation[45]] == 45;
    assert InitPermutation[FinalPermutation[46]] == 46;
    assert InitPermutation[FinalPermutation[47]] == 47;
  }

  lemma InitThenFinalRow5()
    ensures forall i :: 40 <= i < 48 ==> FinalPermutation[InitPermutation[i]] == i
  {
    assert FinalPermutation[InitPermutation[40]] == 40;
    assert FinalPermutation[InitPermutation[41]] == 41;
    assert FinalPermutation[InitPermutation[42]] == 42;
    assert FinalPermutation[InitPermutation[43]] == 43;
    assert FinalPermutation[InitPermutation[44]] == 44;
    assert FinalPermutation[InitPermutation[45]] == 45;
    assert FinalPermutation[InitPermutation[46]] == 46;
    assert FinalPermutation[InitPermutation[47]] == 47;
  }

  lemma FinalThenInitRow6()
    ensures forall i :: 48 <= i < 56 ==> InitPermutation[FinalPermutation[i]] == i
  {
    assert InitPermutation[FinalPermutation[48]] == 48;
    assert InitPermutation[FinalPermutation[49]] == 49;
    assert InitPermutation[FinalPermutation[50]] == 50;
    assert InitPermutation[FinalPermutation[51]] == 51;
    assert InitPermutation[FinalPermutation[52]] == 52;
    assert InitPermutation[FinalPermutation[53]] == 53;
    assert InitPermutation[FinalPermutation[54]] == 54;
    assert InitPermutation[FinalPermutation[55]] == 55;
  }

  lemma InitThenFinalRow6()
    ensures forall i :: 48 <= i < 56 ==> FinalPermutation[InitPermutation[i]] == i
  {
    assert FinalPermutation[InitPermutation[48]] == 48;
    assert FinalPermutation[InitPermutation[49]] == 49;
    assert FinalPermutation[InitPermutation[50]] == 50;
    assert FinalPermutation[InitPermutation[51]] == 51;
    assert FinalPermutation[InitPermutation[52]] == 52;
    assert FinalPermutation[InitPermutation[53]] == 53;
    assert FinalPermutation[InitPermutation[54]] == 54;
    assert FinalPermutation[InitPermutation[55]] == 55;
  }

  lemma FinalThenInitRow7()
    ensures forall i :: 56 <= i < 64 ==> InitPermutation[FinalPermutation[i]] == i
  {
    assert InitPermutation[FinalPermutation[56]] == 56;
    assert InitPermutation[FinalPermutation[57]] == 57;
    assert InitPermutation[FinalPermutation[58]] == 58;
    assert InitPermutation[FinalPermutation[59]] == 59;
    assert InitPermutation[FinalPermutation[60]] == 60;
    assert InitPermutation[FinalPermutation[61]] == 61;
    assert InitPermutation[FinalPermutation[62]] == 62;
    assert InitPermutation[FinalPermutation[63]] == 63;
  }

  lemma InitThenFinalRow7()
    ensures forall i :: 56 <= i < 64 ==> FinalPermutation[InitPermutation[i]] == i
  {
    assert FinalPermutation[InitPermutation[56]] == 56;
    assert FinalPermutation[InitPermutation[57]] == 57;
    assert FinalPermutation[InitPermutation[58]] == 58;
    assert FinalPermutation[InitPermutation[59]] == 59;
    assert FinalPermutation[InitPermutation[60]] == 60;
    assert FinalPermutation[InitPermutation[61]] == 61;
    assert FinalPermutation[InitPermutation[62]] == 62;
    assert FinalPermutation[InitPermutation[63]] == 63;
  }
}
