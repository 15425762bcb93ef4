/** The mechanical parts of `TheSauce/enigma.py` (the class `_mechanical`):
    five rotors, each a forward and a reverse table of offsets and a pushpeg,
    and two reflectors, each one table. A table is a function from a wire to
    its offset, written out entry by entry with the source's values.

    The facts the reciprocity of the machine rests on are proved here, table
    by table: each rotor's reverse table undoes its forward table and the
    other way round, and each reflector pairs its wires with no wire left on
    its own. */
module EnigmaWiring {
  import opened Letters

  /** A wiring table: the offset by which a signal meeting each wire is
      moved on. */
  type Offsets = Letter -> int

  /** A rotor's two tables and the counter value at which it pushes its left
      neighbour on. */
  datatype Wiring = Wiring(forward: Offsets, reverse: Offsets, pushpeg: Letter)

  /** Table `r` leads wire `u` back from where table `f` takes it. */
  predicate UndoesAt(f: Offsets, r: Offsets, u: Letter)
  {
    (f(u) + r((u + f(u)) % 26)) % 26 == 0
  }

  /** Table `r` undoes table `f` on every wire. */
  predicate Undoes(f: Offsets, r: Offsets)
  {
    forall u: Letter :: UndoesAt(f, r, u)
  }

  /** A rotor whose reverse table undoes its forward table and the other way
      round. */
  predicate ValidWiring(w: Wiring)
  {
    Undoes(w.forward, w.reverse) && Undoes(w.reverse, w.forward)
  }

  /** A reflector that pairs the wires up: it undoes itself and no wire leads
      back to itself. */
  predicate ValidReflector(t: Offsets)
  {
    Undoes(t, t) && forall x: Letter :: t(x) % 26 != 0
  }

  // ---------------------------------------------------------------------------
  // Rotor I
  // ---------------------------------------------------------------------------

  function RotorIForward(u: Letter): int
  {
    if u == 0 then 4 else
    if u == 1 then 9 else
    if u == 2 then 10 else
    if u == 3 then 2 else
    if u == 4 then 7 else
    if u == 5 then 1 else
    if u == 6 then -3 else
    if u == 7 then 9 else
    if u == 8 then 13 else
    if u == 9 then -10 else
    if u == 10 then 3 else
    if u == 11 then 8 else
    if u == 12 then 2 else
    if u == 13 then 9 else
    if u == 14 then 10 else
    if u == 15 then -8 else
    if u == 16 then 7 else
    if u == 17 then 3 else
    if u == 18 then 0 else
    if u == 19 then -4 else
    if u == 20 then 6 else
    if u == 21 then 13 else
    if u == 22 then 5 else
    if u == 23 then -6 else
    if u == 24 then 4 else
    10
  }

  function RotorIReverse(u: Letter): int
  {
    if u == 0 then -6 else
    if u == 1 then -5 else
    if u == 2 then -4 else
    if u == 3 then 3 else
    if u == 4 then -4 else
    if u == 5 then -2 else
    if u == 6 then -1 else
    if u == 7 then 8 else
    if u == 8 then -13 else
    if u == 9 then -10 else
    if u == 10 then -9 else
    if u == 11 then -7 else
    if u == 12 then -10 else
    if u == 13 then -3 else
    if u == 14 then -2 else
    if u == 15 then 4 else
    if u == 16 then -9 else
    if u == 17 then 6 else
    if u == 18 then 0 else
    if u == 19 then -8 else
    if u == 20 then -3 else
    if u == 21 then -13 else
    if u == 22 then -9 else
    if u == 23 then -7 else
    if u == 24 then -10 else
    10
  }

  const RotorI: Wiring := Wiring(RotorIForward, RotorIReverse, 16)

  lemma RotorIForwardTable()
    ensures forall u: Letter :: (RotorIForward(u) + RotorIReverse((u + RotorIForward(u)) % 26)) % 26 == 0
  {
  }

  lemma RotorIReverseTable()
    ensures forall u: Letter :: (RotorIReverse(u) + RotorIForward((u + RotorIReverse(u)) % 26)) % 26 == 0
  {
  }

  lemma RotorIForwardUndoes()
    ensures Undoes(RotorIForward, RotorIReverse)
  {
    RotorIForwardTable();
  }

  lemma RotorIReverseUndoes()
    ensures Undoes(RotorIReverse, RotorIForward)
  {
    RotorIReverseTable();
  }

  /** Rotor I's tables undo each other. */
  lemma RotorIValid()
    ensures ValidWiring(RotorI)
  {
    RotorIForwardUndoes();
    RotorIReverseUndoes();
  }

  // ---------------------------------------------------------------------------
  // Rotor II
  // ---------------------------------------------------------------------------

  function RotorIIForward(u: Letter): int
  {
    if u == 0 then 0 else
    if u == 1 then 8 else
    if u == 2 then 1 else
    if u == 3 then 7 else
    if u == 4 then -12 else
    if u == 5 then 3 else
    if u == 6 then 11 else
    if u == 7 then 13 else
    if u == 8 then -11 else
    if u == 9 then -8 else
    if u == 10 then 1 else
    if u == 11 then -4 else
    if u == 12 then 10 else
    if u == 13 then 6 else
    if u == 14 then -2 else
    if u == 15 then 13 else
    if u == 16 then 0 else
    if u == 17 then -11 else
    if u == 18 then 7 else
    if u == 19 then -6 else
    if u == 20 then -5 else
    if u == 21 then 3 else
    if u == 22 then 9 else
    if u == 23 then -2 else
    if u == 24 then -10 else
    5
  }

  function RotorIIReverse(u: Letter): int
  {
    if u == 0 then 0 else
    if u == 1 then 8 else
    if u == 2 then -13 else
    if u == 3 then -1 else
    if u == 4 then -5 else
    if u == 5 then -9 else
    if u == 6 then 11 else
    if u == 7 then 4 else
    if u == 8 then -3 else
    if u == 9 then -8 else
    if u == 10 then -7 else
    if u == 11 then -1 else
    if u == 12 then 2 else
    if u == 13 then 6 else
    if u == 14 then 10 else
    if u == 15 then 5 else
    if u == 16 then 0 else
    if u == 17 then -11 else
    if u == 18 then 12 else
    if u == 19 then -6 else
    if u == 20 then -13 else
    if u == 21 then 2 else
    if u == 22 then -10 else
    if u == 23 then 11 else
    if u == 24 then -3 else
    -7
  }

  const RotorII: Wiring := Wiring(RotorIIForward, RotorIIReverse, 4)

  lemma RotorIIForwardTable()
    ensures forall u: Letter :: (RotorIIForward(u) + RotorIIReverse((u + RotorIIForward(u)) % 26)) % 26 == 0
  {
  }

  lemma RotorIIReverseTable()
    ensures forall u: Letter :: (RotorIIReverse(u) + RotorIIForward((u + RotorIIReverse(u)) % 26)) % 26 == 0
  {
  }

  lemma RotorIIForwardUndoes()
    ensures Undoes(RotorIIForward, RotorIIReverse)
  {
    RotorIIForwardTable();
  }

  lemma RotorIIReverseUndoes()
    ensures Undoes(RotorIIReverse, RotorIIForward)
  {
    RotorIIReverseTable();
  }

  /** Rotor II's tables undo each other. */
  lemma RotorIIValid()
    ensures ValidWiring(RotorII)
  {
    RotorIIForwardUndoes();
    RotorIIReverseUndoes();
  }

  // ---------------------------------------------------------------------------
  // Rotor III
  // ---------------------------------------------------------------------------

  function RotorIIIForward(u: Letter): int
  {
    if u == 0 then 1 else
    if u == 1 then 2 else
    if u == 2 then 3 else
    if u == 3 then 4 else
    if u == 4 then 5 else
    if u == 5 then 6 else
    if u == 6 then -4 else
    if u == 7 then 8 else
    if u == 8 then 9 else
    if u == 9 then 10 else
    if u == 10 then 13 else
    if u == 11 then 10 else
    if u == 12 then 13 else
    if u == 13 then 0 else
    if u == 14 then 10 else
    if u == 15 then -11 else
    if u == 16 then -8 else
    if u == 17 then 5 else
    if u == 18 then -12 else
    if u == 19 then 7 else
    if u == 20 then -10 else
    if u == 21 then -9 else
    if u == 22 then -2 else
    if u == 23 then -5 else
    if u == 24 then -8 else
    -11
  }

  function RotorIIIReverse(u: Letter): int
  {
    if u == 0 then -7 else
    if u == 1 then -1 else
    if u == 2 then 4 else
    if u == 3 then -2 else
    if u == 4 then 11 else
    if u == 5 then -3 else
    if u == 6 then 12 else
    if u == 7 then -4 else
    if u == 8 then 8 else
    if u == 9 then -5 else
    if u == 10 then 10 else
    if u == 11 then -6 else
    if u == 12 then 9 else
    if u == 13 then 0 else
    if u == 14 then 11 else
    if u == 15 then -8 else
    if u == 16 then 8 else
    if u == 17 then -9 else
    if u == 18 then 5 else
    if u == 19 then -10 else
    if u == 20 then 2 else
    if u == 21 then -10 else
    if u == 22 then -5 else
    if u == 23 then -13 else
    if u == 24 then -10 else
    -13
  }

  const RotorIII: Wiring := Wiring(RotorIIIForward, RotorIIIReverse, 21)

  lemma RotorIIIForwardTable()
    ensures forall u: Letter :: (RotorIIIForward(u) + RotorIIIReverse((u + RotorIIIForward(u)) % 26)) % 26 == 0
  {
  }

  lemma RotorIIIReverseTable()
    ensures forall u: Letter :: (RotorIIIReverse(u) + RotorIIIForward((u + RotorIIIReverse(u)) % 26)) % 26 == 0
  {
  }

  lemma RotorIIIForwardUndoes()
    ensures Undoes(RotorIIIForward, RotorIIIReverse)
  {
    RotorIIIForwardTable();
  }

  lemma RotorIIIReverseUndoes()
    ensures Undoes(RotorIIIReverse, RotorIIIForward)
  {
    RotorIIIReverseTable();
  }

  /** Rotor III's tables undo each other. */
  lemma RotorIIIValid()
    ensures ValidWiring(RotorIII)
  {
    RotorIIIForwardUndoes();
    RotorIIIReverseUndoes();
  }

  // ---------------------------------------------------------------------------
  // Rotor IV
  // ---------------------------------------------------------------------------

  function RotorIVForward(u: Letter): int
  {
    if u == 0 then 4 else
    if u == 1 then -9 else
    if u == 2 then 12 else
    if u == 3 then -8 else
    if u == 4 then 11 else
    if u == 5 then -6 else
    if u == 6 then 3 else
    if u == 7 then -7 else
    if u == 8 then -10 else
    if u == 9 then 7 else
    if u == 10 then 10 else
    if u == 11 then -3 else
    if u == 12 then 5 else
    if u == 13 then -6 else
    if u == 14 then 9 else
    if u == 15 then -4 else
    if u == 16 then -3 else
    if u == 17 then -12 else
    if u == 18 then 1 else
    if u == 19 then 13 else
    if u == 20 then -10 else
    if u == 21 then 8 else
    if u == 22 then 6 else
    if u == 23 then -11 else
    if u == 24 then -2 else
    2
  }

  function RotorIVReverse(u: Letter): int
  {
    if u == 0 then 7 else
    if u == 1 then -2 else
    if u == 2 then -6 else
    if u == 3 then -8 else
    if u == 4 then -4 else
    if u == 5 then 12 else
    if u == 6 then -13 else
    if u == 7 then 6 else
    if u == 8 then 3 else
    if u == 9 then -3 else
    if u == 10 then 10 else
    if u == 11 then 4 else
    if u == 12 then 11 else
    if u == 13 then 3 else
    if u == 14 then -12 else
    if u == 15 then -11 else
    if u == 16 then -7 else
    if u == 17 then -5 else
    if u == 18 then 9 else
    if u == 19 then -1 else
    if u == 20 then -10 else
    if u == 21 then 8 else
    if u == 22 then 2 else
    if u == 23 then -9 else
    if u == 24 then 10 else
    6
  }

  const RotorIV: Wiring := Wiring(RotorIVForward, RotorIVReverse, 9)

  lemma RotorIVForwardTable()
    ensures forall u: Letter :: (RotorIVForward(u) + RotorIVReverse((u + RotorIVForward(u)) % 26)) % 26 == 0
  {
  }

  lemma RotorIVReverseTable()
    ensures forall u: Letter :: (RotorIVReverse(u) + RotorIVForward((u + RotorIVReverse(u)) % 26)) % 26 == 0
  {
  }

  lemma RotorIVForwardUndoes()
    ensures Undoes(RotorIVForward, RotorIVReverse)
  {
    RotorIVForwardTable();
  }

  lemma RotorIVReverseUndoes()
    ensures Undoes(RotorIVReverse, RotorIVForward)
  {
    RotorIVReverseTable();
  }

  /** Rotor IV's tables undo each other. */
  lemma RotorIVValid()
    ensures ValidWiring(RotorIV)
  {
    RotorIVForwardUndoes();
    RotorIVReverseUndoes();
  }

  // ---------------------------------------------------------------------------
  // Rotor V
  // ---------------------------------------------------------------------------

  function RotorVForward(u: Letter): int
  {
    if u == 0 then -5 else
    if u == 1 then -2 else
    if u == 2 then -1 else
    if u == 3 then -12 else
    if u == 4 then 2 else
    if u == 5 then 3 else
    if u == 6 then 13 else
    if u == 7 then -9 else
    if u == 8 then 12 else
    if u == 9 then 6 else
    if u == 10 then 8 else
    if u == 11 then -8 else
    if u == 12 then 1 else
    if u == 13 then -6 else
    if u == 14 then -3 else
    if u == 15 then 8 else
    if u == 16 then 10 else
    if u == 17 then 5 else
    if u == 18 then -6 else
    if u == 19 then -10 else
    if u == 20 then -4 else
    if u == 21 then -7 else
    if u == 22 then 9 else
    if u == 23 then 7 else
    if u == 24 then 4 else
    11
  }

  function RotorVReverse(u: Letter): int
  {
    if u == 0 then -10 else
    if u == 1 then 1 else
    if u == 2 then -4 else
    if u == 3 then 8 else
    if u == 4 then -7 else
    if u == 5 then -9 else
    if u == 6 then -2 else
    if u == 7 then 6 else
    if u == 8 then -3 else
    if u == 9 then 10 else
    if u == 10 then -11 else
    if u == 11 then 3 else
    if u == 12 then 6 else
    if u == 13 then -1 else
    if u == 14 then 7 else
    if u == 15 then -6 else
    if u == 16 then 4 else
    if u == 17 then 12 else
    if u == 18 then -8 else
    if u == 19 then -13 else
    if u == 20 then -12 else
    if u == 21 then 5 else
    if u == 22 then -5 else
    if u == 23 then -8 else
    if u == 24 then 9 else
    2
  }

  const RotorV: Wiring := Wiring(RotorVForward, RotorVReverse, 25)

  lemma RotorVForwardTable()
    ensures forall u: Letter :: (RotorVForward(u) + RotorVReverse((u + RotorVForward(u)) % 26)) % 26 == 0
  {
  }

  lemma RotorVReverseTable()
    ensures forall u: Letter :: (RotorVReverse(u) + RotorVForward((u + RotorVReverse(u)) % 26)) % 26 == 0
  {
  }

  lemma RotorVForwardUndoes()
    ensures Undoes(RotorVForward, RotorVReverse)
  {
    RotorVForwardTable();
  }

  lemma RotorVReverseUndoes()
    ensures Undoes(RotorVReverse, RotorVForward)
  {
    RotorVReverseTable();
  }

  /** Rotor V's tables undo each other. */
  lemma RotorVValid()
    ensures ValidWiring(RotorV)
  {
    RotorVForwardUndoes();
    RotorVReverseUndoes();
  }

  // ---------------------------------------------------------------------------
  // Reflector B
  // ---------------------------------------------------------------------------

  function ReflectorB(u: Letter): int
  {
    if u == 0 then -2 else
    if u == 1 then -10 else
    if u == 2 then -8 else
    if u == 3 then 4 else
    if u == 4 then 12 else
    if u == 5 then 13 else
    if u == 6 then 5 else
    if u == 7 then -4 else
    if u == 8 then 7 else
    if u == 9 then -12 else
    if u == 10 then 3 else
    if u == 11 then -5 else
    if u == 12 then 2 else
    if u == 13 then -3 else
    if u == 14 then -2 else
    if u == 15 then -7 else
    if u == 16 then -12 else
    if u == 17 then 10 else
    if u == 18 then -13 else
    if u == 19 then 6 else
    if u == 20 then 8 else
    if u == 21 then 1 else
    if u == 22 then -1 else
    if u == 23 then 12 else
    if u == 24 then 2 else
    -6
  }

  lemma ReflectorBTable(u: Letter)
    ensures (ReflectorB(u) + ReflectorB((u + ReflectorB(u)) % 26)) % 26 == 0
  {
  }

  lemma ReflectorBMoves()
    ensures forall u: Letter :: ReflectorB(u) % 26 != 0
  {
  }

  /** Reflector B pairs its wires. */
  lemma ReflectorBValid()
    ensures ValidReflector(ReflectorB)
  {
    forall u: Letter
      ensures UndoesAt(ReflectorB, ReflectorB, u)
    {
      ReflectorBTable(u);
    }
    assert Undoes(ReflectorB, ReflectorB);
    ReflectorBMoves();
  }

  // ---------------------------------------------------------------------------
  // Reflector C
  // ---------------------------------------------------------------------------

  function ReflectorC(u: Letter): int
  {
    if u == 0 then 5 else
    if u == 1 then -6 else
    if u == 2 then 13 else
    if u == 3 then 6 else
    if u == 4 then 4 else
    if u == 5 then -5 else
    if u == 6 then 8 else
    if u == 7 then -9 else
    if u == 8 then -4 else
    if u == 9 then -6 else
    if u == 10 then 7 else
    if u == 11 then -12 else
    if u == 12 then 11 else
    if u == 13 then 9 else
    if u == 14 then -8 else
    if u == 15 then -13 else
    if u == 16 then 3 else
    if u == 17 then -7 else
    if u == 18 then 2 else
    if u == 19 then -3 else
    if u == 20 then -2 else
    if u == 21 then 6 else
    if u == 22 then -9 else
    if u == 23 then -11 else
    if u == 24 then 9 else
    12
  }

  lemma ReflectorCTable(u: Letter)
    ensures (ReflectorC(u) + ReflectorC((u + ReflectorC(u)) % 26)) % 26 == 0
  {
  }

  lemma ReflectorCMoves()
    ensures forall u: Letter :: ReflectorC(u) % 26 != 0
  {
  }

  /** Reflector C pairs its wires. */
  lemma ReflectorCValid()
    ensures ValidReflector(ReflectorC)
  {
    forall u: Letter
      ensures UndoesAt(ReflectorC, ReflectorC, u)
    {
      ReflectorCTable(u);
    }
    assert Undoes(ReflectorC, ReflectorC);
    ReflectorCMoves();
  }

}
