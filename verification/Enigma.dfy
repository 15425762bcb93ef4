/** `TheSauce/enigma.py`: the M3 Enigma simulator. A machine is three rotors
    (each a wiring and a counter), a reflector and a plugboard; every key
    press steps the rotors and then sends the letter through the plugboard,
    the rotors, the reflector, the rotors backwards and the plugboard again.

    The wirings are tables of offsets (module `EnigmaWiring`): a signal
    entering wire `x` of a rotor at counter `c` leaves on wire
    `x + table((x + c) % 26)`, modulo 26. */
module Enigma {
  import opened Letters
  import opened Results
  import opened EnigmaWiring
  import Bits

  /** A rotor in its slot, at its current counter. */
  datatype Wheel = Wheel(wiring: Wiring, counter: Letter)

  /** What the plugboard dictionary holds for each of the 26 letter wires: a
      letter, or the non-letter character a plug with a non-letter end left
      there. */
  type Board = b: seq<Token> | |b| == 26
    witness [Ord(0), Ord(0), Ord(0), Ord(0), Ord(0), Ord(0), Ord(0), Ord(0), Ord(0), Ord(0), Ord(0), Ord(0), Ord(0),
             Ord(0), Ord(0), Ord(0), Ord(0), Ord(0), Ord(0), Ord(0), Ord(0), Ord(0), Ord(0), Ord(0), Ord(0), Ord(0)]

  datatype Machine = Machine(reflector: Offsets, left: Wheel, middle: Wheel, right: Wheel, plugboard: Board)

  /** The lamp lit by a key press and the machine after it. */
  datatype Press = Press(machine: Machine, lamp: string)

  // ---------------------------------------------------------------------------
  // Arithmetic modulo 26
  // ---------------------------------------------------------------------------

  /** Reducing a summand first does not change the sum modulo 26. */
  lemma ModAdd(a: int, b: int)
    ensures ((a % 26) + b) % 26 == (a + b) % 26
  {
    Bits.DivModUnique((a % 26) + b, 26, (a + b) / 26 - a / 26, (a + b) % 26);
  }

  /** Adding a multiple of 26 to a wire leads back to that wire. */
  lemma ShiftBack(x: Letter, s: int)
    requires s % 26 == 0
    ensures (x + s) % 26 == x
  {
    Bits.DivModUnique(x + s, 26, s / 26, x);
  }

  /** Adding anything else leads elsewhere. */
  lemma ShiftAway(x: Letter, s: int)
    requires s % 26 != 0
    ensures (x + s) % 26 != x
  {
    if (x + s) % 26 == x {
      Bits.DivModUnique(s, 26, (x + s) / 26, 0);
    }
  }

  // ---------------------------------------------------------------------------
  // One signal through the machine
  // ---------------------------------------------------------------------------

  /** `_rotor`: the wire a signal leaves a rotor by, in the direction whose
      table is given. */
  function Rotor(x: Letter, table: Offsets, counter: Letter): Letter
  {
    (x + table((x + counter) % 26)) % 26
  }

  /** The arithmetic of a round trip through one rotor: entering at `x`,
      moving by `a` and then by `b` with `a + b` a multiple of 26 comes back
      to `x`, and the return trip reads the table where the outward trip
      left it. */
  lemma RoundTripWires(x: Letter, counter: Letter, a: int, b: int)
    requires (a + b) % 26 == 0
    ensures (((x + a) % 26) + counter) % 26 == (((x + counter) % 26) + a) % 26
    ensures (((x + a) % 26) + b) % 26 == x
  {
    ModAdd(x + a, counter);
    ModAdd(x + counter, a);
    ModAdd(x + a, b);
    ShiftBack(x, a + b);
  }

  /** Going through a rotor and straight back through it, in either order,
      returns the signal to the wire it entered by. */
  lemma {:induction false} RotorRoundTrip(f: Offsets, r: Offsets, counter: Letter, x: Letter)
    requires Undoes(f, r)
    ensures Rotor(Rotor(x, f, counter), r, counter) == x
  {
    var u := (x + counter) % 26;
    var a := f(u);
    var v := (u + a) % 26;
    assert UndoesAt(f, r, u);
    RoundTripWires(x, counter, a, r(v));
  }

  /** `_bounce_back`. */
  function BounceBack(x: Letter, reflector: Offsets): Letter
  {
    (x + reflector(x)) % 26
  }

  /** The reflector pairs wires: bouncing twice returns the signal, and no
      wire is paired with itself. */
  lemma {:induction false} BounceBackPairs(x: Letter, t: Offsets)
    requires ValidReflector(t)
    ensures BounceBack(BounceBack(x, t), t) == x
    ensures BounceBack(x, t) != x
  {
    var y := BounceBack(x, t);
    var a, b := t(x), t(y);
    assert UndoesAt(t, t, x);
    ModAdd(x + a, b);
    ShiftBack(x, a + b);
    ShiftAway(x, a);
  }

  /** Right, middle and left rotors, forwards. */
  function Forward(m: Machine, x: Letter): Letter
  {
    Rotor(Rotor(Rotor(x, m.right.wiring.forward, m.right.counter), m.middle.wiring.forward, m.middle.counter),
      m.left.wiring.forward, m.left.counter)
  }

  /** Left, middle and right rotors, backwards. */
  function Backward(m: Machine, y: Letter): Letter
  {
    Rotor(Rotor(Rotor(y, m.left.wiring.reverse, m.left.counter), m.middle.wiring.reverse, m.middle.counter),
      m.right.wiring.reverse, m.right.counter)
  }

  /** Everything between the two plugboard passes. */
  function Scramble(m: Machine, x: Letter): Letter
  {
    Backward(m, BounceBack(Forward(m, x), m.reflector))
  }

  predicate ValidRotors(m: Machine)
  {
    ValidWiring(m.left.wiring) && ValidWiring(m.middle.wiring) && ValidWiring(m.right.wiring)
      && ValidReflector(m.reflector)
  }

  /** The backward pass undoes the forward pass and the other way round. */
  lemma BackwardForward(m: Machine, x: Letter)
    requires ValidRotors(m)
    ensures Backward(m, Forward(m, x)) == x && Forward(m, Backward(m, x)) == x
  {
    var l, md, r := m.left, m.middle, m.right;
    var a := Rotor(x, r.wiring.forward, r.counter);
    var b := Rotor(a, md.wiring.forward, md.counter);
    RotorRoundTrip(l.wiring.forward, l.wiring.reverse, l.counter, b);
    RotorRoundTrip(md.wiring.forward, md.wiring.reverse, md.counter, a);
    RotorRoundTrip(r.wiring.forward, r.wiring.reverse, r.counter, x);
    var c := Rotor(x, l.wiring.reverse, l.counter);
    var d := Rotor(c, md.wiring.reverse, md.counter);
    RotorRoundTrip(r.wiring.reverse, r.wiring.forward, r.counter, d);
    RotorRoundTrip(md.wiring.reverse, md.wiring.forward, md.counter, c);
    RotorRoundTrip(l.wiring.reverse, l.wiring.forward, l.counter, x);
  }

  /** The rotors and reflector together pair the wires up: scrambling twice
      returns the signal, and no wire is scrambled to itself. */
  lemma {:induction false} ScramblePairs(m: Machine, x: Letter)
    requires ValidRotors(m)
    ensures Scramble(m, Scramble(m, x)) == x
    ensures Scramble(m, x) != x
  {
    var a := Forward(m, x);
    var b := BounceBack(a, m.reflector);
    BounceBackPairs(a, m.reflector);
    BackwardForward(m, b);
    BackwardForward(m, x);
    if Scramble(m, x) == x {
      assert false;
    }
  }

  // ---------------------------------------------------------------------------
  // Stepping
  // ---------------------------------------------------------------------------

  /** `_step`. The middle rotor at its pushpeg moves itself and the left
      rotor on (the double step); the right rotor at its pushpeg moves the
      middle rotor on, a second time if both hold; the right rotor always
      moves on. */
  function Step(m: Machine): (s: Machine)
    ensures s.reflector == m.reflector && s.plugboard == m.plugboard
    ensures s.left.wiring == m.left.wiring && s.middle.wiring == m.middle.wiring && s.right.wiring == m.right.wiring
  {
    var midPeg := m.middle.counter == m.middle.wiring.pushpeg;
    var rightPeg := m.right.counter == m.right.wiring.pushpeg;
    var left := if midPeg then (m.left.counter + 1) % 26 else m.left.counter;
    var middle := if midPeg then (m.middle.counter + 1) % 26 else m.middle.counter;
    var middle' := if rightPeg then (middle + 1) % 26 else middle;
    m.(left := m.left.(counter := left),
       middle := m.middle.(counter := middle'),
       right := m.right.(counter := (m.right.counter + 1) % 26))
  }

  /** How far each counter moves in one step: the right one always by one,
      the left one exactly when the middle one is at its pushpeg, and the
      middle one once for each of the two pushpegs it meets. */
  lemma StepCounters(m: Machine)
    ensures Step(m).right.counter == (m.right.counter + 1) % 26
    ensures Step(m).left.counter != m.left.counter <==> m.middle.counter == m.middle.wiring.pushpeg
    ensures Step(m).left.counter == (m.left.counter + (if m.middle.counter == m.middle.wiring.pushpeg then 1 else 0)) % 26
    ensures Step(m).middle.counter == (m.middle.counter + (if m.middle.counter == m.middle.wiring.pushpeg then 1 else 0)
                                                         + (if m.right.counter == m.right.wiring.pushpeg then 1 else 0)) % 26
  {
    var midPeg := m.middle.counter == m.middle.wiring.pushpeg;
    if midPeg {
      ModAdd(m.middle.counter + 1, 1);
    }
  }

  /** `n` key presses' worth of stepping. */
  function Steps(m: Machine, n: nat): (s: Machine)
    ensures s.reflector == m.reflector && s.plugboard == m.plugboard
    ensures s.left.wiring == m.left.wiring && s.middle.wiring == m.middle.wiring && s.right.wiring == m.right.wiring
  {
    if n == 0 then m else Step(Steps(m, n - 1))
  }

  /** The right counter after `n` steps is `n` places on. */
  lemma {:induction false} StepsRight(m: Machine, n: nat)
    ensures Steps(m, n).right.counter == (m.right.counter + n) % 26
  {
    if n > 0 {
      StepsRight(m, n - 1);
      StepCounters(Steps(m, n - 1));
      ModAdd(m.right.counter + n - 1, 1);
    }
  }

  /** The double step with rotors II and I in the middle and right slots: the
      windows go A D P, A D Q, A E R, B F S, the middle rotor moving on two
      presses running. */
  lemma DoubleStep(m: Machine)
    requires m.middle.wiring == RotorII && m.right.wiring == RotorI
    requires m.left.counter == 0 && m.middle.counter == 3 && m.right.counter == 15
    ensures Steps(m, 1).left.counter == 0 && Steps(m, 1).middle.counter == 3 && Steps(m, 1).right.counter == 16
    ensures Steps(m, 2).left.counter == 0 && Steps(m, 2).middle.counter == 4 && Steps(m, 2).right.counter == 17
    ensures Steps(m, 3).left.counter == 1 && Steps(m, 3).middle.counter == 5 && Steps(m, 3).right.counter == 18
  {
    assert Steps(m, 1) == Step(m);
    assert Steps(m, 2) == Step(Step(m));
    assert Steps(m, 3) == Step(Step(Step(m)));
  }

  // ---------------------------------------------------------------------------
  // The plugboard
  // ---------------------------------------------------------------------------

  /** A plugboard that pairs the letter wires: every wire holds a letter, and
      the wire it names names it back. */
  predicate ValidPlugboard(pb: Board)
  {
    forall i :: 0 <= i < 26 ==> pb[i].Ord? && pb[pb[i].n] == Ord(i)
  }

  /** No plugs: every wire leads to itself. */
  function Unplugged(): (b: Board)
    ensures forall i :: 0 <= i < 26 ==> b[i] == Ord(i)
  {
    seq(26, i requires 0 <= i < 26 => Ord(i))
  }

  /** One plug, from `k1` to `k2`: both dictionary entries are written, the
      second last. An end that is not a letter adds an entry no letter wire
      reads, so only the other entry shows. */
  function Connect(pb: Board, k1: Token, k2: Token): (r: Board)
    ensures k2.Ord? ==> r[k2.n] == k1
    ensures k1.Ord? && (k2.Other? || k2.n != k1.n) ==> r[k1.n] == k2
    ensures forall i :: 0 <= i < 26 && Ord(i) != k1 && Ord(i) != k2 ==> r[i] == pb[i]
  {
    var pb1 := if k1.Ord? then pb[k1.n := k2] else pb;
    if k2.Ord? then pb1[k2.n := k1] else pb1
  }

  /** The plugboard `reset` builds: each plug connects its first and last
      characters, in order; an empty plug has no first character. */
  function Plugboard(plugs: seq<string>): (r: Result<Board>)
    ensures r.Ok? <==> forall k :: 0 <= k < |plugs| ==> |plugs[k]| > 0
    ensures r.Err? ==> r.error == IndexError
  {
    if |plugs| == 0 then Ok(Unplugged())
    else
      var front := plugs[..|plugs| - 1];
      assert forall k :: 0 <= k < |front| ==> front[k] == plugs[k];
      var pb :- Plugboard(front);
      var plug := plugs[|plugs| - 1];
      if |plug| == 0 then Err(IndexError)
      else Ok(Connect(pb, ToToken(plug[0]), ToToken(plug[|plug| - 1])))
  }

  /** Plugs with a letter at each end. */
  predicate LetterPlugs(plugs: seq<string>)
  {
    forall k :: 0 <= k < |plugs| ==> |plugs[k]| > 0 && IsLetter(plugs[k][0]) && IsLetter(plugs[k][|plugs[k]| - 1])
  }

  /** The letter at the first end of a plug. */
  function FirstEnd(plug: string): Letter
    requires |plug| > 0 && IsLetter(plug[0])
  {
    Ordinal(plug[0])
  }

  /** The letter at the last end of a plug. */
  function LastEnd(plug: string): Letter
    requires |plug| > 0 && IsLetter(plug[|plug| - 1])
  {
    Ordinal(plug[|plug| - 1])
  }

  /** The two letters a plug joins. */
  function Ends(plug: string): set<int>
    requires |plug| > 0 && IsLetter(plug[0]) && IsLetter(plug[|plug| - 1])
  {
    {FirstEnd(plug), LastEnd(plug)}
  }

  /** No letter in two plugs. */
  predicate DisjointPlugs(plugs: seq<string>)
    requires LetterPlugs(plugs)
  {
    forall k, l :: 0 <= k < l < |plugs| ==> Ends(plugs[k]) !! Ends(plugs[l])
  }

  /** A letter some plug holds. */
  predicate Plugged(plugs: seq<string>, i: int)
    requires LetterPlugs(plugs)
  {
    exists k :: 0 <= k < |plugs| && i in Ends(plugs[k])
  }

  /** One more plug, on two unplugged letters, keeps the board a pairing. */
  lemma ConnectPairs(pb: Board, a: Letter, b: Letter)
    requires ValidPlugboard(pb) && pb[a] == Ord(a) && pb[b] == Ord(b)
    ensures ValidPlugboard(Connect(pb, Ord(a), Ord(b)))
  {
    var r := Connect(pb, Ord(a), Ord(b));
    forall i | 0 <= i < 26
      ensures r[i].Ord? && r[r[i].n] == Ord(i)
    {
      if i != a && i != b {
        var j := pb[i].n;
        assert j != a && j != b;
      }
    }
  }

  /** The plugs before the last one keep the conditions on the plugs. */
  lemma FrontPlugs(plugs: seq<string>)
    requires |plugs| > 0 && LetterPlugs(plugs) && DisjointPlugs(plugs)
    ensures LetterPlugs(plugs[..|plugs| - 1]) && DisjointPlugs(plugs[..|plugs| - 1])
  {
    var front := plugs[..|plugs| - 1];
    assert forall k :: 0 <= k < |front| ==> front[k] == plugs[k];
  }

  /** The earlier plugs hold neither end of the last plug. */
  lemma FreshEnds(plugs: seq<string>)
    requires |plugs| > 0 && LetterPlugs(plugs) && DisjointPlugs(plugs)
    ensures var front := plugs[..|plugs| - 1];
      LetterPlugs(front)
      && !Plugged(front, FirstEnd(plugs[|plugs| - 1])) && !Plugged(front, LastEnd(plugs[|plugs| - 1]))
  {
    var n := |plugs| - 1;
    var front := plugs[..n];
    FrontPlugs(plugs);
    var a, b := FirstEnd(plugs[n]), LastEnd(plugs[n]);
    forall k | 0 <= k < n
      ensures a !in Ends(front[k]) && b !in Ends(front[k])
    {
      assert front[k] == plugs[k];
      assert Ends(plugs[k]) !! Ends(plugs[n]);
    }
  }

  /** The board of a non-empty list of letter plugs is the board of all but
      the last plug with the last one connected. */
  lemma PlugboardLast(plugs: seq<string>)
    requires |plugs| > 0 && LetterPlugs(plugs)
    ensures var front := plugs[..|plugs| - 1];
      var plug := plugs[|plugs| - 1];
      Plugboard(front).Ok? && Plugboard(plugs).Ok?
      && Plugboard(plugs).value == Connect(Plugboard(front).value, Ord(FirstEnd(plug)), Ord(LastEnd(plug)))
  {
    var front := plugs[..|plugs| - 1];
    assert forall k :: 0 <= k < |front| ==> front[k] == plugs[k];
  }

  /** Connecting the last plug keeps every earlier plug's first end wired to
      its last end, when no letter is in two plugs. */
  lemma EarlierPlugsKept(plugs: seq<string>, pb: Board)
    requires |plugs| > 0 && LetterPlugs(plugs) && DisjointPlugs(plugs)
    requires var front := plugs[..|plugs| - 1];
      LetterPlugs(front) && forall k :: 0 <= k < |front| ==> pb[FirstEnd(front[k])] == Ord(LastEnd(front[k]))
    ensures var plug := plugs[|plugs| - 1];
      var r := Connect(pb, Ord(FirstEnd(plug)), Ord(LastEnd(plug)));
      forall k :: 0 <= k < |plugs| ==> r[FirstEnd(plugs[k])] == Ord(LastEnd(plugs[k]))
  {
    var n := |plugs| - 1;
    forall k | 0 <= k < n
      ensures pb[FirstEnd(plugs[k])] == Ord(LastEnd(plugs[k])) && FirstEnd(plugs[k]) !in Ends(plugs[n])
    {
      assert plugs[..n][k] == plugs[k];
      assert Ends(plugs[k]) !! Ends(plugs[n]);
    }
  }

  /** Connecting the last plug leaves alone every letter no plug holds. */
  lemma UnpluggedKept(plugs: seq<string>, pb: Board)
    requires |plugs| > 0 && LetterPlugs(plugs)
    requires forall i :: 0 <= i < 26 && !Plugged(plugs[..|plugs| - 1], i) ==> pb[i] == Ord(i)
    ensures var plug := plugs[|plugs| - 1];
      var r := Connect(pb, Ord(FirstEnd(plug)), Ord(LastEnd(plug)));
      forall i :: 0 <= i < 26 && !Plugged(plugs, i) ==> r[i] == Ord(i)
  {
    var n := |plugs| - 1;
    var front := plugs[..n];
    forall i, k | 0 <= i < 26 && !Plugged(plugs, i) && 0 <= k < n
      ensures i !in Ends(front[k])
    {
      assert front[k] == plugs[k];
    }
  }

  /** With letter plugs, a letter no plug holds stays wired to itself. */
  lemma {:induction false} PlugboardUnplugged(plugs: seq<string>)
    requires LetterPlugs(plugs)
    ensures Plugboard(plugs).Ok?
    ensures forall i :: 0 <= i < 26 && !Plugged(plugs, i) ==> Plugboard(plugs).value[i] == Ord(i)
  {
    if |plugs| > 0 {
      var front := plugs[..|plugs| - 1];
      assert LetterPlugs(front) by {
        assert forall k :: 0 <= k < |front| ==> front[k] == plugs[k];
      }
      PlugboardUnplugged(front);
      PlugboardLast(plugs);
      UnpluggedKept(plugs, Plugboard(front).value);
    }
  }

  /** With letter plugs, no letter in two of them, the first end of each plug
      is wired to its last end. */
  lemma {:induction false} PlugboardEnds(plugs: seq<string>)
    requires LetterPlugs(plugs) && DisjointPlugs(plugs)
    ensures Plugboard(plugs).Ok?
    ensures forall k :: 0 <= k < |plugs| ==> Plugboard(plugs).value[FirstEnd(plugs[k])] == Ord(LastEnd(plugs[k]))
  {
    if |plugs| > 0 {
      var front := plugs[..|plugs| - 1];
      FrontPlugs(plugs);
      PlugboardEnds(front);
      PlugboardLast(plugs);
      EarlierPlugsKept(plugs, Plugboard(front).value);
    }
  }

  /** Connecting the last plug on two letters the earlier plugs left alone
      keeps the board a pairing. */
  lemma ValidLast(plugs: seq<string>, pb: Board)
    requires |plugs| > 0 && LetterPlugs(plugs) && DisjointPlugs(plugs)
    requires Plugboard(plugs[..|plugs| - 1]) == Ok(pb) && ValidPlugboard(pb)
    requires LetterPlugs(plugs[..|plugs| - 1])
    requires forall i :: 0 <= i < 26 && !Plugged(plugs[..|plugs| - 1], i) ==> pb[i] == Ord(i)
    ensures Plugboard(plugs).Ok? && ValidPlugboard(Plugboard(plugs).value)
  {
    var plug := plugs[|plugs| - 1];
    FreshEnds(plugs);
    PlugboardLast(plugs);
    ConnectPairs(pb, FirstEnd(plug), LastEnd(plug));
  }

  /** With letter plugs, no letter in two of them, the plugboard pairs the
      letter wires. */
  lemma {:induction false} PlugboardValid(plugs: seq<string>)
    requires LetterPlugs(plugs) && DisjointPlugs(plugs)
    ensures Plugboard(plugs).Ok?
    ensures ValidPlugboard(Plugboard(plugs).value)
  {
    if |plugs| > 0 {
      var n := |plugs| - 1;
      var front := plugs[..n];
      FrontPlugs(plugs);
      PlugboardValid(front);
      PlugboardUnplugged(front);
      ValidLast(plugs, Plugboard(front).value);
    }
  }

  /** With letter plugs, no letter in two of them, the plugboard pairs the
      ends of each plug and leaves every other letter alone. */
  lemma PlugboardPairs(plugs: seq<string>)
    requires LetterPlugs(plugs) && DisjointPlugs(plugs)
    ensures Plugboard(plugs).Ok?
    ensures ValidPlugboard(Plugboard(plugs).value)
    ensures forall k :: 0 <= k < |plugs| ==> Plugboard(plugs).value[FirstEnd(plugs[k])] == Ord(LastEnd(plugs[k]))
    ensures forall i :: 0 <= i < 26 && !Plugged(plugs, i) ==> Plugboard(plugs).value[i] == Ord(i)
  {
    PlugboardValid(plugs);
    PlugboardEnds(plugs);
    PlugboardUnplugged(plugs);
  }

  // ---------------------------------------------------------------------------
  // Key presses
  // ---------------------------------------------------------------------------

  /** A machine whose every part pairs its wires up. */
  predicate ValidMachine(m: Machine)
  {
    ValidRotors(m) && ValidPlugboard(m.plugboard)
  }

  /** A key the machine enciphers: one character, a letter. */
  predicate IsKey(key: string)
  {
    |key| == 1 && IsLetter(key[0])
  }

  /** `keypress`. Anything but a single letter comes back as it went in and
      the rotors stay put. A letter steps the rotors and then goes through the
      plugboard, the rotors, the reflector, the rotors backwards and the
      plugboard; a non-letter left on a letter wire by a plug cannot be added
      to a counter (TypeError), and one reached on the way out is lit as it
      is. */
  function Keypress(m: Machine, key: string): (r: Result<Press>)
    ensures !IsKey(key) ==> r == Ok(Press(m, key))
    ensures IsKey(key) && r.Ok? ==> r.value.machine == Step(m) && |r.value.lamp| == 1
    ensures IsKey(key) && ValidPlugboard(m.plugboard) ==> r.Ok? && IsUpper(r.value.lamp[0])
  {
    if !IsKey(key) then Ok(Press(m, key))
    else
      var s := Step(m);
      var ch1 := s.plugboard[Ordinal(key[0])];
      if ch1.Other? then Err(TypeError("unsupported operand types for +"))
      else
        var ch8 := Scramble(s, ch1.n);
        Ok(Press(s, [FromToken(s.plugboard[ch8])]))
  }

  /** Stepping keeps every part's wiring. */
  lemma StepValid(m: Machine)
    requires ValidMachine(m)
    ensures ValidMachine(Step(m))
  {
  }

  /** The letter a valid machine lights for letter `c`, as a wire. */
  function LampFor(m: Machine, c: char): Letter
    requires ValidMachine(m) && IsLetter(c)
  {
    var s := Step(m);
    s.plugboard[Scramble(s, s.plugboard[Ordinal(c)].n)].n
  }

  /** Two machines in the same state, the second fed the letter the first
      lit, step alike and light the first key, upper case; and no letter
      lights itself. */
  lemma {:induction false} Reciprocal(m: Machine, c: char)
    requires ValidMachine(m) && IsLetter(c)
    ensures Keypress(m, [c]) == Ok(Press(Step(m), [LetterOf(LampFor(m, c))]))
    ensures Keypress(m, [LetterOf(LampFor(m, c))]) == Ok(Press(Step(m), [ToUpper(c)]))
    ensures LetterOf(LampFor(m, c)) != ToUpper(c)
  {
    var s := Step(m);
    var pb := s.plugboard;
    var x := Ordinal(c);
    var p := pb[x].n;
    var z := Scramble(s, p);
    var q := pb[z].n;
    var e := LetterOf(q);
    OrdinalOfLetter(q);
    assert pb[q] == Ord(z);
    ScramblePairs(s, p);
    assert pb[p] == Ord(x);
    assert Keypress(m, [e]).value.lamp == [LetterOf(x)];
    if e == ToUpper(c) {
      OrdinalOfLetter(x);
      assert false;
    }
  }

  /** The `__main__` loop: each character of a text pressed in turn, the
      lamps collected. */
  function Encipher(m: Machine, text: string): (r: Result<Press>)
    ensures r.Ok? ==> |r.value.lamp| == |text|
    ensures ValidPlugboard(m.plugboard) ==> r.Ok?
    ensures r.Ok? ==> forall i :: 0 <= i < |text| && !IsLetter(text[i]) ==> r.value.lamp[i] == text[i]
    ensures r.Ok? && ValidPlugboard(m.plugboard) ==> forall i :: 0 <= i < |text| && IsLetter(text[i]) ==> IsUpper(r.value.lamp[i])
    decreases |text|
  {
    if |text| == 0 then Ok(Press(m, ""))
    else
      var first :- Keypress(m, [text[0]]);
      var rest :- Encipher(first.machine, text[1..]);
      Ok(Press(rest.machine, first.lamp + rest.lamp))
  }

  /** Enciphering splits after the first character. */
  lemma EncipherFirst(m: Machine, c: char, text: string)
    requires Keypress(m, [c]).Ok?
    requires Encipher(Keypress(m, [c]).value.machine, text).Ok?
    ensures var first := Keypress(m, [c]).value;
      var rest := Encipher(first.machine, text).value;
      Encipher(m, [c] + text) == Ok(Press(rest.machine, first.lamp + rest.lamp))
  {
    assert ([c] + text)[0] == c && ([c] + text)[1..] == text;
  }

  /** One key press of any character, letter or not, is undone by pressing
      the lamp it lit on a machine in the same state, and the machine stays
      valid. */
  lemma KeypressReciprocal(m: Machine, c: char)
    requires ValidMachine(m)
    ensures Keypress(m, [c]).Ok?
    ensures var p := Keypress(m, [c]).value;
      |p.lamp| == 1 && ValidMachine(p.machine) && Keypress(m, p.lamp) == Ok(Press(p.machine, [ToUpper(c)]))
  {
    if IsLetter(c) {
      Reciprocal(m, c);
      StepValid(m);
    }
  }

  /** Reciprocity over a whole text: a second machine in the same starting
      state, fed the first's output, ends in the same state and returns the
      text upper-cased. This is what the known-plaintext search relies on. */
  lemma {:induction false} EncipherReciprocal(m: Machine, text: string)
    requires ValidMachine(m)
    ensures Encipher(m, text).Ok?
    ensures Encipher(m, Encipher(m, text).value.lamp) == Ok(Press(Encipher(m, text).value.machine, UpperString(text)))
    decreases |text|
  {
    if |text| > 0 {
      var c := text[0];
      KeypressReciprocal(m, c);
      var first := Keypress(m, [c]).value;
      EncipherReciprocal(first.machine, text[1..]);
      var rest := Encipher(first.machine, text[1..]).value;
      assert Encipher(m, text) == Ok(Press(rest.machine, first.lamp + rest.lamp));
      EncipherFirst(m, first.lamp[0], rest.lamp);
      assert [first.lamp[0]] == first.lamp;
      UpperStringCons(text);
    }
  }

  // ---------------------------------------------------------------------------
  // Setting the machine up
  // ---------------------------------------------------------------------------

  /** A rotor of `_mechanical.rotor`, by its name in any case. */
  function RotorByName(name: string): (r: Result<Wiring>)
    ensures r.Ok? <==> UpperString(name) in {"I", "II", "III", "IV", "V"}
    ensures r.Err? ==> r.error == KeyError
    ensures r.Ok? ==> ValidWiring(r.value)
    ensures UpperString(name) == "I" ==> r == Ok(RotorI)
    ensures UpperString(name) == "II" ==> r == Ok(RotorII)
    ensures UpperString(name) == "III" ==> r == Ok(RotorIII)
    ensures UpperString(name) == "IV" ==> r == Ok(RotorIV)
    ensures UpperString(name) == "V" ==> r == Ok(RotorV)
  {
    var u := UpperString(name);
    if u == "I" then RotorIValid(); Ok(RotorI)
    else if u == "II" then RotorIIValid(); Ok(RotorII)
    else if u == "III" then RotorIIIValid(); Ok(RotorIII)
    else if u == "IV" then RotorIVValid(); Ok(RotorIV)
    else if u == "V" then RotorVValid(); Ok(RotorV)
    else Err(KeyError)
  }

  /** A reflector of `_mechanical.reflector`, by its name in any case. */
  function ReflectorByName(name: string): (r: Result<Offsets>)
    ensures r.Ok? <==> UpperString(name) in {"B", "C"}
    ensures r.Err? ==> r.error == KeyError
    ensures r.Ok? ==> ValidReflector(r.value)
    ensures UpperString(name) == "B" ==> r == Ok(ReflectorB)
    ensures UpperString(name) == "C" ==> r == Ok(ReflectorC)
  {
    var u := UpperString(name);
    if u == "B" then ReflectorBValid(); Ok(ReflectorB)
    else if u == "C" then ReflectorCValid(); Ok(ReflectorC)
    else Err(KeyError)
  }

  /** `(_letter_to_ordinal(start) - _letter_to_ordinal(ring)) % 26`. Anything
      but a single letter is handed back unconverted, and subtracting it
      fails with TypeError. */
  function StartCounter(start: string, ring: string): (r: Result<Letter>)
    ensures r.Ok? <==> IsKey(start) && IsKey(ring)
    ensures r.Err? ==> r.error.TypeError?
    ensures r.Ok? ==> (r.value + Ordinal(ring[0])) % 26 == Ordinal(start[0])
  {
    if IsKey(start) && IsKey(ring) then
      var c := (Ordinal(start[0]) - Ordinal(ring[0])) % 26;
      ModAdd(Ordinal(start[0]) - Ordinal(ring[0]), Ordinal(ring[0]));
      Ok(c)
    else Err(TypeError("unsupported operand types for -"))
  }

  /** `reset`: look the parts up, set the counters, build the plugboard, in
      that order, the first failure ending it. */
  function Reset(reflector: string, leftRotor: string, middleRotor: string, rightRotor: string,
                 leftStart: string, middleStart: string, rightStart: string,
                 leftRing: string, middleRing: string, rightRing: string,
                 plugs: seq<string>): (r: Result<Machine>)
    ensures r.Ok? ==> ValidRotors(r.value)
    ensures r.Ok? ==> ReflectorByName(reflector) == Ok(r.value.reflector)
    ensures r.Ok? ==> RotorByName(leftRotor) == Ok(r.value.left.wiring)
                      && RotorByName(middleRotor) == Ok(r.value.middle.wiring)
                      && RotorByName(rightRotor) == Ok(r.value.right.wiring)
    ensures r.Ok? ==> IsKey(leftStart) && IsKey(leftRing) && IsKey(middleStart) && IsKey(middleRing)
                      && IsKey(rightStart) && IsKey(rightRing)
    ensures r.Ok? ==> (r.value.left.counter + Ordinal(leftRing[0])) % 26 == Ordinal(leftStart[0])
    ensures r.Ok? ==> (r.value.middle.counter + Ordinal(middleRing[0])) % 26 == Ordinal(middleStart[0])
    ensures r.Ok? ==> (r.value.right.counter + Ordinal(rightRing[0])) % 26 == Ordinal(rightStart[0])
    ensures r.Ok? ==> Plugboard(plugs) == Ok(r.value.plugboard)
  {
    var refl :- ReflectorByName(reflector);
    var left :- RotorByName(leftRotor);
    var middle :- RotorByName(middleRotor);
    var right :- RotorByName(rightRotor);
    var lc :- StartCounter(leftStart, leftRing);
    var mc :- StartCounter(middleStart, middleRing);
    var rc :- StartCounter(rightStart, rightRing);
    var pb :- Plugboard(plugs);
    Ok(Machine(refl, Wheel(left, lc), Wheel(middle, mc), Wheel(right, rc), pb))
  }

  /** Which call of `reset` fails and how: an unknown part name with
      KeyError, then a start or ring that is not a single letter with
      TypeError, then an empty plug with IndexError. */
  lemma ResetErrors(reflector: string, leftRotor: string, middleRotor: string, rightRotor: string,
                    leftStart: string, middleStart: string, rightStart: string,
                    leftRing: string, middleRing: string, rightRing: string,
                    plugs: seq<string>)
    ensures var r := Reset(reflector, leftRotor, middleRotor, rightRotor, leftStart, middleStart, rightStart,
                           leftRing, middleRing, rightRing, plugs);
      var names := UpperString(reflector) in {"B", "C"} && UpperString(leftRotor) in {"I", "II", "III", "IV", "V"}
        && UpperString(middleRotor) in {"I", "II", "III", "IV", "V"} && UpperString(rightRotor) in {"I", "II", "III", "IV", "V"};
      var settings := IsKey(leftStart) && IsKey(leftRing) && IsKey(middleStart) && IsKey(middleRing)
        && IsKey(rightStart) && IsKey(rightRing);
      var plugged := forall k :: 0 <= k < |plugs| ==> |plugs[k]| > 0;
      (!names ==> r == Err(KeyError))
      && (names && !settings ==> r.Err? && r.error.TypeError?)
      && (names && settings && !plugged ==> r == Err(IndexError))
      && (r.Ok? <==> names && settings && plugged)
  {
  }

  /** With letter plugs, no letter in two of them, `reset` gives a machine
      that enciphers reciprocally. */
  lemma ResetValid(reflector: string, leftRotor: string, middleRotor: string, rightRotor: string,
                   leftStart: string, middleStart: string, rightStart: string,
                   leftRing: string, middleRing: string, rightRing: string,
                   plugs: seq<string>)
    requires LetterPlugs(plugs) && DisjointPlugs(plugs)
    ensures var r := Reset(reflector, leftRotor, middleRotor, rightRotor, leftStart, middleStart, rightStart,
                           leftRing, middleRing, rightRing, plugs);
      r.Ok? ==> ValidMachine(r.value)
  {
    PlugboardPairs(plugs);
  }

  /** Plugs that share a letter break the pairing: "AB" then "BC" leaves A
      wired to B but B wired to C. */
  lemma OverlappingPlugs(plugs: seq<string>)
    requires plugs == ["AB", "BC"]
    ensures Plugboard(plugs).Ok?
    ensures Plugboard(plugs).value[0] == Ord(1) && Plugboard(plugs).value[1] == Ord(2)
    ensures !ValidPlugboard(Plugboard(plugs).value)
  {
    var front := plugs[..1];
    assert front == ["AB"];
    assert front[..0] == [];
    assert ToToken('A') == Ord(0) && ToToken('B') == Ord(1) && ToToken('C') == Ord(2);
    var pb1 := Connect(Unplugged(), Ord(0), Ord(1));
    assert Plugboard(front) == Ok(pb1);
    var pb := Connect(pb1, Ord(1), Ord(2));
    assert Plugboard(plugs) == Ok(pb);
    assert pb[0] == Ord(1) && pb[1] == Ord(2);
  }

  // ---------------------------------------------------------------------------
  // The `__main__` start letters
  // ---------------------------------------------------------------------------

  /** The codes the `__main__` block draws its start letters from:
      `random.randint(ord('A'), ord('Z') + 1)`, which includes both ends. */
  predicate DrawnAsWritten(n: int)
  {
    'A' as int <= n <= 'Z' as int + 1
  }

  /** The codes of the letters A to Z, the range evidently meant. */
  predicate DrawnIntended(n: int)
  {
    'A' as int <= n <= 'Z' as int
  }

  /** The top code of the drawn range is `[`, not a letter: the machine set
      up with it as a start fails with TypeError. */
  lemma MainStartCanFail(n: int)
    requires n == 'Z' as int + 1
    ensures DrawnAsWritten(n) && !DrawnIntended(n)
    ensures StartCounter([n as char], "A").Err? && StartCounter([n as char], "A").error.TypeError?
    ensures Reset("B", "III", "II", "I", [n as char], "A", "A", "A", "A", "A", []).Err?
  {
  }

  /** Every code in the intended range is a letter, and the machine set up
      with it starts that many places on. */
  lemma MainStartIntended(n: int)
    requires DrawnIntended(n)
    ensures DrawnAsWritten(n)
    ensures StartCounter([n as char], "A") == Ok(n - 'A' as int)
    ensures Reset("B", "III", "II", "I", [n as char], "A", "A", "A", "A", "A", []).Ok?
  {
  }

}
