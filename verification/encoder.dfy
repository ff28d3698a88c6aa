/** The Encoder: three wheels and a reflector, the odometer stepping cascade and
    the letter-by-letter cipher. A value model (Machine, Step, Encipher) states
    what the Encoder class computes. */
module Encoding {
  import opened Tables
  import opened Rotors

  /** One slot of a rotor selection, 1-based as written in `R:P:N`: the stored
      rotor used, its starting position and its notch position. */
  datatype Slot = Slot(rotor: int, position: int, notch: int) {
    predicate InRange() {
      1 <= rotor <= RotorCount && 1 <= position <= N && 1 <= notch <= N
    }
  }

  predicate AllValid(ws: seq<Wheel>) {
    forall i :: 0 <= i < |ws| ==> ws[i].Valid()
  }

  /** The state of an Encoder: its wheels, in the order a signal first meets
      them, and the reflector table. */
  datatype Machine = Machine(wheels: seq<Wheel>, reflector: seq<int>) {
    predicate Valid() {
      |wheels| == 3 && AllValid(wheels) && IsReflector(reflector)
    }
  }

  /** Every wheel's offset and notch is a contact: all the stepping needs. */
  predicate Positioned(m: Machine) {
    |m.wheels| == 3 && forall i :: 0 <= i < 3 ==> IsSymbol(m.wheels[i].cIndex) && IsSymbol(m.wheels[i].iIndex)
  }

  /** `m2` differs from `m1` at most in the offsets of its wheels. */
  predicate SameSetup(m1: Machine, m2: Machine) {
    && |m1.wheels| == |m2.wheels|
    && m1.reflector == m2.reflector
    && forall i :: 0 <= i < |m1.wheels| ==> m2.wheels[i] == m1.wheels[i].(cIndex := m2.wheels[i].cIndex)
  }

  /** The wheel a slot selects from the stored rotors, with the 1-based
      position and notch turned into 0-based offsets. */
  function WheelFor(slot: Slot, rotors: seq<Wiring>): (w: Wheel)
    requires slot.InRange() && |rotors| == RotorCount
    ensures rotors[slot.rotor - 1].Valid() ==> w.Valid()
    ensures w.fCons == rotors[slot.rotor - 1].fCons && w.bCons == rotors[slot.rotor - 1].bCons
    ensures w.cIndex == slot.position - 1 && w.iIndex == slot.notch - 1
  {
    Wheel(rotors[slot.rotor - 1].fCons, rotors[slot.rotor - 1].bCons, slot.position - 1, slot.notch - 1)
  }

  /** The machine the Encoder constructor builds from a selection and a
      validated definition. */
  function Configure(config: seq<Slot>, rotors: seq<Wiring>, reflector: seq<int>): (m: Machine)
    requires |config| == 3 && forall i :: 0 <= i < 3 ==> config[i].InRange()
    requires |rotors| == RotorCount
    ensures |m.wheels| == 3 && m.reflector == reflector
    ensures forall i :: 0 <= i < 3 ==> m.wheels[i] == WheelFor(config[i], rotors)
    ensures (forall k :: 0 <= k < RotorCount ==> rotors[k].Valid()) && IsReflector(reflector) ==> m.Valid()
  {
    Machine([WheelFor(config[0], rotors), WheelFor(config[1], rotors), WheelFor(config[2], rotors)], reflector)
  }

  /** The odometer: wheel 0 always advances, wheel 1 only on wheel 0's carry,
      wheel 2 only when both carried. Nothing else changes. */
  function Step(m: Machine): (r: Machine)
    requires |m.wheels| == 3
    ensures |r.wheels| == 3 && r.reflector == m.reflector
    ensures r.wheels[0] == m.wheels[0].Rotate().0
    ensures r.wheels[1] == if m.wheels[0].cIndex == m.wheels[0].iIndex then m.wheels[1].Rotate().0 else m.wheels[1]
    ensures r.wheels[2] ==
      if m.wheels[0].cIndex == m.wheels[0].iIndex && m.wheels[1].cIndex == m.wheels[1].iIndex
      then m.wheels[2].Rotate().0 else m.wheels[2]
  {
    var (w0, carry0) := m.wheels[0].Rotate();
    if !carry0 then m.(wheels := [w0, m.wheels[1], m.wheels[2]])
    else
      var (w1, carry1) := m.wheels[1].Rotate();
      if !carry1 then m.(wheels := [w0, w1, m.wheels[2]])
      else m.(wheels := [w0, w1, m.wheels[2].Rotate().0])
  }

  /** Stepping changes nothing but offsets. */
  lemma StepKeepsSetup(m: Machine)
    requires |m.wheels| == 3
    ensures SameSetup(m, Step(m))
  {
  }

  /** Stepping keeps a valid machine valid. */
  lemma StepValid(m: Machine)
    requires m.Valid()
    ensures Step(m).Valid()
  {
    RotateKeepsValid(m.wheels[0]);
    RotateKeepsValid(m.wheels[1]);
    RotateKeepsValid(m.wheels[2]);
  }

  /** The machine after `n` letters. */
  function Steps(m: Machine, n: nat): (r: Machine)
    requires |m.wheels| == 3
    ensures |r.wheels| == 3
  {
    if n == 0 then m else Step(Steps(m, n - 1))
  }

  /** However many letters are enciphered, only the offsets change. */
  lemma {:induction false} StepsKeepSetup(m: Machine, n: nat)
    requires |m.wheels| == 3
    ensures SameSetup(m, Steps(m, n))
  {
    if n > 0 {
      StepsKeepSetup(m, n - 1);
      StepKeepsSetup(Steps(m, n - 1));
    }
  }

  /** Stepping keeps a valid machine valid. */
  lemma {:induction false} StepsValid(m: Machine, n: nat)
    requires m.Valid()
    ensures Steps(m, n).Valid()
  {
    if n > 0 {
      StepsValid(m, n - 1);
      StepValid(Steps(m, n - 1));
    }
  }

  /** The signal through the wheels in order, forward substitution in each. */
  function Forward(ws: seq<Wheel>, c: int): (r: int)
    requires AllValid(ws) && IsSymbol(c)
    ensures IsSymbol(r)
    decreases |ws|
  {
    if ws == [] then c else ws[|ws| - 1].GetFCon(Forward(ws[..|ws| - 1], c))
  }

  /** The signal back through the wheels, last wheel first, backward
      substitution in each. */
  function Backward(ws: seq<Wheel>, c: int): (r: int)
    requires AllValid(ws) && IsSymbol(c)
    ensures IsSymbol(r)
    decreases |ws|
  {
    if ws == [] then c else ws[0].GetBCon(Backward(ws[1..], c))
  }

  /** Reflector<26>::reflect. */
  function Reflect(reflector: seq<int>, c: int): (r: int)
    requires IsTable(reflector) && IsSymbol(c)
    ensures IsSymbol(r)
    ensures IsReflector(reflector) ==> r != c && reflector[r] == c
  {
    reflector[c]
  }

  /** The substitution one letter undergoes in machine state `m`. */
  function MapLetter(m: Machine, x: int): (r: int)
    requires m.Valid() && IsSymbol(x)
    ensures IsSymbol(r)
  {
    Backward(m.wheels, Reflect(m.reflector, Forward(m.wheels, x)))
  }

  lemma {:induction false} BackwardSnoc(ws: seq<Wheel>, w: Wheel, y: int)
    requires AllValid(ws) && w.Valid() && IsSymbol(y)
    ensures AllValid(ws + [w])
    ensures Backward(ws + [w], y) == Backward(ws, w.GetBCon(y))
    decreases |ws|
  {
    if ws != [] {
      assert (ws + [w])[1..] == ws[1..] + [w];
      BackwardSnoc(ws[1..], w, y);
    }
  }

  /** Coming back through the wheels undoes going forward through them. */
  lemma {:induction false} BackwardUndoesForward(ws: seq<Wheel>, x: int)
    requires AllValid(ws) && IsSymbol(x)
    ensures Backward(ws, Forward(ws, x)) == x
    decreases |ws|
  {
    if ws != [] {
      var p, w := ws[..|ws| - 1], ws[|ws| - 1];
      assert ws == p + [w];
      var y := Forward(p, x);
      BackwardSnoc(p, w, w.GetFCon(y));
      BConUndoesFCon(w, y);
      BackwardUndoesForward(p, x);
    }
  }

  /** Going forward through the wheels undoes coming back through them. */
  lemma {:induction false} ForwardUndoesBackward(ws: seq<Wheel>, y: int)
    requires AllValid(ws) && IsSymbol(y)
    ensures Forward(ws, Backward(ws, y)) == y
    decreases |ws|
  {
    if ws != [] {
      var p, w := ws[..|ws| - 1], ws[|ws| - 1];
      assert ws == p + [w];
      BackwardSnoc(p, w, y);
      ForwardUndoesBackward(p, w.GetBCon(y));
      FConUndoesBCon(w, y);
    }
  }

  /** In every state the letter substitution is its own inverse and has no
      fixed point: no letter ever enciphers to itself. */
  lemma MapLetterIsReciprocal(m: Machine, x: int)
    requires m.Valid() && IsSymbol(x)
    ensures MapLetter(m, MapLetter(m, x)) == x
    ensures MapLetter(m, x) != x
  {
    var y := Forward(m.wheels, x);
    var z := Reflect(m.reflector, y);
    var e := Backward(m.wheels, z);
    ForwardUndoesBackward(m.wheels, z);
    BackwardUndoesForward(m.wheels, x);
    assert Forward(m.wheels, e) == z;
    assert Reflect(m.reflector, z) == y;
  }

  predicate IsLower(c: char) {
    'a' <= c <= 'z'
  }

  /** `tolower` in the "C" locale. */
  function ToLower(c: char): (r: char)
    ensures IsLower(r) <==> ('a' <= c <= 'z' || 'A' <= c <= 'Z')
    ensures !IsLower(r) ==> r == c
  {
    if 'A' <= c <= 'Z' then (c as int + 32) as char else c
  }

  predicate IsLetter(c: char) {
    IsLower(ToLower(c))
  }

  /** One character of `Encoder::encode`: a letter goes through the wheels and
      the reflector and comes out lowercase, then the machine steps; any other
      character passes through and the machine does not move. */
  function EncipherChar(m: Machine, c: char): (r: (char, Machine))
    requires m.Valid()
    ensures r.1.Valid()
    ensures IsLetter(c) ==> IsLower(r.0) && r.0 != ToLower(c) && r.1 == Step(m)
    ensures !IsLetter(c) ==> r == (c, m)
  {
    var lc := ToLower(c);
    if IsLower(lc) then
      var x := lc as int - 'a' as int;
      MapLetterIsReciprocal(m, x);
      StepValid(m);
      ((MapLetter(m, x) + 'a' as int) as char, Step(m))
    else
      (lc, m)
  }

  /** Number of letters in `s`: the number of steps its encoding takes. */
  function Letters(s: string): nat
  {
    if s == [] then 0 else Letters(s[..|s| - 1]) + if IsLetter(s[|s| - 1]) then 1 else 0
  }

  /** `Encoder::encode` on a value: the ciphertext and the final machine. */
  function Encipher(m: Machine, message: string): (r: (string, Machine))
    requires m.Valid()
    ensures |r.0| == |message| && r.1.Valid()
    decreases |message|
  {
    if message == [] then ([], m)
    else
      var (prefix, m') := Encipher(m, message[..|message| - 1]);
      var (c, m'') := EncipherChar(m', message[|message| - 1]);
      (prefix + [c], m'')
  }

  /** Enciphering one more character extends the ciphertext by that
      character's encoding in the state reached so far. */
  lemma EncipherSnoc(m: Machine, p: string, c: char)
    requires m.Valid()
    ensures Encipher(m, p + [c]) ==
      (Encipher(m, p).0 + [EncipherChar(Encipher(m, p).1, c).0], EncipherChar(Encipher(m, p).1, c).1)
  {
    assert (p + [c])[..|p|] == p;
  }

  function LowerString(s: string): (r: string)
    ensures |r| == |s| && forall i :: 0 <= i < |s| ==> r[i] == ToLower(s[i])
  {
    seq(|s|, i requires 0 <= i < |s| => ToLower(s[i]))
  }

  /** The machine steps once per letter of the message and for nothing else. */
  lemma {:induction false} EncipherSteps(m: Machine, message: string)
    requires m.Valid()
    ensures Encipher(m, message).1 == Steps(m, Letters(message))
    decreases |message|
  {
    if message != [] {
      var p, c := message[..|message| - 1], message[|message| - 1];
      EncipherSteps(m, p);
      var m1 := Encipher(m, p).1;
      assert Encipher(m, message).1 == EncipherChar(m1, c).1;
      if IsLetter(c) {
        assert Letters(message) == Letters(p) + 1;
        assert EncipherChar(m1, c).1 == Step(m1);
      } else {
        assert Letters(message) == Letters(p);
      }
    }
  }

  /** The character at position i of the ciphertext is the one the machine
      produces for message[i] in the state reached after the characters
      before it. */
  lemma {:induction false} EncipherAt(m: Machine, message: string, i: nat)
    requires m.Valid() && i < |message|
    ensures Encipher(m, message).0[i] == EncipherChar(Encipher(m, message[..i]).1, message[i]).0
    decreases |message|
  {
    var p := message[..|message| - 1];
    if i < |p| {
      assert p[..i] == message[..i];
      EncipherAt(m, p, i);
    } else {
      assert p == message[..i];
    }
  }

  /** Shape of the ciphertext: same length; non-letters unchanged in place;
      every letter, of either case, becomes a lowercase letter other than its
      own lowercase form; one step per letter. */
  lemma EncipherShape(m: Machine, message: string)
    requires m.Valid()
    ensures |Encipher(m, message).0| == |message|
    ensures forall i :: 0 <= i < |message| && !IsLetter(message[i]) ==> Encipher(m, message).0[i] == message[i]
    ensures forall i :: 0 <= i < |message| && IsLetter(message[i]) ==>
              IsLower(Encipher(m, message).0[i]) && Encipher(m, message).0[i] != ToLower(message[i])
    ensures Encipher(m, message).1 == Steps(m, Letters(message))
  {
    forall i | 0 <= i < |message|
      ensures !IsLetter(message[i]) ==> Encipher(m, message).0[i] == message[i]
      ensures IsLetter(message[i]) ==>
                IsLower(Encipher(m, message).0[i]) && Encipher(m, message).0[i] != ToLower(message[i])
    {
      EncipherAt(m, message, i);
    }
    EncipherSteps(m, message);
  }

  /** Enciphering a character's output again, in the same state, gives back
      the lowercased character and the same next state. */
  lemma EncipherCharReciprocal(m: Machine, c: char)
    requires m.Valid()
    ensures EncipherChar(m, EncipherChar(m, c).0) == (ToLower(c), EncipherChar(m, c).1)
  {
    if IsLetter(c) {
      MapLetterIsReciprocal(m, ToLower(c) as int - 'a' as int);
    }
  }

  /** Reciprocity: a machine in the same starting state turns the ciphertext
      back into the lowercased plaintext, and ends in the same state. */
  lemma {:induction false} EncipherReciprocal(m: Machine, message: string)
    requires m.Valid()
    ensures Encipher(m, Encipher(m, message).0) == (LowerString(message), Encipher(m, message).1)
    decreases |message|
  {
    if message != [] {
      var p, c := message[..|message| - 1], message[|message| - 1];
      assert message == p + [c];
      EncipherSnoc(m, p, c);
      var (o, m1) := Encipher(m, p);
      var (d, m2) := EncipherChar(m1, c);
      EncipherReciprocal(m, p);
      EncipherSnoc(m, o, d);
      EncipherCharReciprocal(m1, c);
      assert LowerString(message) == LowerString(p) + [ToLower(c)];
    }
  }

  /** How many of the n offsets a, a+1, ..., a+n-1 (mod N) equal p: the
      carries a wheel starting at offset a with notch p gives in n steps. */
  function Passes(a: int, p: int, n: nat): nat
  {
    if n == 0 then 0 else Passes(a, p, n - 1) + if (a + n - 1) % N == p then 1 else 0
  }

  /** One step of wheel 0 from offset x % N: it advances to (x + 1) % N and
      keeps its notch. */
  lemma FastWheelStep(s: Machine, x: int)
    requires |s.wheels| == 3 && 0 <= x && s.wheels[0].cIndex == x % N
    ensures Step(s).wheels[0].cIndex == (x + 1) % N
    ensures Step(s).wheels[0].iIndex == s.wheels[0].iIndex
  {
  }

  /** One step of wheel 1 from offset (b + k) % N: it advances exactly when
      wheel 0 is at its notch. */
  lemma CarryStep(s: Machine, b: int, k: int, c: int)
    requires |s.wheels| == 3 && 0 <= b && 0 <= k && s.wheels[1].cIndex == (b + k) % N
    requires c == if s.wheels[0].cIndex == s.wheels[0].iIndex then 1 else 0
    ensures Step(s).wheels[1].cIndex == (b + k + c) % N
  {
  }

  /** After n steps wheel 0 has advanced n positions, its notch unchanged. */
  lemma {:induction false} FastWheel(m: Machine, n: nat)
    requires Positioned(m)
    ensures Steps(m, n).wheels[0].iIndex == m.wheels[0].iIndex
    ensures Steps(m, n).wheels[0].cIndex == (m.wheels[0].cIndex + n) % N
  {
    if n == 0 {
      assert m.wheels[0].cIndex % N == m.wheels[0].cIndex;
    } else {
      FastWheel(m, n - 1);
      FastWheelStep(Steps(m, n - 1), m.wheels[0].cIndex + n - 1);
    }
  }

  /** After n steps wheel 1 has advanced once per carry of wheel 0. */
  lemma {:induction false} Odometer(m: Machine, n: nat)
    requires Positioned(m)
    ensures Steps(m, n).wheels[1].cIndex ==
              (m.wheels[1].cIndex + Passes(m.wheels[0].cIndex, m.wheels[0].iIndex, n)) % N
  {
    var a, p, b := m.wheels[0].cIndex, m.wheels[0].iIndex, m.wheels[1].cIndex;
    if n == 0 {
      assert b % N == b;
    } else {
      var s := Steps(m, n - 1);
      assert Steps(m, n) == Step(s);
      Odometer(m, n - 1);
      FastWheel(m, n - 1);
      var k := Passes(a, p, n - 1);
      var c := if s.wheels[0].cIndex == s.wheels[0].iIndex then 1 else 0;
      assert Passes(a, p, n) == k + c;
      CarryStep(s, b, k, c);
    }
  }

  /** Within one turn (n <= N) wheel 0 passes its notch once if it reaches it. */
  lemma {:induction false} PassesWithinTurn(a: int, p: int, n: nat)
    requires IsSymbol(a) && IsSymbol(p) && n <= N
    ensures Passes(a, p, n) == if (p - a) % N < n then 1 else 0
  {
    if n > 0 {
      PassesWithinTurn(a, p, n - 1);
      NotchDistance(a, p, n - 1);
    }
  }

  /** Wheel 0 reaches its notch p after j steps from a exactly when j is the
      distance from a forward to p. */
  lemma NotchDistance(a: int, p: int, j: int)
    requires IsSymbol(a) && IsSymbol(p) && 0 <= j < N
    ensures (a + j) % N == p <==> (p - a) % N == j
  {
    assert (a + j) % N == if a + j < N then a + j else a + j - N;
    assert (p - a) % N == if p >= a then p - a else p - a + N;
  }

  /** In any N consecutive letters wheel 0 makes a full turn and wheel 1
      advances exactly one position. */
  lemma FullTurn(m: Machine)
    requires Positioned(m)
    ensures Steps(m, N).wheels[0].cIndex == m.wheels[0].cIndex
    ensures Steps(m, N).wheels[1].cIndex == (m.wheels[1].cIndex + 1) % N
  {
    var a, p := m.wheels[0].cIndex, m.wheels[0].iIndex;
    FastWheel(m, N);
    assert (a + N) % N == a;
    Odometer(m, N);
    PassesWithinTurn(a, p, N);
    assert Passes(a, p, N) == 1;
  }

  function Offsets(m: Machine): seq<int>
    requires |m.wheels| == 3
  {
    [m.wheels[0].cIndex, m.wheels[1].cIndex, m.wheels[2].cIndex]
  }

  /** Notches 5, 5, 5 and offsets 0, 0, 0: five steps move only wheel 0; the
      sixth passes its notch and carries into wheel 1. */
  lemma StepExample(m: Machine)
    requires m.Valid()
    requires Offsets(m) == [0, 0, 0]
    requires m.wheels[0].iIndex == 5 && m.wheels[1].iIndex == 5 && m.wheels[2].iIndex == 5
    ensures Offsets(Steps(m, 5)) == [5, 0, 0]
    ensures Offsets(Steps(m, 6)) == [6, 1, 0]
  {
    var s1 := Step(m);
    var s2 := Step(s1);
    var s3 := Step(s2);
    var s4 := Step(s3);
    var s5 := Step(s4);
    var s6 := Step(s5);
    assert Offsets(s5) == [5, 0, 0];
    assert Offsets(s6) == [6, 1, 0];
    assert Steps(m, 1) == s1;
    assert Steps(m, 2) == s2;
    assert Steps(m, 3) == s3;
    assert Steps(m, 4) == s4;
    assert Steps(m, 5) == s5;
    assert Steps(m, 6) == s6;
  }

  /** The source's Encoder: three Rotor objects and a reflector. */
  class Encoder {
    const rotors: seq<Rotor>
    const reflector: seq<int>

    ghost function Model(): Machine
      reads this, rotors
      requires |rotors| == 3
    {
      Machine([rotors[0].Model(), rotors[1].Model(), rotors[2].Model()], reflector)
    }

    ghost predicate Valid()
      reads this, rotors
    {
      && |rotors| == 3
      && rotors[0] != rotors[1] && rotors[0] != rotors[2] && rotors[1] != rotors[2]
      && Model().Valid()
    }

    constructor (config: seq<Slot>, rotorTables: seq<Wiring>, reflector: seq<int>)
      requires |config| == 3 && forall i :: 0 <= i < 3 ==> config[i].InRange()
      requires |rotorTables| == RotorCount && forall k :: 0 <= k < RotorCount ==> rotorTables[k].Valid()
      requires IsReflector(reflector)
      ensures Valid()
      ensures forall i :: 0 <= i < |rotors| ==> fresh(rotors[i])
      ensures Model() == Configure(config, rotorTables, reflector)
    {
      var built: seq<Rotor> := [];
      var i := 0;
      while i < 3
        invariant 0 <= i <= 3 && |built| == i
        invariant forall k :: 0 <= k < i ==> fresh(built[k]) && built[k].Model() == WheelFor(config[k], rotorTables)
        invariant forall k, l :: 0 <= k < l < i ==> built[k] != built[l]
      {
        var slot := config[i];
        var r := new Rotor(rotorTables[slot.rotor - 1], slot.position - 1, slot.notch - 1);
        built := built + [r];
        i := i + 1;
      }
      this.rotors := built;
      this.reflector := reflector;
    }

    /** The stepping cascade on the three rotors. */
    method Index()
      requires Valid()
      modifies rotors
      ensures Valid()
      ensures Model() == Step(old(Model()))
    {
      ghost var m := Model();
      var carry := rotors[0].Rotate();
      if carry {
        carry := rotors[1].Rotate();
        if carry {
          carry := rotors[2].Rotate();
        }
      }
      assert Model() == Step(m);
    }

    /** The signal path of one letter in the current state: forward through
        wheels 0, 1, 2, the reflector, back through wheels 2, 1, 0. */
    method Substitute(x0: int) returns (x: int)
      requires Valid() && IsSymbol(x0)
      ensures x == MapLetter(Model(), x0)
    {
      ghost var m := Model();
      x := x0;
      var j := 0;
      while j < 3
        invariant 0 <= j <= 3
        invariant x == Forward(m.wheels[..j], x0)
      {
        assert m.wheels[..j + 1][..j] == m.wheels[..j];
        assert rotors[j].Model() == m.wheels[j] by { assert j == 0 || j == 1 || j == 2; }
        x := rotors[j].GetFCon(x);
        j := j + 1;
      }
      assert m.wheels[..3] == m.wheels;
      x := Reflect(reflector, x);
      ghost var z := x;
      j := 3;
      while j > 0
        invariant 0 <= j <= 3
        invariant x == Backward(m.wheels[j..], z)
      {
        j := j - 1;
        assert m.wheels[j..][1..] == m.wheels[j + 1..];
        assert rotors[j].Model() == m.wheels[j] by { assert j == 0 || j == 1 || j == 2; }
        x := rotors[j].GetBCon(x);
      }
    }

    /** One iteration of the encode loop: a letter is lowercased, substituted
        and followed by a step; anything else is copied and nothing moves. */
    method EncodeChar(ch: char) returns (out: char)
      requires Valid()
      modifies rotors
      ensures Valid()
      ensures (out, Model()) == EncipherChar(old(Model()), ch)
    {
      ghost var m := Model();
      var c := ToLower(ch);
      if 'a' <= c <= 'z' {
        var x := Substitute(c as int - 'a' as int);
        out := (x + 'a' as int) as char;
        Index();
      } else {
        out := c;
      }
    }

    /** Enciphers a message character by character, stepping after each letter. */
    method Encode(message: string) returns (cipher: string)
      requires Valid()
      modifies rotors
      ensures Valid()
      ensures (cipher, Model()) == Encipher(old(Model()), message)
    {
      cipher := [];
      var i := 0;
      while i < |message|
        invariant 0 <= i <= |message|
        invariant Valid()
        invariant (cipher, Model()) == Encipher(old(Model()), message[..i])
      {
        assert message[..i + 1] == message[..i] + [message[i]];
        EncipherSnoc(old(Model()), message[..i], message[i]);
        var c := EncodeChar(message[i]);
        cipher := cipher + [c];
        i := i + 1;
      }
      assert message[..i] == message;
    }
  }
}
