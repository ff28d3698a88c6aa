/** One rotor wheel: a wiring permutation, its cached inverse, a rotational
    offset that advances once per enciphered letter, and a notch. */
module Rotors {
  import opened Tables

  /** The two tables of a stored rotor as the encode path holds them
      (`array<array<int, 26>, 2>`): the wiring and its inverse. */
  datatype Wiring = Wiring(fCons: seq<int>, bCons: seq<int>) {
    predicate Valid() {
      IsPermutation(fCons) && IsInverse(fCons, bCons)
    }
  }

  /** The value of a Rotor object: its tables, its current offset `cIndex`
      and its notch `iIndex`. */
  datatype Wheel = Wheel(fCons: seq<int>, bCons: seq<int>, cIndex: int, iIndex: int) {

    predicate Valid() {
      Wiring(fCons, bCons).Valid() && IsSymbol(cIndex) && IsSymbol(iIndex)
    }

    /** Forward substitution: shift the contact into the wheel's frame, look it
        up, shift back. */
    function GetFCon(c: int): (r: int)
      requires IsTable(fCons) && IsSymbol(cIndex) && IsSymbol(c)
      ensures IsSymbol(r)
    {
      (fCons[(c + cIndex) % N] + cIndex) % N
    }

    /** Backward substitution through the inverse table, with the source's
        explicit wrap-around of negative differences. */
    function GetBCon(c: int): (r: int)
      requires IsTable(bCons) && IsSymbol(cIndex) && IsSymbol(c)
      ensures IsSymbol(r)
    {
      var con := if c - cIndex < 0 then c - cIndex + N else c - cIndex;
      var val := bCons[con] - cIndex;
      if val < 0 then val + N else val
    }

    /** One step of the wheel: the advanced wheel, and whether it was at its
        notch before advancing (the carry to the next wheel). */
    function Rotate(): (r: (Wheel, bool))
      ensures r.0 == this.(cIndex := r.0.cIndex)
      ensures r.1 <==> cIndex == iIndex
      ensures IsSymbol(cIndex) ==> r.0.cIndex == if cIndex == N - 1 then 0 else cIndex + 1
    {
      (this.(cIndex := (cIndex + 1) % N), cIndex == iIndex)
    }
  }

  /** Turning a wheel keeps it a valid wheel. */
  lemma RotateKeepsValid(w: Wheel)
    requires w.Valid()
    ensures w.Rotate().0.Valid()
  {
  }

  /** Backward substitution undoes forward substitution at the same offset. */
  lemma BConUndoesFCon(w: Wheel, x: int)
    requires IsInverse(w.fCons, w.bCons) && IsSymbol(w.cIndex) && IsSymbol(x)
    ensures w.GetBCon(w.GetFCon(x)) == x
  {
    var k := w.cIndex;
    var p := (x + k) % N;
    var y := w.GetFCon(x);
    assert y == (w.fCons[p] + k) % N;
    var con := if y - k < 0 then y - k + N else y - k;
    assert con == w.fCons[p];
    assert w.bCons[con] == p;
  }

  /** For a valid wheel, forward substitution also undoes backward substitution. */
  lemma FConUndoesBCon(w: Wheel, y: int)
    requires w.Valid() && IsSymbol(y)
    ensures w.GetFCon(w.GetBCon(y)) == y
  {
    var k := w.cIndex;
    var con := if y - k < 0 then y - k + N else y - k;
    RightInverse(w.fCons, w.bCons, con);
    var v := w.bCons[con];
    var r := w.GetBCon(y);
    assert (r + k) % N == v;
    assert w.fCons[v] == con;
  }

  /** A Rotor of the source: mutable offset, fixed tables and notch. */
  class Rotor {
    const fCons: seq<int>
    const bCons: seq<int>
    var cIndex: int
    const iIndex: int

    function Model(): Wheel
      reads this
    {
      Wheel(fCons, bCons, cIndex, iIndex)
    }

    constructor (rotor: Wiring, c: int, i: int)
      ensures Model() == Wheel(rotor.fCons, rotor.bCons, c, i)
    {
      fCons := rotor.fCons;
      bCons := rotor.bCons;
      cIndex := c;
      iIndex := i;
    }

    function GetFCon(c: int): (r: int)
      reads this
      requires IsTable(fCons) && IsSymbol(cIndex) && IsSymbol(c)
      ensures IsSymbol(r)
    {
      Model().GetFCon(c)
    }

    function GetBCon(c: int): (r: int)
      reads this
      requires IsTable(bCons) && IsSymbol(cIndex) && IsSymbol(c)
      ensures IsSymbol(r)
    {
      Model().GetBCon(c)
    }

    /** Advances the offset by one, modulo N, and reports whether the wheel
        was at its notch before advancing. */
    method Rotate() returns (rotateNext: bool)
      modifies this
      ensures (Model(), rotateNext) == old(Model()).Rotate()
    {
      rotateNext := cIndex == iIndex;
      cIndex := (cIndex + 1) % N;
    }
  }
}
