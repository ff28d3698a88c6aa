/** The 26-symbol alphabet and the tables built over it: rotor wirings, their
    inverses and reflectors. */
module Tables {

  /** Size of the alphabet (the template parameter N of Rotor and Reflector). */
  const N: int := 26

  /** Number of rotors a machine definition stores. */
  const RotorCount: int := 5

  /** One byte of a machine definition file. */
  newtype byte = x: int | 0 <= x < 256

  predicate IsSymbol(x: int) {
    0 <= x < N
  }

  /** A table of N symbols, as held in an `array<int, 26>`. */
  predicate IsTable(t: seq<int>) {
    |t| == N && forall i :: 0 <= i < N ==> IsSymbol(t[i])
  }

  /** The entries are exactly the symbols 0..N-1: none out of range, none
      repeated, none missing. */
  predicate IsPermutation(t: seq<int>) {
    && IsTable(t)
    && (forall i, j :: 0 <= i < j < N ==> t[i] != t[j])
    && (forall v :: 0 <= v < N ==> v in t)
  }

  /** `b` undoes `f`: b[f[j]] == j for every contact j. */
  predicate IsInverse(f: seq<int>, b: seq<int>) {
    IsTable(f) && IsTable(b) && forall j :: 0 <= j < N ==> b[f[j]] == j
  }

  /** A fixed-point-free involution of the alphabet. */
  predicate IsReflector(r: seq<int>) {
    IsTable(r) && forall i :: 0 <= i < N ==> r[r[i]] == i && r[i] != i
  }

  /** 0, 1, ..., n-1: the initial `connections`, `options` and `values` vectors. */
  function Iota(n: nat): (s: seq<int>)
    ensures |s| == n && forall i :: 0 <= i < n ==> s[i] == i
  {
    seq(n, i => i)
  }

  /** The contact that the loop `bCons[fCons[j]] = j`, run for j = 0, 1, ... over
      `f`, leaves in slot `v`: the last j with f[j] == v, or the initial 0 when no
      entry of `f` equals `v`. */
  function LastWriter(f: seq<int>, v: int): (k: int)
    ensures 0 <= k && (k < |f| || k == 0)
    ensures (exists j :: 0 <= j < |f| && f[j] == v) ==>
              k < |f| && f[k] == v && forall j :: k < j < |f| ==> f[j] != v
    ensures (forall j :: 0 <= j < |f| ==> f[j] != v) ==> k == 0
  {
    if f == [] then 0
    else if f[|f| - 1] == v then |f| - 1
    else LastWriter(f[..|f| - 1], v)
  }

  /** The backward table the decoder builds from a forward table. */
  function InverseTable(f: seq<int>): (b: seq<int>)
    ensures |b| == N
    ensures forall v :: 0 <= v < N ==> b[v] == LastWriter(f, v)
  {
    seq(N, v => LastWriter(f, v))
  }

  /** For a permutation, the decoder's backward table is its inverse. */
  lemma InverseOfPermutation(f: seq<int>)
    requires IsPermutation(f)
    ensures IsInverse(f, InverseTable(f))
  {
    var b := InverseTable(f);
    forall v | 0 <= v < N
      ensures IsSymbol(b[v])
    {
      assert v in f;
    }
    forall j | 0 <= j < N
      ensures b[f[j]] == j
    {
      assert f[j] == f[j];
      var k := LastWriter(f, f[j]);
      assert f[k] == f[j];
    }
  }

  /** The inverse of a permutation also undoes it from the other side. */
  lemma RightInverse(f: seq<int>, b: seq<int>, v: int)
    requires IsPermutation(f) && IsInverse(f, b) && IsSymbol(v)
    ensures f[b[v]] == v
  {
    assert v in f;
    var j :| 0 <= j < |f| && f[j] == v;
    assert b[f[j]] == j;
  }

  lemma IotaIsPermutation()
    ensures IsPermutation(Iota(N))
  {
    var t := Iota(N);
    forall v | IsSymbol(v)
      ensures v in t
    {
      assert t[v] == v;
    }
  }
}
