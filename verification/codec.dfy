/** The machine definition file: five rotor wirings then the reflector, one
    byte per symbol, 156 bytes, no header. */
module Codec {
  import opened Tables
  import opened Rotors

  /** Size in bytes of a machine definition file. */
  const DefinitionSize: int := (RotorCount + 1) * N

  /** A machine definition as the generator makes it: five wirings and a
      reflector. */
  datatype Definition = Definition(rotors: seq<seq<int>>, reflector: seq<int>) {
    predicate WellFormed() {
      && |rotors| == RotorCount
      && (forall k :: 0 <= k < RotorCount ==> IsTable(rotors[k]))
      && IsTable(reflector)
    }
  }

  /** A definition as the encode path holds it after reading: every rotor
      with the backward table built while reading. */
  datatype Loaded = Loaded(rotors: seq<Wiring>, reflector: seq<int>)

  /** The bytes `File << (char) num` writes for one table. */
  function TableBytes(t: seq<int>): (bytes: seq<byte>)
    requires IsTable(t)
    ensures |bytes| == N && forall j :: 0 <= j < N ==> bytes[j] as int == t[j]
  {
    seq(N, j requires 0 <= j < N => t[j] as byte)
  }

  /** The tables written one after the other. */
  function Write(tables: seq<seq<int>>): (bytes: seq<byte>)
    requires forall k :: 0 <= k < |tables| ==> IsTable(tables[k])
    ensures |bytes| == |tables| * N
    decreases |tables|
  {
    if tables == [] then []
    else
      var prefix, last := tables[..|tables| - 1], tables[|tables| - 1];
      assert IsTable(last);
      assert forall k :: 0 <= k < |prefix| ==> IsTable(prefix[k]);
      Write(prefix) + TableBytes(last)
  }

  /** Writing one more table appends its bytes. */
  lemma WriteSnoc(tables: seq<seq<int>>, t: seq<int>)
    requires forall k :: 0 <= k < |tables| ==> IsTable(tables[k])
    requires IsTable(t)
    ensures forall k :: 0 <= k < |tables + [t]| ==> IsTable((tables + [t])[k])
    ensures Write(tables + [t]) == Write(tables) + TableBytes(t)
  {
    assert (tables + [t])[..|tables|] == tables;
  }

  /** The file `machine` writes: rotor k occupies bytes [26k, 26k+26) and the
      reflector the last 26 bytes. */
  function Serialize(d: Definition): (bytes: seq<byte>)
    requires d.WellFormed()
    ensures |bytes| == DefinitionSize
  {
    var tables := d.rotors + [d.reflector];
    assert forall k :: 0 <= k < RotorCount ==> tables[k] == d.rotors[k];
    assert tables[RotorCount] == d.reflector;
    Write(tables)
  }

  /** Byte j of table k of the written tables is that table's entry j. */
  lemma {:induction false} WriteAt(tables: seq<seq<int>>, k: int, j: int)
    requires forall k :: 0 <= k < |tables| ==> IsTable(tables[k])
    requires 0 <= k < |tables| && 0 <= j < N
    ensures Write(tables)[k * N + j] as int == tables[k][j]
    decreases |tables|
  {
    var prefix := tables[..|tables| - 1];
    assert Write(tables) == Write(prefix) + TableBytes(tables[|tables| - 1]);
    if k < |tables| - 1 {
      WriteAt(prefix, k, j);
    }
  }

  /** Rotor k of a written definition occupies bytes [26k, 26k+26), the
      reflector the last 26. */
  lemma SerializedTable(d: Definition, k: int, j: int)
    requires d.WellFormed() && 0 <= k <= RotorCount && 0 <= j < N
    ensures Serialize(d)[k * N + j] as int == if k < RotorCount then d.rotors[k][j] else d.reflector[j]
  {
    var tables := d.rotors + [d.reflector];
    assert forall k :: 0 <= k < RotorCount ==> tables[k] == d.rotors[k];
    assert tables[RotorCount] == d.reflector;
    WriteAt(tables, k, j);
  }

  /** Block k of the file, each byte read as a number 0..255. The reader
      stores `char` values, negative for bytes above 127 where `char` is
      signed. Here such a byte is not a symbol and validation rejects it. */
  function Block(bytes: seq<byte>, k: int): (t: seq<int>)
    requires |bytes| == DefinitionSize && 0 <= k <= RotorCount
    ensures |t| == N && forall j :: 0 <= j < N ==> t[j] == bytes[k * N + j] as int
  {
    seq(N, j requires 0 <= j < N => bytes[k * N + j] as int)
  }

  /** Rotor k as the reader leaves it: its wiring and the table built by
      `bCons[fCons[j]] = j`. */
  function DecodedRotor(bytes: seq<byte>, k: int): (w: Wiring)
    requires |bytes| == DefinitionSize && 0 <= k < RotorCount
    ensures w.fCons == Block(bytes, k)
  {
    var f := Block(bytes, k);
    Wiring(f, InverseTable(f))
  }

  /** A rotor block that is a permutation loads as a valid wiring. */
  lemma DecodedRotorValid(bytes: seq<byte>, k: int)
    requires |bytes| == DefinitionSize && 0 <= k < RotorCount
    requires IsPermutation(Block(bytes, k))
    ensures DecodedRotor(bytes, k).Valid()
  {
    InverseOfPermutation(Block(bytes, k));
  }

  /** The whole file as the reader leaves it. */
  function Decode(bytes: seq<byte>): (d: Loaded)
    requires |bytes| == DefinitionSize
    ensures |d.rotors| == RotorCount
  {
    Loaded(seq(RotorCount, k requires 0 <= k < RotorCount => DecodedRotor(bytes, k)), Block(bytes, RotorCount))
  }

  /** What reading a written definition should give: the same tables, each
      rotor with its backward table. */
  function WithInverses(d: Definition): (l: Loaded)
    requires d.WellFormed()
  {
    Loaded(seq(RotorCount, k requires 0 <= k < RotorCount => Wiring(d.rotors[k], InverseTable(d.rotors[k]))), d.reflector)
  }

  /** The forward tables of a loaded definition. */
  function ForwardTables(l: Loaded): (d: Definition)
    requires |l.rotors| == RotorCount
  {
    Definition(seq(RotorCount, k requires 0 <= k < RotorCount => l.rotors[k].fCons), l.reflector)
  }

  /** Reading back a written definition gives the same tables; every rotor
      that is a permutation comes back with its inverse. */
  lemma DecodeSerialize(d: Definition)
    requires d.WellFormed()
    ensures Decode(Serialize(d)) == WithInverses(d)
    ensures forall k :: 0 <= k < RotorCount && IsPermutation(d.rotors[k]) ==> Decode(Serialize(d)).rotors[k].Valid()
  {
    var bytes := Serialize(d);
    forall k | 0 <= k <= RotorCount
      ensures Block(bytes, k) == if k < RotorCount then d.rotors[k] else d.reflector
    {
      forall j | 0 <= j < N
        ensures Block(bytes, k)[j] == if k < RotorCount then d.rotors[k][j] else d.reflector[j]
      {
        SerializedTable(d, k, j);
      }
    }
    assert Block(bytes, RotorCount) == d.reflector;
    forall k | 0 <= k < RotorCount && IsPermutation(d.rotors[k])
      ensures Decode(bytes).rotors[k].Valid()
    {
      DecodedRotorValid(bytes, k);
    }
  }

  /** Conversely, a 156-byte file of symbols is exactly what writing the
      tables it decodes to produces. */
  lemma SerializeDecode(bytes: seq<byte>)
    requires |bytes| == DefinitionSize
    requires forall p :: 0 <= p < |bytes| ==> bytes[p] as int < N
    ensures ForwardTables(Decode(bytes)).WellFormed()
    ensures Serialize(ForwardTables(Decode(bytes))) == bytes
  {
    var d := ForwardTables(Decode(bytes));
    DecodedWellFormed(bytes);
    var out := Serialize(d);
    forall p | 0 <= p < DefinitionSize
      ensures out[p] == bytes[p]
    {
      SerializedAt(d, p);
      DecodedAt(bytes, p);
    }
  }

  /** A file of symbols decodes to well-formed tables. */
  lemma DecodedWellFormed(bytes: seq<byte>)
    requires |bytes| == DefinitionSize
    requires forall p :: 0 <= p < |bytes| ==> bytes[p] as int < N
    ensures ForwardTables(Decode(bytes)).WellFormed()
  {
    var d := ForwardTables(Decode(bytes));
    forall k | 0 <= k < RotorCount
      ensures IsTable(d.rotors[k])
    {
      forall j | 0 <= j < N
        ensures IsSymbol(d.rotors[k][j])
      {
        assert d.rotors[k][j] == bytes[k * N + j] as int;
      }
    }
  }

  /** Byte p of a file, located by block and offset in what it decodes to. */
  lemma DecodedAt(bytes: seq<byte>, p: int)
    requires |bytes| == DefinitionSize && 0 <= p < DefinitionSize
    ensures p / N <= RotorCount && 0 <= p % N < N
    ensures bytes[p] as int ==
              if p / N < RotorCount then ForwardTables(Decode(bytes)).rotors[p / N][p % N]
              else ForwardTables(Decode(bytes)).reflector[p % N]
  {
    var k, j := p / N, p % N;
    assert p == k * N + j;
    assert Block(bytes, k)[j] == bytes[k * N + j] as int;
  }

  /** Byte p of a written definition, located by block and offset. */
  lemma SerializedAt(d: Definition, p: int)
    requires d.WellFormed() && 0 <= p < DefinitionSize
    ensures p == (p / N) * N + p % N && 0 <= p % N < N && p / N <= RotorCount
    ensures Serialize(d)[p] as int == if p / N < RotorCount then d.rotors[p / N][p % N] else d.reflector[p % N]
  {
    var k, j := p / N, p % N;
    assert p == k * N + j;
    SerializedTable(d, k, j);
  }

  /** Reads one rotor: the wiring byte by byte, and for every in-range byte
      the write `bCons[byte] = j`. For an out-of-range byte the write is out of
      bounds, with an undefined outcome; it is left out here, so such a rotor
      keeps its byte and fails validation. */
  method ReadRotor(bytes: seq<byte>, i: int) returns (w: Wiring)
    requires |bytes| == DefinitionSize && 0 <= i < RotorCount
    ensures w == DecodedRotor(bytes, i)
  {
    ghost var block := Block(bytes, i);
    var fCons := new int[N](_ => 0);
    var bCons := new int[N](_ => 0);
    var j := 0;
    while j < N
      invariant 0 <= j <= N
      invariant forall t :: 0 <= t < j ==> fCons[t] == block[t]
      invariant forall v :: 0 <= v < N ==> bCons[v] == LastWriter(block[..j], v)
    {
      var b := bytes[i * N + j] as int;
      assert block[..j + 1] == block[..j] + [b];
      fCons[j] := b;
      if IsSymbol(b) {
        bCons[b] := j;
      }
      j := j + 1;
    }
    assert block[..N] == block;
    assert fCons[..] == block;
    w := Wiring(fCons[..], bCons[..]);
  }

  /** The last pass of the read loop: the reflector bytes, stored as read. */
  method ReadReflector(bytes: seq<byte>) returns (reflector: seq<int>)
    requires |bytes| == DefinitionSize
    ensures reflector == Block(bytes, RotorCount)
  {
    var table := new int[N](_ => 0);
    var j := 0;
    while j < N
      invariant 0 <= j <= N
      invariant forall t :: 0 <= t < j ==> table[t] == bytes[RotorCount * N + t] as int
    {
      table[j] := bytes[RotorCount * N + j] as int;
      j := j + 1;
    }
    reflector := table[..];
  }

  /** The read loop of `encode`: five rotors, then the reflector. */
  method ReadDefinition(bytes: seq<byte>) returns (loaded: Loaded)
    requires |bytes| == DefinitionSize
    ensures loaded == Decode(bytes)
  {
    var rotors: seq<Wiring> := [];
    var i := 0;
    while i < RotorCount
      invariant 0 <= i <= RotorCount && |rotors| == i
      invariant forall k :: 0 <= k < i ==> rotors[k] == DecodedRotor(bytes, k)
    {
      var w := ReadRotor(bytes, i);
      rotors := rotors + [w];
      i := i + 1;
    }
    var reflector := ReadReflector(bytes);
    loaded := Loaded(rotors, reflector);
    DecodeOf(bytes, loaded);
  }

  /** The read results assembled: the rotors block by block, then the reflector. */
  lemma DecodeOf(bytes: seq<byte>, loaded: Loaded)
    requires |bytes| == DefinitionSize && |loaded.rotors| == RotorCount
    requires forall k :: 0 <= k < RotorCount ==> loaded.rotors[k] == DecodedRotor(bytes, k)
    requires loaded.reflector == Block(bytes, RotorCount)
    ensures loaded == Decode(bytes)
  {
  }
}
