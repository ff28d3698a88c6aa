/** The `machine` subcommand: five shuffled rotors and a paired reflector. The
    pseudorandom generator is replaced by the sequence of values its uniform
    distributions return, each within the range the source asks for. */
module Generator {
  import opened Tables
  import opened Codec

  /** `swap(arr[i], arr[j])`. */
  function Swap(s: seq<int>, i: int, j: int): (r: seq<int>)
    requires 0 <= i < |s| && 0 <= j < |s|
    ensures |r| == |s|
  {
    seq(|s|, k requires 0 <= k < |s| => if k == i then s[j] else if k == j then s[i] else s[k])
  }

  /** Draws for the shuffle loop started at `i`: one per position i-1 down to
      1, the k-th in [0, i-1-k]. */
  predicate IsShuffleDraws(i: int, draws: seq<int>) {
    1 <= i && |draws| == i - 1 && forall k :: 0 <= k < |draws| ==> 0 <= draws[k] < i - k
  }

  /** Fisher-Yates from position i-1 down to 1: position p is swapped with the
      drawn position in [0, p]. */
  function Shuffled(s: seq<int>, i: int, draws: seq<int>): (r: seq<int>)
    requires i <= |s| && IsShuffleDraws(i, draws)
    ensures |r| == |s|
    decreases i
  {
    if i == 1 then s
    else Shuffled(Swap(s, i - 1, draws[0]), i - 1, draws[1..])
  }

  /** The swap as two element updates, the way the array is changed. */
  lemma SwapUpdates(s: seq<int>, i: int, j: int)
    requires 0 <= i < |s| && 0 <= j < |s|
    ensures Swap(s, i, j) == s[i := s[j]][j := s[i]]
  {
  }

  lemma SwapRearranges(s: seq<int>, i: int, j: int)
    requires 0 <= i < |s| && 0 <= j < |s|
    ensures multiset(Swap(s, i, j)) == multiset(s)
  {
    SwapUpdates(s, i, j);
  }

  /** A shuffle only rearranges: the result holds the same elements, each as
      often, whatever the draws. */
  lemma {:induction false} ShuffledRearranges(s: seq<int>, i: int, draws: seq<int>)
    requires i <= |s| && IsShuffleDraws(i, draws)
    ensures multiset(Shuffled(s, i, draws)) == multiset(s)
    decreases i
  {
    if i > 1 {
      SwapRearranges(s, i - 1, draws[0]);
      ShuffledRearranges(Swap(s, i - 1, draws[0]), i - 1, draws[1..]);
    }
  }

  lemma SwapKeepsPermutation(s: seq<int>, i: int, j: int)
    requires IsPermutation(s) && 0 <= i < N && 0 <= j < N
    ensures IsPermutation(Swap(s, i, j))
  {
    var t := Swap(s, i, j);
    forall v | 0 <= v < N
      ensures v in t
    {
      assert v in s;
      var p :| 0 <= p < N && s[p] == v;
      if p == i {
        assert t[j] == v;
      } else if p == j {
        assert t[i] == v;
      } else {
        assert t[p] == v;
      }
    }
  }

  /** Every shuffle of a permutation is a permutation. */
  lemma {:induction false} ShuffledIsPermutation(s: seq<int>, i: int, draws: seq<int>)
    requires IsPermutation(s) && i <= |s| && IsShuffleDraws(i, draws)
    ensures IsPermutation(Shuffled(s, i, draws))
    decreases i
  {
    if i > 1 {
      SwapKeepsPermutation(s, i - 1, draws[0]);
      ShuffledIsPermutation(Swap(s, i - 1, draws[0]), i - 1, draws[1..]);
    }
  }

  /** One iteration of the shuffle loop. */
  lemma ShuffledUnfold(s: seq<int>, i: int, draws: seq<int>)
    requires 1 < i <= |s| && IsShuffleDraws(i, draws)
    ensures IsShuffleDraws(i - 1, draws[1..])
    ensures Shuffled(s, i, draws) == Shuffled(Swap(s, i - 1, draws[0]), i - 1, draws[1..])
  {
  }

  /** `swap(arr[i], arr[j])` on the array. */
  method SwapEntries(arr: array<int>, i: int, j: int)
    requires 0 <= i < arr.Length && 0 <= j < arr.Length
    modifies arr
    ensures arr[..] == Swap(old(arr[..]), i, j)
  {
    SwapUpdates(arr[..], i, j);
    arr[i], arr[j] := arr[j], arr[i];
    assert arr[..] == old(arr[..])[i := old(arr[..])[j]][j := old(arr[..])[i]];
  }

  /** The free `shuffle` template on an `array<int, 26>`. */
  method Shuffle(arr: array<int>, draws: seq<int>)
    requires arr.Length == N && IsShuffleDraws(N, draws)
    modifies arr
    ensures arr[..] == Shuffled(old(arr[..]), N, draws)
  {
    var i := N;
    ghost var rest := draws;
    while i > 1
      invariant 1 <= i <= N
      invariant rest == draws[N - i..]
      invariant IsShuffleDraws(i, rest)
      invariant Shuffled(arr[..], i, rest) == Shuffled(old(arr[..]), N, draws)
    {
      var d := draws[N - i];
      ghost var before := arr[..];
      ShuffledUnfold(before, i, rest);
      SwapEntries(arr, i - 1, d);
      rest := rest[1..];
      i := i - 1;
    }
  }

  predicate Distinct(s: seq<int>) {
    forall a, b :: 0 <= a < b < |s| ==> s[a] != s[b]
  }

  /** `options.erase(options.begin() + k)`. */
  function Remove(s: seq<int>, k: int): (r: seq<int>)
    requires 0 <= k < |s|
    ensures |r| == |s| - 1
    ensures Distinct(s) ==> Distinct(r) && forall x :: x in r <==> x in s && x != s[k]
  {
    var r := s[..k] + s[k + 1..];
    assert forall a :: 0 <= a < |r| ==> r[a] == if a < k then s[a] else s[a + 1];
    r
  }

  /** Draws from a pool of `size` without replacement: the k-th is an index
      into the k-times-shrunk pool. */
  predicate IsPoolDraws(size: int, draws: seq<int>) {
    |draws| <= size && forall k :: 0 <= k < |draws| ==> 0 <= draws[k] < size - k
  }

  /** The symbols drawn, in order. */
  function Drawn(pool: seq<int>, draws: seq<int>): (r: seq<int>)
    requires IsPoolDraws(|pool|, draws)
    ensures |r| == |draws|
    ensures forall x :: x in r ==> x in pool
    decreases |draws|
  {
    if draws == [] then []
    else
      assert IsPoolDraws(|pool| - 1, draws[1..]);
      [pool[draws[0]]] + Drawn(Remove(pool, draws[0]), draws[1..])
  }

  /** Drawing without replacement from a pool of distinct symbols yields
      distinct symbols, and drawing the whole pool yields every symbol in it. */
  lemma {:induction false} DrawnIsArrangement(pool: seq<int>, draws: seq<int>)
    requires IsPoolDraws(|pool|, draws) && Distinct(pool)
    ensures Distinct(Drawn(pool, draws))
    ensures |draws| == |pool| ==> forall x :: x in pool ==> x in Drawn(pool, draws)
    decreases |draws|
  {
    if draws != [] {
      var rest := Remove(pool, draws[0]);
      assert IsPoolDraws(|rest|, draws[1..]);
      DrawnIsArrangement(rest, draws[1..]);
      var r := Drawn(pool, draws);
      assert r == [pool[draws[0]]] + Drawn(rest, draws[1..]);
      forall a, b | 0 <= a < b < |r|
        ensures r[a] != r[b]
      {
        if a == 0 {
          assert r[b] in Drawn(rest, draws[1..]);
        }
      }
      if |draws| == |pool| {
        forall x | x in pool
          ensures x in r
        {
          if x != pool[draws[0]] {
            assert x in rest;
            assert x in Drawn(rest, draws[1..]);
          }
        }
      }
    }
  }

  predicate AllSymbols(s: seq<int>) {
    forall k :: 0 <= k < |s| ==> IsSymbol(s[k])
  }

  /** `reflector[a] = b; reflector[b] = a;` on a table. */
  function Pair(table: seq<int>, a: int, b: int): (r: seq<int>)
    ensures |r| == |table|
  {
    seq(|table|, k requires 0 <= k < |table| => if k == b then a else if k == a then b else table[k])
  }

  /** Writes each consecutive pair (a, b) of `drawn` as table[a] = b,
      table[b] = a. */
  function PairUp(drawn: seq<int>, table: seq<int>): (r: seq<int>)
    requires |drawn| % 2 == 0 && AllSymbols(drawn) && |table| == N
    ensures |r| == N
    decreases |drawn|
  {
    if drawn == [] then table
    else PairUp(drawn[2..], Pair(table, drawn[0], drawn[1]))
  }

  /** The other index of the pair index k belongs to. */
  function Partner(k: nat): nat
  {
    if k % 2 == 0 then k + 1 else k - 1
  }

  /** Pairing leaves every slot outside `drawn` as it was. */
  lemma {:induction false} PairUpKeeps(drawn: seq<int>, table: seq<int>, v: int)
    requires |drawn| % 2 == 0 && AllSymbols(drawn) && |table| == N
    requires 0 <= v < N && v !in drawn
    ensures PairUp(drawn, table)[v] == table[v]
    decreases |drawn|
  {
    if drawn != [] {
      assert drawn[0] != v && drawn[1] != v;
      assert v !in drawn[2..];
      PairUpKeeps(drawn[2..], Pair(table, drawn[0], drawn[1]), v);
    }
  }

  /** After pairing, each drawn symbol maps to its partner. */
  lemma {:induction false} PairUpMapsPartner(drawn: seq<int>, table: seq<int>, k: int)
    requires |drawn| % 2 == 0 && AllSymbols(drawn) && |table| == N && Distinct(drawn)
    requires 0 <= k < |drawn|
    ensures PairUp(drawn, table)[drawn[k]] == drawn[Partner(k)]
    decreases |drawn|
  {
    var a, b, rest := drawn[0], drawn[1], drawn[2..];
    var t := Pair(table, a, b);
    assert PairUp(drawn, table) == PairUp(rest, t);
    if k >= 2 {
      assert drawn[k] == rest[k - 2];
      assert Partner(k) - 2 == Partner(k - 2);
      PairUpMapsPartner(rest, t, k - 2);
    } else {
      forall c | 0 <= c < |rest|
        ensures rest[c] != a && rest[c] != b
      {
        assert rest[c] == drawn[c + 2];
      }
      PairUpKeeps(rest, t, drawn[k]);
    }
  }

  /** Draws for the reflector: 13 rounds of two from the shrinking pool. */
  predicate IsPairingDraws(draws: seq<int>) {
    |draws| == N && IsPoolDraws(N, draws)
  }

  /** The 26 symbols in the order the reflector loop draws them: an
      arrangement of all of them. */
  function DrawnSymbols(draws: seq<int>): (r: seq<int>)
    requires IsPairingDraws(draws)
    ensures |r| == N && AllSymbols(r) && Distinct(r)
    ensures forall v :: 0 <= v < N ==> v in r
  {
    var pool := Iota(N);
    var r := Drawn(pool, draws);
    DrawnIsArrangement(pool, draws);
    assert forall v :: 0 <= v < N ==> v in r by {
      forall v | 0 <= v < N
        ensures v in r
      {
        assert pool[v] == v;
      }
    }
    assert AllSymbols(r) by {
      forall k | 0 <= k < |r|
        ensures IsSymbol(r[k])
      {
        assert r[k] in pool;
      }
    }
    r
  }

  /** Pairing up an arrangement of all symbols gives a reflector. */
  lemma PairingIsReflector(drawn: seq<int>, table: seq<int>)
    requires |drawn| == N && AllSymbols(drawn) && Distinct(drawn) && |table| == N
    requires forall v :: 0 <= v < N ==> v in drawn
    ensures IsReflector(PairUp(drawn, table))
  {
    var r := PairUp(drawn, table);
    forall i | 0 <= i < N
      ensures IsSymbol(r[i]) && r[r[i]] == i && r[i] != i
    {
      assert i in drawn;
      var k :| 0 <= k < |drawn| && drawn[k] == i;
      PairUpMapsPartner(drawn, table, k);
      PairUpMapsPartner(drawn, table, Partner(k));
      assert Partner(Partner(k)) == k;
    }
  }

  /** The reflector array before the pairing loop; every slot is overwritten. */
  function Blank(): (r: seq<int>)
    ensures |r| == N && forall k :: 0 <= k < N ==> r[k] == 0
  {
    seq(N, _ => 0)
  }

  /** The reflector the 13-round pairing builds. */
  function GeneratedReflector(draws: seq<int>): (r: seq<int>)
    requires IsPairingDraws(draws)
    ensures IsReflector(r)
  {
    PairingIsReflector(DrawnSymbols(draws), Blank());
    PairUp(DrawnSymbols(draws), Blank())
  }

  /** One round's inner loop: draw two symbols from `options`, erasing each
      from it. */
  method DrawPair(options: seq<int>, draws: seq<int>) returns (cons: seq<int>, remaining: seq<int>)
    requires 2 <= |draws| && IsPoolDraws(|options|, draws)
    ensures |cons| == 2 && |remaining| == |options| - 2
    ensures IsPoolDraws(|remaining|, draws[2..])
    ensures cons + Drawn(remaining, draws[2..]) == Drawn(options, draws)
  {
    cons := [];
    remaining := options;
    var j := 0;
    while j < 2
      invariant 0 <= j <= 2 && |cons| == j && |remaining| == |options| - j
      invariant IsPoolDraws(|remaining|, draws[j..])
      invariant cons + Drawn(remaining, draws[j..]) == Drawn(options, draws)
    {
      var rNum := draws[j];
      assert draws[j..][1..] == draws[j + 1..];
      cons := cons + [remaining[rNum]];
      remaining := Remove(remaining, rNum);
      j := j + 1;
    }
  }

  /** The two writes that wire a drawn pair to each other. */
  method Connect(table: array<int>, a: int, b: int)
    requires 0 <= a < table.Length && 0 <= b < table.Length
    modifies table
    ensures table[..] == Pair(old(table[..]), a, b)
  {
    table[a] := b;
    table[b] := a;
  }

  /** The reflector loop of `machine`: 13 rounds, each drawing two symbols
      from `options` and wiring them to each other. */
  method GenerateReflector(draws: seq<int>) returns (reflector: seq<int>)
    requires IsPairingDraws(draws)
    ensures reflector == GeneratedReflector(draws)
  {
    var table := new int[N](_ => 0);
    var options := Iota(N);
    ghost var drawn := DrawnSymbols(draws);
    assert table[..] == Blank();
    assert drawn[2 * 0..] == drawn;
    var i := 0;
    while i < 13
      invariant 0 <= i <= 13
      invariant |options| == N - 2 * i
      invariant IsPoolDraws(|options|, draws[2 * i..])
      invariant Drawn(options, draws[2 * i..]) == drawn[2 * i..]
      invariant AllSymbols(drawn[2 * i..])
      invariant PairUp(drawn[2 * i..], table[..]) == PairUp(drawn, Blank())
    {
      assert draws[2 * i..][2..] == draws[2 * (i + 1)..];
      var cons, rest := DrawPair(options, draws[2 * i..]);
      options := rest;
      ghost var tail := drawn[2 * i..];
      assert tail[2..] == drawn[2 * (i + 1)..];
      assert cons[0] == tail[0] && cons[1] == tail[1];
      Connect(table, cons[0], cons[1]);
      i := i + 1;
    }
    reflector := table[..];
  }

  /** The values `machine` draws, in the order it draws them: 25 for each of
      the five rotor shuffles, then 26 for the reflector. */
  datatype MachineDraws = MachineDraws(rotors: seq<seq<int>>, reflector: seq<int>) {
    predicate Valid() {
      && |rotors| == RotorCount
      && (forall r :: 0 <= r < RotorCount ==> IsShuffleDraws(N, rotors[r]))
      && IsPairingDraws(reflector)
    }
  }

  /** Rotor r of `machine`: the identity wiring shuffled with its 25 draws. */
  function GeneratedRotor(draws: MachineDraws, r: int): (t: seq<int>)
    requires draws.Valid() && 0 <= r < RotorCount
    ensures IsTable(t)
  {
    GeneratedRotorIsPermutation(draws, r);
    Shuffled(Iota(N), N, draws.rotors[r])
  }

  /** Every generated rotor is a permutation. */
  lemma GeneratedRotorIsPermutation(draws: MachineDraws, r: int)
    requires draws.Valid() && 0 <= r < RotorCount
    ensures IsPermutation(Shuffled(Iota(N), N, draws.rotors[r]))
  {
    IotaIsPermutation();
    ShuffledIsPermutation(Iota(N), N, draws.rotors[r]);
  }

  /** The definition `machine` writes: every rotor a permutation and the
      reflector an involution without fixed points. */
  function Generated(draws: MachineDraws): (d: Definition)
    requires draws.Valid()
    ensures d.WellFormed() && IsReflector(d.reflector)
    ensures forall k :: 0 <= k < RotorCount ==> IsPermutation(d.rotors[k])
  {
    var rotors := GeneratedRotors(draws, RotorCount);
    assert forall k :: 0 <= k < RotorCount ==> IsPermutation(rotors[k]) by {
      forall k | 0 <= k < RotorCount
        ensures IsPermutation(rotors[k])
      {
        GeneratedRotorsAt(draws, RotorCount, k);
        GeneratedRotorIsPermutation(draws, k);
      }
    }
    Definition(rotors, GeneratedReflector(draws.reflector))
  }

  /** The first n rotors `machine` generates, in file order. */
  function GeneratedRotors(draws: MachineDraws, n: int): (rotors: seq<seq<int>>)
    requires draws.Valid() && 0 <= n <= RotorCount
    ensures |rotors| == n && forall k :: 0 <= k < n ==> IsTable(rotors[k])
  {
    if n == 0 then [] else GeneratedRotors(draws, n - 1) + [GeneratedRotor(draws, n - 1)]
  }

  lemma {:induction false} GeneratedRotorsAt(draws: MachineDraws, n: int, k: int)
    requires draws.Valid() && 0 <= k < n <= RotorCount
    ensures GeneratedRotors(draws, n)[k] == GeneratedRotor(draws, k)
    decreases n
  {
    if k < n - 1 {
      GeneratedRotorsAt(draws, n - 1, k);
      GeneratedRotorsPrefix(draws, n, k);
    } else {
      GeneratedRotorsLast(draws, n);
    }
  }

  lemma GeneratedRotorsLast(draws: MachineDraws, n: int)
    requires draws.Valid() && 0 < n <= RotorCount
    ensures GeneratedRotors(draws, n)[n - 1] == GeneratedRotor(draws, n - 1)
  {
  }

  lemma GeneratedRotorsPrefix(draws: MachineDraws, n: int, k: int)
    requires draws.Valid() && 0 <= k < n - 1 && n <= RotorCount
    ensures GeneratedRotors(draws, n)[k] == GeneratedRotors(draws, n - 1)[k]
  {
  }

  /** Writing one more generated rotor appends its bytes. */
  lemma WriteGeneratedSnoc(draws: MachineDraws, i: int)
    requires draws.Valid() && 0 <= i < RotorCount
    ensures Write(GeneratedRotors(draws, i + 1)) == Write(GeneratedRotors(draws, i)) + TableBytes(GeneratedRotor(draws, i))
  {
    WriteSnoc(GeneratedRotors(draws, i), GeneratedRotor(draws, i));
  }

  /** The generated file is the five rotors' bytes followed by the
      reflector's. */
  lemma SerializeGenerated(draws: MachineDraws)
    requires draws.Valid()
    ensures Serialize(Generated(draws)) == Write(GeneratedRotors(draws, RotorCount)) + TableBytes(GeneratedReflector(draws.reflector))
  {
    var d := Generated(draws);
    WriteSnoc(d.rotors, d.reflector);
  }

  /** One rotor of `machine`: a copy of `connections` shuffled in place. */
  method ShuffledRotor(connections: seq<int>, draws: seq<int>) returns (rotor: seq<int>)
    requires |connections| == N && IsShuffleDraws(N, draws)
    ensures rotor == Shuffled(connections, N, draws)
  {
    var arr := new int[N](k requires 0 <= k < N => connections[k]);
    assert arr[..] == connections;
    Shuffle(arr, draws);
    rotor := arr[..];
  }

  /** The first loop of `machineSubcommand`: five shuffled copies of
      `connections`, written one after the other. */
  method WriteRotors(draws: MachineDraws) returns (file: seq<byte>)
    requires draws.Valid()
    ensures file == Write(GeneratedRotors(draws, RotorCount))
  {
    var connections := Iota(N);
    file := [];
    var i := 0;
    while i < RotorCount
      invariant 0 <= i <= RotorCount
      invariant file == Write(GeneratedRotors(draws, i))
    {
      var rotor := ShuffledRotor(connections, draws.rotors[i]);
      WriteGeneratedSnoc(draws, i);
      file := file + TableBytes(rotor);
      i := i + 1;
    }
  }

  /** `machineSubcommand` without the file: the 156 bytes it writes. */
  method MachineSubcommand(draws: MachineDraws) returns (file: seq<byte>)
    requires draws.Valid()
    ensures file == Serialize(Generated(draws))
  {
    file := WriteRotors(draws);
    var reflector := GenerateReflector(draws.reflector);
    SerializeGenerated(draws);
    file := file + TableBytes(reflector);
  }
}
