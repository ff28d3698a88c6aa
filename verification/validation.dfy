/** The structural checks run on a loaded machine definition. */
module Validation {
  import opened Tables
  import opened Wrappers
  import opened Errors

  /** `std::find`: the first index holding `x`, or |values| (the end) if none. */
  function Find(values: seq<int>, x: int): (k: nat)
    ensures k <= |values|
    ensures k < |values| ==> values[k] == x
    ensures forall j :: 0 <= j < k ==> values[j] != x
  {
    if values == [] then 0
    else if values[0] == x then 0
    else 1 + Find(values[1..], x)
  }

  /** `values` lists, once each, the symbols not in `used`. */
  ghost predicate Unused(values: seq<int>, used: seq<int>) {
    && (forall a, b :: 0 <= a < b < |values| ==> values[a] != values[b])
    && (forall v :: v in values <==> IsSymbol(v) && v !in used)
  }

  /** Erasing the entry found for `num` leaves the symbols unused once `num`
      is used too. */
  lemma StrikeOff(values: seq<int>, used: seq<int>, num: int, it: nat)
    requires Unused(values, used) && it < |values| && values[it] == num
    ensures IsSymbol(num) && num !in used
    ensures Unused(values[..it] + values[it + 1..], used + [num])
  {
    var rest := values[..it] + values[it + 1..];
    assert num in values;
    forall v | v in values && v != num
      ensures v in rest
    {
      var a :| 0 <= a < |values| && values[a] == v;
      if a < it { assert rest[a] == v; } else { assert rest[a - 1] == v; }
    }
    forall v | v in rest
      ensures v in values && v != num
    {
      var a :| 0 <= a < |rest| && rest[a] == v;
      if a < it { assert values[a] == v; } else { assert values[a + 1] == v; }
    }
  }

  /** `verifyRotor`: strikes each entry off a list of the unused symbols and
      fails on the first entry that is not there. Rotor `i` (0-based) is
      reported as number i + 1. */
  method VerifyRotor(rotor: seq<int>, i: int) returns (r: Outcome<EnigmaError>)
    requires |rotor| == N
    ensures r.Pass? <==> IsPermutation(rotor)
    ensures r.Fail? ==> r.error == InvalidRotor(i + 1)
  {
    var values := Iota(N);
    forall v | IsSymbol(v)
      ensures v in values
    {
      assert values[v] == v;
    }
    var k := 0;
    while k < N
      invariant 0 <= k <= N
      invariant |values| == N - k
      invariant Unused(values, rotor[..k])
      invariant forall a :: 0 <= a < k ==> IsSymbol(rotor[a])
      invariant forall a, b :: 0 <= a < b < k ==> rotor[a] != rotor[b]
    {
      var num := rotor[k];
      var it := Find(values, num);
      if it < |values| {
        StrikeOff(values, rotor[..k], num, it);
        values := values[..it] + values[it + 1..];
      } else {
        assert num !in values;
        return Fail(InvalidRotor(i + 1));
      }
      assert rotor[..k + 1] == rotor[..k] + [num];
      k := k + 1;
    }
    assert rotor[..N] == rotor;
    forall v | 0 <= v < N
      ensures v in rotor
    {
      assert v !in values;
    }
    return Pass;
  }

  /** `verifyReflector`: walks the table with a counter and fails at the first
      entry that is out of range, a fixed point, or not mapped back. */
  method VerifyReflector(reflector: seq<int>) returns (r: Outcome<EnigmaError>)
    requires |reflector| == N
    ensures r.Pass? <==> IsReflector(reflector)
    ensures r.Fail? ==> r.error == InvalidReflector
  {
    var i := 0;
    while i < N
      invariant 0 <= i <= N
      invariant forall j :: 0 <= j < i ==>
                  IsSymbol(reflector[j]) && reflector[reflector[j]] == j && reflector[j] != j
    {
      var num := reflector[i];
      if !IsSymbol(num) || i != reflector[num] || num == i {
        return Fail(InvalidReflector);
      }
      i := i + 1;
    }
    return Pass;
  }
}
