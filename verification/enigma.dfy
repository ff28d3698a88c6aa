/** The two subcommands end to end: `encode` reads a selection, a machine
    definition and a message and gives the ciphertext or the error it stops
    with; `machine` writes a definition that `encode` always accepts. */
module Enigma {
  import opened Wrappers
  import opened Errors
  import opened Tables
  import opened Rotors
  import opened Encoding
  import opened Validation
  import opened Codec
  import opened Selection
  import opened Generator

  /** The first rotor, from `k` on, whose forward table is not a
      permutation; RotorCount when there is none. */
  function FirstInvalidRotor(l: Loaded, k: nat): (j: nat)
    requires |l.rotors| == RotorCount && k <= RotorCount
    ensures k <= j <= RotorCount
    ensures j < RotorCount ==> !IsPermutation(l.rotors[j].fCons)
    ensures forall i :: k <= i < j ==> IsPermutation(l.rotors[i].fCons)
    decreases RotorCount - k
  {
    if k == RotorCount then k
    else if !IsPermutation(l.rotors[k].fCons) then k
    else FirstInvalidRotor(l, k + 1)
  }

  /** Reading and checking a definition file the way `encodeSubcommand`
      does: the size first, then the reflector, then the rotors in order. */
  function LoadDefinition(file: seq<byte>): (r: Result<Loaded, EnigmaError>)
    ensures |file| != DefinitionSize <==> r == Failure(WrongDefinitionSize(|file|))
    ensures r.Success? ==> |file| == DefinitionSize && r.value == Decode(file)
    ensures r.Success? ==> IsReflector(r.value.reflector) && forall k :: 0 <= k < RotorCount ==> r.value.rotors[k].Valid()
    ensures |file| == DefinitionSize && IsReflector(Decode(file).reflector) &&
            (forall k :: 0 <= k < RotorCount ==> IsPermutation(Decode(file).rotors[k].fCons)) ==>
              r == Success(Decode(file))
    ensures |file| == DefinitionSize ==>
              (r == Failure(InvalidReflector) <==> !IsReflector(Decode(file).reflector))
    ensures |file| == DefinitionSize && IsReflector(Decode(file).reflector) ==>
              forall k :: 0 <= k < RotorCount ==>
                (r == Failure(InvalidRotor(k + 1)) <==>
                   !IsPermutation(Decode(file).rotors[k].fCons) && forall i :: 0 <= i < k ==> IsPermutation(Decode(file).rotors[i].fCons))
  {
    if |file| != DefinitionSize then Failure(WrongDefinitionSize(|file|))
    else
      var loaded := Decode(file);
      if !IsReflector(loaded.reflector) then Failure(InvalidReflector)
      else
        var k := FirstInvalidRotor(loaded, 0);
        if k < RotorCount then Failure(InvalidRotor(k + 1))
        else
          assert forall k :: 0 <= k < RotorCount ==> loaded.rotors[k].Valid() by {
            forall k | 0 <= k < RotorCount
              ensures loaded.rotors[k].Valid()
            {
              assert loaded.rotors[k] == DecodedRotor(file, k);
              DecodedRotorValid(file, k);
            }
          }
          Success(loaded)
  }

  /** `encodeSubcommand` on a selection string, the definition file's bytes
      and the message: the ciphertext, or the first error met. */
  function EncodeSpec(selection: string, file: seq<byte>, message: string): (r: Result<string, EnigmaError>)
    ensures r.Success? ==> |r.value| == |message|
  {
    match ParseSelection(selection)
    case Failure(e) => Failure(e)
    case Success(config) =>
      match LoadDefinition(file)
      case Failure(e) => Failure(e)
      case Success(loaded) => Success(Encipher(Configure(config, loaded.rotors, loaded.reflector), message).0)
  }

  /** `encryptMessage` without the files: an Encoder built from the
      selection encodes the message. */
  method EncryptMessage(config: seq<Slot>, rotors: seq<Wiring>, reflector: seq<int>, message: string) returns (cipher: string)
    requires IsConfig(config)
    requires |rotors| == RotorCount && forall k :: 0 <= k < RotorCount ==> rotors[k].Valid()
    requires IsReflector(reflector)
    ensures cipher == Encipher(Configure(config, rotors, reflector), message).0
  {
    var encoder := new Encoder(config, rotors, reflector);
    cipher := encoder.Encode(message);
  }

  /** The rotor checks of `encodeSubcommand`: `verifyRotor` on each stored
      rotor in order, stopping at the first that fails. */
  method VerifyRotors(loaded: Loaded) returns (outcome: Outcome<EnigmaError>)
    requires |loaded.rotors| == RotorCount && forall k :: 0 <= k < RotorCount ==> |loaded.rotors[k].fCons| == N
    ensures outcome.Pass? <==> FirstInvalidRotor(loaded, 0) == RotorCount
    ensures outcome.Fail? ==> outcome.error == InvalidRotor(FirstInvalidRotor(loaded, 0) + 1)
  {
    var i := 0;
    while i < RotorCount
      invariant 0 <= i <= RotorCount
      invariant FirstInvalidRotor(loaded, 0) == FirstInvalidRotor(loaded, i)
    {
      outcome := VerifyRotor(loaded.rotors[i].fCons, i);
      if outcome.Fail? {
        return;
      }
      i := i + 1;
    }
    return Pass;
  }

  /** The definition half of `encodeSubcommand`: check the file size, read
      the definition, verify the reflector, then each rotor. */
  method ReadAndVerify(file: seq<byte>) returns (r: Result<Loaded, EnigmaError>)
    ensures r == LoadDefinition(file)
  {
    if |file| != DefinitionSize {
      return Failure(WrongDefinitionSize(|file|));
    }
    var loaded := ReadDefinition(file);
    var outcome := VerifyReflector(loaded.reflector);
    if outcome.Fail? {
      return Failure(outcome.error);
    }
    outcome := VerifyRotors(loaded);
    if outcome.Fail? {
      return Failure(outcome.error);
    }
    return Success(loaded);
  }

  /** `encodeSubcommand` step by step: match the selection, load and verify
      the definition, then encrypt. */
  method EncodeSubcommand(selection: string, file: seq<byte>, message: string) returns (r: Result<string, EnigmaError>)
    ensures r == EncodeSpec(selection, file, message)
  {
    var parsed := ParseSelection(selection);
    if parsed.Failure? {
      return Failure(parsed.error);
    }
    var config := parsed.value;
    var loaded := ReadAndVerify(file);
    if loaded.Failure? {
      return Failure(loaded.error);
    }
    var cipher := EncryptMessage(config, loaded.value.rotors, loaded.value.reflector, message);
    return Success(cipher);
  }

  /** Every file `machine` writes passes `encode`'s checks, and loads as the
      generated wirings together with their inverses. */
  lemma GeneratedDefinitionLoads(draws: MachineDraws)
    requires draws.Valid()
    ensures LoadDefinition(Serialize(Generated(draws))) == Success(WithInverses(Generated(draws)))
  {
    var d := Generated(draws);
    DecodeSerialize(d);
    var loaded := Decode(Serialize(d));
    assert forall k :: 0 <= k < RotorCount ==> loaded.rotors[k].fCons == d.rotors[k];
    assert FirstInvalidRotor(loaded, 0) == RotorCount;
  }

  /** With a generated machine file, every well-formed selection with
      distinct rotors encodes every message. */
  lemma GeneratedMachineEncodes(draws: MachineDraws, config: seq<Slot>, message: string)
    requires draws.Valid() && IsConfig(config) && DistinctRotors(config)
    ensures EncodeSpec(Format(config), Serialize(Generated(draws)), message).Success?
  {
    ParseFormat(config);
    GeneratedDefinitionLoads(draws);
  }

  /** Reciprocity end to end: encoding the ciphertext with the same selection
      and file gives back the message in lowercase. */
  lemma EncodeReciprocal(selection: string, file: seq<byte>, message: string)
    requires EncodeSpec(selection, file, message).Success?
    ensures EncodeSpec(selection, file, EncodeSpec(selection, file, message).value) == Success(LowerString(message))
  {
    var config := ParseSelection(selection).value;
    var loaded := LoadDefinition(file).value;
    EncipherReciprocal(Configure(config, loaded.rotors, loaded.reflector), message);
  }
}
