# Enigma rotor machine in Dafny

A model of `src/enigma.cpp`, a simulator of a three-rotor, reflector-based
cipher machine in the style of the Enigma, with a command line of two
subcommands:

- `machine` generates a machine definition, a 156-byte file holding five
  random rotor wirings (26 bytes each) followed by a random reflector
  (26 bytes);
- `encode` reads a rotor selection `R:P:N,R:P:N,R:P:N` (which stored rotor
  goes in each of the three slots, its starting position and its notch),
  reads and validates a definition file, and enciphers a message.

The model follows the source's structure:

| module (file) | what it holds |
|---|---|
| `Tables` (tables.dfy) | the alphabet of N = 26 symbols, permutations, inverse tables, reflectors |
| `Rotors` (rotor.dfy) | `Wheel`, the value of a `Rotor<26>`, with `GetFCon`, `GetBCon`, `Rotate`; the class `Rotor`, whose `Rotate` method updates `cIndex` in place |
| `Encoding` (encoder.dfy) | the value model of an `Encoder` (`Machine`, `Step`, `EncipherChar`, `Encipher`) and the class `Encoder` with `Index`, `EncodeChar` and `Encode` proved against it |
| `Validation` (validation.dfy) | `verifyRotor` and `verifyReflector` as loops, each proved to accept exactly the property it checks |
| `Codec` (codec.dfy) | the 156-byte layout: writing, reading (including the `bCons[byte] = j` inverse built while reading) and the round trips |
| `Generator` (generator.dfy) | the `machine` subcommand: Fisher-Yates `shuffle` on an array, the 13-round reflector pairing, the bytes written |
| `Selection` (selection.dfy) | the selection pattern as a hand-written matcher, with round-trip lemmas against the string a configuration is written as |
| `Enigma` (enigma.dfy) | `encode` end to end (selection, size check, decode, reflector check, rotor checks, encryption) and the whole-system lemmas |
| `Wrappers`, `Errors` | `Option`, `Result`, `Outcome` and the five errors the source reports |

Randomness is a parameter. `MachineDraws` holds the values that the
`uniform_int_distribution` calls would return: 25 per rotor shuffle and 26
for the reflector, each within the range the source asks for. Every
statement about `machine` holds for every such sequence of draws, which
covers every seed. The messages the source prints or throws become the
`EnigmaError` values `IncorrectRotorConfig`, `RotorUsedTwice`,
`WrongDefinitionSize(size)`, `InvalidReflector` and `InvalidRotor(i)`.

Main results:

- Backward substitution undoes forward substitution, wheel by wheel and
  through all three wheels. The letter map of every machine state is
  therefore an involution without fixed points, so no letter enciphers to
  itself.
- Reciprocity: a machine in the same starting state turns the ciphertext
  back into the lowercased plaintext. End to end, `encode` with the same
  selection and file is its own inverse up to lowercasing.
- The shape of `encode`'s output: same length; non-letters unchanged and
  no step for them; letters of either case become lowercase letters other
  than their own lowercase form; one step per letter. The stepping is an odometer: after
  26 letters wheel 0 is back where it started and wheel 1 has moved exactly
  one place.
- `verifyRotor` passes exactly the permutations of 0..25, and
  `verifyReflector` exactly the fixed-point-free involutions.
- Everything `machine` writes has 156 bytes and passes every check of
  `encode`. Every well-formed selection with distinct rotors then encodes
  every message.
- Reading a written definition gives back the same tables, each rotor with
  its inverse, and every 156-byte file of symbols is the writing of what it
  reads as.
- The selection is accepted exactly when it is the written form of three
  in-range slots with distinct rotors. A string outside the pattern is
  refused as an incorrect configuration.

## Model

| member | source | states |
|---|---|---|
| Tables.LastWriter | src/enigma.cpp:287-298 | the slot the read loop's `bCons[byte] = j` leaves for value v is the last j with fCons[j] == v, or the initial 0 when v never occurs |
| Tables.InverseTable | src/enigma.cpp:295 | the backward table has 26 entries, entry v being the last writer of v |
| Tables.InverseOfPermutation | src/enigma.cpp:295 | for a permutation, the table built by `bCons[fCons[j]] = j` is its inverse: b[f[j]] == j for every j |
| Tables.RightInverse | src/enigma.cpp:295 | that inverse also undoes the permutation from the other side: f[b[v]] == v |
| Tables.IotaIsPermutation | src/enigma.cpp:203-207 | the initial `connections` 0..25 is a permutation |
| Rotors.Wheel.GetFCon | src/enigma.cpp:47-49 | forward substitution of a contact is a contact (0..25) |
| Rotors.Wheel.GetBCon | src/enigma.cpp:51-63 | backward substitution, with its explicit wrap-around of negative differences, is a contact |
| Rotors.Wheel.Rotate | src/enigma.cpp:65-71 | the new offset is cIndex + 1, wrapping from 25 to 0; the carry is true exactly when the old offset equals the notch; nothing but cIndex changes |
| Rotors.RotateKeepsValid | src/enigma.cpp:65-71 | turning a valid wheel leaves it valid |
| Rotors.BConUndoesFCon | src/enigma.cpp:47-63 | with bCons the inverse of fCons and any offset, getBCon(getFCon(x)) == x |
| Rotors.FConUndoesBCon | src/enigma.cpp:47-63 | for a valid wheel, getFCon(getBCon(y)) == y |
| Rotors.Rotor.constructor | src/enigma.cpp:33-39 | the new Rotor holds the given tables, offset and notch |
| Rotors.Rotor.GetFCon | src/enigma.cpp:47-49 | the Rotor's forward substitution is a contact |
| Rotors.Rotor.GetBCon | src/enigma.cpp:51-63 | the Rotor's backward substitution is a contact |
| Rotors.Rotor.Rotate | src/enigma.cpp:65-71 | the object's new state and the returned carry are those of `Wheel.Rotate` on its old state |
| Encoding.WheelFor | src/enigma.cpp:107 | slot (R, P, N) selects stored rotor R-1 with cIndex P-1 and iIndex N-1, valid when that rotor is |
| Encoding.Configure | src/enigma.cpp:105-111 | wheel i is WheelFor(config[i]) and the reflector is the loaded one; valid rotors and a reflector give a valid machine |
| Encoding.Step | src/enigma.cpp:113-119 | wheel 0 always turns, wheel 1 turns only on wheel 0's carry, wheel 2 only when both carried; the reflector is kept |
| Encoding.StepKeepsSetup | src/enigma.cpp:113-119 | a step changes nothing but the wheels' offsets |
| Encoding.StepValid | src/enigma.cpp:113-119 | a step keeps a valid machine valid |
| Encoding.StepsKeepSetup | src/enigma.cpp:121-145 | however many letters are enciphered, only the offsets change |
| Encoding.StepsValid | src/enigma.cpp:121-145 | any number of steps keeps a valid machine valid |
| Encoding.Forward | src/enigma.cpp:129-131 | the forward pass through the wheels maps a contact to a contact |
| Encoding.Backward | src/enigma.cpp:133-135 | the backward pass through the wheels maps a contact to a contact |
| Encoding.Reflect | src/enigma.cpp:95-97 | the reflected contact is a contact; with a valid reflector it differs from its input and reflects back to it |
| Encoding.MapLetter | src/enigma.cpp:129-135 | the substitution of one letter maps a contact to a contact |
| Encoding.BackwardSnoc | src/enigma.cpp:133-135 | coming back through ws + [w] is going through w backwards and then through ws |
| Encoding.BackwardUndoesForward | src/enigma.cpp:129-135 | coming back through the wheels undoes going forward through them |
| Encoding.ForwardUndoesBackward | src/enigma.cpp:129-135 | going forward undoes coming back |
| Encoding.MapLetterIsReciprocal | src/enigma.cpp:129-135 | in every state the letter map is its own inverse and has no fixed point |
| Encoding.ToLower | src/enigma.cpp:124 | the result is a lowercase letter exactly when the input is a letter of either case; anything else is unchanged |
| Encoding.EncipherChar | src/enigma.cpp:123-141 | a letter becomes a lowercase letter other than its own lowercase and the machine steps once; any other character is copied and nothing moves |
| Encoding.Encipher | src/enigma.cpp:121-145 | the ciphertext has the message's length and the final machine is valid |
| Encoding.EncipherSnoc | src/enigma.cpp:123-142 | one more character appends its encoding in the state reached so far |
| Encoding.LowerString | src/enigma.cpp:124 | same length, each character lowercased |
| Encoding.EncipherSteps | src/enigma.cpp:137-138 | the final state is the start stepped once per letter of the message |
| Encoding.EncipherAt | src/enigma.cpp:123-141 | ciphertext character i is the encoding of message[i] in the state after message[..i] |
| Encoding.EncipherShape | src/enigma.cpp:121-145 | same length; non-letters unchanged in place; letters of either case become lowercase letters other than their lowercase; one step per letter |
| Encoding.EncipherCharReciprocal | src/enigma.cpp:123-141 | enciphering a character's output in the same state gives the lowercased character and the same next state |
| Encoding.EncipherReciprocal | src/enigma.cpp:121-145 | a machine in the same starting state turns the ciphertext back into the lowercased message and ends in the same state |
| Encoding.FastWheelStep | src/enigma.cpp:113-114 | a step moves wheel 0 from x mod 26 to x + 1 mod 26 and keeps its notch |
| Encoding.CarryStep | src/enigma.cpp:114-115 | a step moves wheel 1 one place exactly when wheel 0 is at its notch |
| Encoding.FastWheel | src/enigma.cpp:113-119 | after n steps wheel 0 has moved n places, mod 26, with the same notch |
| Encoding.Odometer | src/enigma.cpp:113-119 | after n steps wheel 1 has moved once for each time wheel 0 was at its notch |
| Encoding.PassesWithinTurn | src/enigma.cpp:113-119 | within n <= 26 steps wheel 0 is at its notch once if its distance to the notch is below n, otherwise never |
| Encoding.NotchDistance | src/enigma.cpp:66-68 | wheel 0 reaches notch p after j < 26 steps from a exactly when (p - a) mod 26 == j |
| Encoding.FullTurn | src/enigma.cpp:113-119 | after 26 steps wheel 0 is back at its offset and wheel 1 has moved exactly one place |
| Encoding.StepExample | src/enigma.cpp:113-119 | notches 5,5,5 from offsets 0,0,0: offsets 5,0,0 after five steps and 6,1,0 after six |
| Encoding.Encoder.constructor | src/enigma.cpp:105-111 | three distinct fresh Rotor objects whose state is Configure(config, rotors, reflector) |
| Encoding.Encoder.Index | src/enigma.cpp:113-119 | the rotors' new state is Step of the old one |
| Encoding.Encoder.Substitute | src/enigma.cpp:126-135 | the two loops and the reflection compute MapLetter in the current state |
| Encoding.Encoder.EncodeChar | src/enigma.cpp:123-141 | one loop iteration: the output character and the new state are EncipherChar of the old state |
| Encoding.Encoder.Encode | src/enigma.cpp:121-145 | the ciphertext and the new rotor state are Encipher of the old state and the message |
| Validation.Find | src/enigma.cpp:347 | the first index holding x, or the end when no entry holds it |
| Validation.StrikeOff | src/enigma.cpp:346-350 | erasing a found entry keeps `values` exactly the unused symbols, each once |
| Validation.VerifyRotor | src/enigma.cpp:339-354 | passes exactly when the 26 entries are a permutation of 0..25; a failure reports rotor i + 1 |
| Validation.VerifyReflector | src/enigma.cpp:356-371 | passes exactly when every entry is in range, maps back to its index and is not a fixed point |
| Codec.TableBytes | src/enigma.cpp:225-227 | 26 bytes, byte j the table's entry j |
| Codec.Write | src/enigma.cpp:221-228 | 26 bytes per table |
| Codec.WriteSnoc | src/enigma.cpp:221-228 | writing one more table appends its bytes |
| Codec.WriteAt | src/enigma.cpp:221-228 | byte 26k + j of the written tables is entry j of table k |
| Codec.Serialize | src/enigma.cpp:221-252 | a definition is written as exactly 156 bytes |
| Codec.SerializedTable | src/enigma.cpp:221-252 | bytes 26k..26k+25 hold rotor k for k < 5 and the reflector for k = 5 |
| Codec.SerializedAt | src/enigma.cpp:221-252 | byte p of a written definition is entry p mod 26 of table p / 26 |
| Codec.Block | src/enigma.cpp:287-294 | block k of the file is the 26 bytes from 26k, as numbers |
| Codec.DecodedRotor | src/enigma.cpp:287-296 | a loaded rotor's forward table is its block |
| Codec.DecodedRotorValid | src/enigma.cpp:295 | a block that is a permutation loads as a valid rotor, its backward table the inverse |
| Codec.Decode | src/enigma.cpp:279-298 | the file loads as five rotors and a reflector |
| Codec.DecodeSerialize | src/enigma.cpp:279-298 | reading back a written definition gives the same tables, each rotor with its inverse; a permutation comes back valid |
| Codec.SerializeDecode | src/enigma.cpp:221-252 | every 156-byte file of symbols is the writing of the tables it reads as |
| Codec.DecodedWellFormed | src/enigma.cpp:287-298 | a file of symbols reads as well-formed tables |
| Codec.DecodedAt | src/enigma.cpp:287-298 | byte p is entry p mod 26 of loaded table p / 26 |
| Codec.ReadRotor | src/enigma.cpp:287-296 | the read loop over one block gives DecodedRotor, bCons built by the writes `bCons[byte] = j` |
| Codec.ReadReflector | src/enigma.cpp:291-292 | the last pass stores the reflector block as read |
| Codec.ReadDefinition | src/enigma.cpp:279-298 | the whole read loop gives Decode of the file |
| Codec.DecodeOf | src/enigma.cpp:287-298 | five rotors read block by block and the reflector block make up Decode of the file |
| Generator.Swap | src/enigma.cpp:328 | the swap keeps the length |
| Generator.Shuffled | src/enigma.cpp:323-330 | the shuffle keeps the length |
| Generator.SwapUpdates | src/enigma.cpp:328 | the swap is the two element writes `swap` performs |
| Generator.SwapRearranges | src/enigma.cpp:328 | a swap keeps the multiset of elements |
| Generator.ShuffledRearranges | src/enigma.cpp:323-330 | a shuffle keeps the multiset of elements |
| Generator.SwapKeepsPermutation | src/enigma.cpp:328 | a swap of a permutation is a permutation |
| Generator.ShuffledIsPermutation | src/enigma.cpp:323-330 | every shuffle of a permutation is a permutation, whatever the draws |
| Generator.ShuffledUnfold | src/enigma.cpp:325-329 | one iteration swaps position i-1 with the draw and leaves the rest to the remaining draws |
| Generator.SwapEntries | src/enigma.cpp:328 | the array becomes Swap of its old contents |
| Generator.Shuffle | src/enigma.cpp:323-330 | the array becomes Shuffled of its old contents with the given draws |
| Generator.Remove | src/enigma.cpp:243 | one element shorter; of distinct elements, it keeps every element but the erased one |
| Generator.Drawn | src/enigma.cpp:238-243 | as many symbols as draws, each from the pool |
| Generator.DrawnIsArrangement | src/enigma.cpp:236-244 | drawing without replacement gives distinct symbols, and all of them when the pool is used up |
| Generator.Pair | src/enigma.cpp:246-247 | the two writes keep the table's length |
| Generator.PairUp | src/enigma.cpp:236-248 | pairing keeps the table's length |
| Generator.PairUpKeeps | src/enigma.cpp:236-248 | a slot no pair names keeps its value |
| Generator.PairUpMapsPartner | src/enigma.cpp:246-247 | after pairing each drawn symbol maps to its partner in its pair |
| Generator.DrawnSymbols | src/enigma.cpp:236-244 | the 26 draws take every symbol exactly once |
| Generator.PairingIsReflector | src/enigma.cpp:236-248 | pairing an arrangement of all symbols gives a fixed-point-free involution |
| Generator.Blank | src/enigma.cpp:230 | the table before pairing, all zeros, 26 long |
| Generator.GeneratedReflector | src/enigma.cpp:230-248 | every reflector the pairing builds is a fixed-point-free involution |
| Generator.DrawPair | src/enigma.cpp:238-244 | the two drawn symbols are the next two of the drawing order, and two options are erased |
| Generator.Connect | src/enigma.cpp:246-247 | the array becomes Pair of its old contents |
| Generator.GenerateReflector | src/enigma.cpp:230-248 | the loop builds GeneratedReflector of the draws |
| Generator.GeneratedRotor | src/enigma.cpp:221-223 | rotor r, a shuffle of the identity, is a table |
| Generator.GeneratedRotorIsPermutation | src/enigma.cpp:221-223 | every generated rotor is a permutation |
| Generator.Generated | src/enigma.cpp:221-248 | the generated definition has five permutations and a fixed-point-free involution |
| Generator.GeneratedRotors | src/enigma.cpp:221-228 | the first n generated rotors, each a table |
| Generator.GeneratedRotorsAt | src/enigma.cpp:221-228 | entry k of the first n rotors is rotor k |
| Generator.WriteGeneratedSnoc | src/enigma.cpp:221-228 | writing one more rotor appends its bytes |
| Generator.SerializeGenerated | src/enigma.cpp:221-252 | the file is the five rotors' bytes followed by the reflector's |
| Generator.ShuffledRotor | src/enigma.cpp:222-223 | a copy of `connections` shuffled in place is Shuffled of it |
| Generator.WriteRotors | src/enigma.cpp:221-228 | the first loop writes the five generated rotors' bytes |
| Generator.MachineSubcommand | src/enigma.cpp:193-257 | the bytes written are the serialisation of the generated definition |
| Selection.Number | src/enigma.cpp:260 | the number alternatives `2[0-6]`, `1[0-9]`, `[1-9]` at the front of the input: a match is a value in 1..26 (what `stoi` gives) followed by a strictly shorter suffix of the input |
| Selection.SlotPrefix | src/enigma.cpp:260 | the group `([1-5]):(number):(number)` at the front of the input: a match is an in-range slot followed by a strictly shorter suffix of the input |
| Selection.NextSlot | src/enigma.cpp:260 | `,` and a slot at the front of the input: a match is an in-range slot followed by a strictly shorter suffix of the input |
| Selection.Grammar | src/enigma.cpp:260-270 | `regex_match` of the whole pattern with its nine captures converted by `stoi`: a match is three in-range slots |
| Selection.ParseSelection | src/enigma.cpp:260-275 | a success is three in-range slots with distinct rotors, written exactly as the input; a failure is one of the two selection errors |
| Selection.NumberShow | src/enigma.cpp:260 | the number alternative reads the written form of 1..26 back |
| Selection.NumberSound | src/enigma.cpp:260 | whatever the number alternative matches is the written form of a value in 1..26 |
| Selection.SlotOf | src/enigma.cpp:260 | `R:P:N` matches once R and the two numbers do |
| Selection.SlotShow | src/enigma.cpp:260 | a slot's written form matches back to the slot |
| Selection.SlotSound | src/enigma.cpp:260 | whatever matches a slot is the written form of an in-range slot |
| Selection.NextSlotShow | src/enigma.cpp:260 | `,` and a slot's written form match back to the slot |
| Selection.NextSlotSound | src/enigma.cpp:260 | whatever matches `,` and a slot is that written form |
| Selection.GrammarOf | src/enigma.cpp:260-263 | the pattern matches once its three slots do, with nothing left |
| Selection.GrammarFormat | src/enigma.cpp:260-270 | every configuration's string is accepted by the pattern and read back as that configuration |
| Selection.GrammarSound | src/enigma.cpp:260-270 | everything the pattern accepts is the string of an in-range configuration |
| Selection.ParseFormat | src/enigma.cpp:263-275 | a configuration's string is accepted exactly when its rotors are distinct, and is refused as a rotor used twice otherwise |
| Selection.IncorrectExactlyOutsidePattern | src/enigma.cpp:263-318 | a selection is refused as incorrect exactly when it is no configuration's string |
| Enigma.FirstInvalidRotor | src/enigma.cpp:302-306 | the first rotor, in order, whose table is not a permutation, with every earlier one a permutation |
| Enigma.LoadDefinition | src/enigma.cpp:279-313 | a wrong size is refused with that size before anything is read; then a bad reflector; then the first bad rotor, 1-based; a 156-byte file whose reflector and five rotors all pass is accepted as Decode of the file, and a success is exactly that |
| Enigma.EncodeSpec | src/enigma.cpp:259-321 | a successful encode gives a ciphertext as long as the message |
| Enigma.EncryptMessage | src/enigma.cpp:387-389 | an Encoder built from the selection encodes the message as Encipher of the configured machine |
| Enigma.VerifyRotors | src/enigma.cpp:302-306 | passes exactly when all five rotors are permutations; otherwise reports the first failing rotor, 1-based |
| Enigma.ReadAndVerify | src/enigma.cpp:279-313 | the size check, the read, the reflector check and the rotor checks give LoadDefinition of the file |
| Enigma.EncodeSubcommand | src/enigma.cpp:259-321 | the steps of `encodeSubcommand` give EncodeSpec of the selection, file and message |
| Enigma.GeneratedDefinitionLoads | src/enigma.cpp:193-306 | every file `machine` writes passes all checks and loads as the generated tables with their inverses |
| Enigma.GeneratedMachineEncodes | src/enigma.cpp:193-321 | with a generated file, every well-formed selection with distinct rotors encodes every message |
| Enigma.EncodeReciprocal | src/enigma.cpp:373-402 | encoding the ciphertext with the same selection and file gives back the message in lowercase |

## Left out

- The command line (CLI11 and `main`, src/enigma.cpp:148-191) is not modelled. The two subcommands are modelled on their arguments instead.
- File and console I/O is not modelled: opening and writing files, `getFileSize`, reading the message from stdin or a file, and printing or writing the ciphertext. The definition file is a `seq<byte>`, the message and ciphertext are strings, and `MachineSubcommand` returns the bytes it would write.
- `mt19937`, `random_device` and `uniform_int_distribution` are not modelled. Their outputs are the `MachineDraws` parameter, each draw within the range the source asks for. The model therefore does not say which draws a particular seed produces; a seed fixes the draws and the output is a function of them.
- The `std::regex` engine is not modelled. The pattern is a hand-written matcher; `Selection.GrammarFormat` and `Selection.GrammarSound` tie it to the set of strings the pattern describes.
- The plugboard option is accepted but never used by the source, so there is nothing to model.
- `Rotor::shuffle` (src/enigma.cpp:73-79) is never called and is not modelled. Neither are the default constructors (src/enigma.cpp:41-44, 91-93), which only exist for array default-initialisation.
- Out-of-range bytes are undefined behaviour in the source, and the model does not reproduce what they do. The read loop writes `bCons[byte] = j` for every byte, out of bounds when the byte is not a symbol. With a signed `char` and each rotor's two tables stored back to back, byte 230 + j at position j is read as j - 26, and the write lands on `fCons[j]` itself. A rotor such as 0, 1, ..., 24 followed by 0xFF can then pass `verifyRotor` with a `bCons` slot never written. The model performs the write only for symbols and refuses such a rotor with `InvalidRotor`. `verifyReflector` indexes `reflector[num]` without a range check; the model refuses an out-of-range entry at that point.
- `bCons` slots the read loop never writes are uninitialised in the source and are 0 in the model. In the model only rotors that are not permutations have such slots, and validation rejects them. In the source, the out-of-bounds writes above can leave such a slot in a rotor that passes validation.
- The reflector array is uninitialised before the pairing loop in the source and all zeros in the model. All 26 slots are written before it is used.
- Bytes above 127 are read as negative `char` values in the source where `char` is signed, and as 128..255 in the model. In the model neither is a symbol and validation rejects the file. In the source the outcome is undefined, as described above.
- Exceptions become `Failure` values, and returning 1 after printing also becomes a `Failure`. The text of the messages is not modelled, only which error occurs; `WrongDefinitionSize` carries the size the message prints.
- Characters are Dafny `char` values. `tolower` is modelled for 'A'..'Z' only, as in the "C" locale; locale-dependent case mapping and `tolower` on negative `char` values are not modelled.
- C++ `%` truncates toward zero and Dafny's is Euclidean. Every `%` in the modelled code has a non-negative left operand, where the two agree.
