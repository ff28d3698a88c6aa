/** The ways an encode or machine invocation can fail. Each one ends the invocation
    without producing any ciphertext. */
module Errors {

  datatype EnigmaError =
    | IncorrectRotorConfig        // the selection string does not match R:P:N,R:P:N,R:P:N
    | RotorUsedTwice              // two slots of the selection name the same rotor
    | WrongDefinitionSize(size: int)  // the definition file is not 156 bytes long
    | InvalidReflector            // the reflector is not a fixed-point-free involution
    | InvalidRotor(number: int)   // rotor `number` (1-based) is not a permutation
}
