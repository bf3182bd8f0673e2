/** The single-photon values both parties exchange: two bits of basis above one bit of value. */
module Qubits {

  // A stored photon: bit 0 is the key bit, bits 1 and 2 are the basis.
  type Qubit = bv8

  const BASIS_MASK: bv8 := 0x06
  const VALUE_MASK: bv8 := 0x01

  const RETILINEAR: bv8 := 0x00
  const DIAGONAL: bv8 := 0x02
  const CIRCULAR: bv8 := 0x04
  const INVALID_BASIS: bv8 := 0x06

  /** The basis of a qubit, with the key bit discarded. */
  function Base(q: Qubit): (b: bv8)
    ensures b in {RETILINEAR, DIAGONAL, CIRCULAR, INVALID_BASIS}
  {
    q & BASIS_MASK
  }

  /** The key bit of a qubit, with the basis discarded. */
  predicate BitValue(q: Qubit) {
    q & VALUE_MASK != 0
  }

  /** A photon seen at a time, measured as a qubit. */
  datatype Detection = Detection(time: nat, value: Qubit)

  /** How many of the indexes name one of n qubits. */
  function CountBelow(indexes: seq<nat>, n: nat): (m: nat)
    ensures m <= |indexes|
  {
    if indexes == [] then 0
    else CountBelow(indexes[..|indexes| - 1], n) + if indexes[|indexes| - 1] < n then 1 else 0
  }

  // The key bit is the last binary digit, the basis the two before it.
  lemma QubitDigits(q: Qubit)
    ensures BitValue(q) <==> q % 2 == 1
    ensures Base(q) == q / 2 % 4 * 2
  {
  }

  // The seven BB84 codes: Zero and One, Pos and Neg, Right and Left, and the invalid one.
  lemma CodesOfBases(q: Qubit)
    requires q <= 6
    ensures Base(q) == RETILINEAR <==> q in {0, 1}
    ensures Base(q) == DIAGONAL <==> q in {2, 3}
    ensures Base(q) == CIRCULAR <==> q in {4, 5}
    ensures Base(q) == INVALID_BASIS <==> q == 6
    ensures BitValue(q) <==> q in {1, 3, 5}
  {
  }

  // Basis and key bit together determine every one of the seven BB84 codes.
  lemma BaseAndBitDetermineCode(p: Qubit, q: Qubit)
    requires p <= 6 && q <= 6
    ensures p == q <==> Base(p) == Base(q) && BitValue(p) == BitValue(q)
  {
  }
}
