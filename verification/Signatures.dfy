/** Signature elements: a byte pattern in which every bit is either fixed or free. */
module Signatures {

  /** 1u << digit */
  function DigitPlace(digit: nat): bv8
    requires digit < 8
  {
    (1 as bv8) << digit
  }

  datatype ElementFields = Element(value: bv8, mask: bv8) {

    predicate All() { mask == 0xFF }

    predicate None() { mask == 0 }

    predicate Has(digit: nat)
      requires digit < 8
    {
      mask & DigitPlace(digit) != 0
    }

    predicate At(digit: nat)
      requires digit < 8
    {
      value & DigitPlace(digit) != 0
    }

    /** operator== with a byte. */
    predicate Matches(b: bv8) { b & mask == value }
  }

  /** The fields are private, and every constructor keeps the value within the mask. */
  type SignatureElement = e: ElementFields | e.value & e.mask == e.value witness Element(0, 0)

  type Signature = seq<SignatureElement>

  const WILDCARD: SignatureElement := Element(0, 0)

  function Exact(value: bv8): (e: SignatureElement)
    ensures e.All()
    ensures forall b: bv8 :: e.Matches(b) <==> b == value
  {
    Element(value, 0xFF)
  }

  function Masked(value: bv8, mask: bv8): (e: SignatureElement)
    ensures forall b: bv8 :: e.Matches(b) <==> (b ^ value) & mask == 0
  {
    Element(value & mask, mask)
  }

  /** What the scanner's documentation asks of a signature: some byte of it is fully masked. */
  predicate Scannable(sig: Signature) {
    exists k :: 0 <= k < |sig| && sig[k].All()
  }
}
