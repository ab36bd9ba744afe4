/** The vector operations the scanners use, as functions on sequences of byte lanes. */
module Lanes {
  import opened Words
  import opened Signatures
  import opened Matching

  type Vector = seq<bv8>

  /** A load of V bytes. The precondition is the memory safety of the load. */
  function Load(span: Span, a: nat, V: nat): (v: Vector)
    requires span.base <= a && a + V <= span.End()
    ensures |v| == V
    ensures forall k :: 0 <= k < V ==> v[k] == span.At(a + k)
  {
    span.bytes[a - span.base..a - span.base + V]
  }

  /** Lane-wise comparison with a repeated byte. */
  function CmpEq(byte: bv8, v: Vector): (lanes: seq<bool>)
    ensures |lanes| == |v|
    ensures forall k :: 0 <= k < |v| ==> lanes[k] == (v[k] == byte)
  {
    seq(|v|, k requires 0 <= k < |v| => v[k] == byte)
  }

  function AndLanes(a: seq<bool>, b: seq<bool>): (lanes: seq<bool>)
    requires |a| == |b|
    ensures |lanes| == |a|
    ensures forall k :: 0 <= k < |a| ==> lanes[k] == (a[k] && b[k])
  {
    seq(|a|, k requires 0 <= k < |a| => a[k] && b[k])
  }

  /** One bit per lane, lane 0 in the lowest bit. */
  function MoveMask(lanes: seq<bool>): nat {
    if lanes == [] then 0 else 2 * MoveMask(lanes[1..]) + if lanes[0] then 1 else 0
  }

  lemma {:induction false} MoveMaskBit(lanes: seq<bool>, i: nat)
    ensures Bit(MoveMask(lanes), i) <==> i < |lanes| && lanes[i]
  {
    if lanes == [] {
      ZeroHasNoBits(i);
    } else if i > 0 {
      MoveMaskBit(lanes[1..], i - 1);
    }
  }

  /** ((data ^ bytes) & mask) == 0 in all lanes. */
  predicate TestZero(data: Vector, bytes: Vector, mask: Vector)
    requires |data| == |bytes| == |mask|
  {
    forall k :: 0 <= k < |data| ==> (data[k] ^ bytes[k]) & mask[k] == 0
  }

  /** The signature in the low lanes of two vectors, and zero in the lanes above it. */
  ghost predicate Padded(sig: Signature, V: nat, bytes: Vector, mask: Vector) {
    && |sig| <= V && |bytes| == V && |mask| == V
    && (forall k :: 0 <= k < |sig| ==> bytes[k] == sig[k].value && mask[k] == sig[k].mask)
    && (forall k :: |sig| <= k < V ==> bytes[k] == 0 && mask[k] == 0)
  }

  method LoadSignature(sig: Signature, V: nat) returns (bytes: Vector, mask: Vector)
    requires |sig| <= V
    ensures Padded(sig, V, bytes, mask)
  {
    var byteBuffer := new bv8[V](_ => 0);
    var maskBuffer := new bv8[V](_ => 0);
    for i := 0 to |sig|
      invariant forall k :: 0 <= k < i ==> byteBuffer[k] == sig[k].value && maskBuffer[k] == sig[k].mask
      invariant forall k :: i <= k < V ==> byteBuffer[k] == 0 && maskBuffer[k] == 0
    {
      byteBuffer[i] := sig[i].value;
      maskBuffer[i] := sig[i].mask;
    }
    bytes, mask := byteBuffer[..], maskBuffer[..];
  }

  /** The compare of a whole padded vector is the compare of the signature. */
  lemma VectorCompareIsEqual(span: Span, sig: Signature, V: nat, bytes: Vector, mask: Vector, a: nat)
    requires Padded(sig, V, bytes, mask)
    requires span.base <= a && a + V <= span.End()
    ensures TestZero(Load(span, a, V), bytes, mask) <==> EqualAt(span, sig, a)
  {
  }

  /** The compare of a candidate: one masked vector compare, or std::equal for long signatures. */
  method Confirm(
    V: nat, span: Span, signature: Signature, veccmp: bool, signatureBytes: Vector, signatureMask: Vector, i: nat)
    returns (match_: bool)
    requires veccmp ==> Padded(signature, V, signatureBytes, signatureMask)
    requires span.base <= i && i + (if veccmp then V else |signature|) <= span.End()
    ensures match_ <==> MatchAt(span, signature, i)
  {
    if veccmp {
      VectorCompareIsEqual(span, signature, V, signatureBytes, signatureMask, i);
      match_ := TestZero(Load(span, i, V), signatureBytes, signatureMask);
    } else {
      match_ := EqualAt(span, signature, i);
    }
  }

  // ----- alignment masks

  lemma OneBit(i: nat)
    ensures Bit(1, i) <==> i == 0
  {
    if i > 0 { ZeroHasNoBits(i - 1); }
  }

  lemma {:induction false} OrBelow(a: nat, b: nat, w: nat)
    requires a < Pow2(w) && b < Pow2(w)
    ensures Or(a, b) < Pow2(w)
  {
    if w > 0 && (a != 0 || b != 0) {
      OrBelow(a / 2, b / 2, w - 1);
    }
  }

  /** A word of the given width with one bit in every stride. */
  method CreateAlignmentMask(width: nat, stride: nat) returns (mask: nat)
    requires stride > 0
    ensures mask < Pow2(width)
    ensures forall b: nat :: Bit(mask, b) <==> b < width && b % stride == 0
  {
    mask := 0;
    forall b: nat ensures !Bit(0, b) { ZeroHasNoBits(b); }
    var i := 0;
    while i < width
      invariant i % stride == 0
      invariant mask < Pow2(width)
      invariant forall b: nat :: Bit(mask, b) <==> b < width && b < i && b % stride == 0
      decreases width - i
    {
      var bit := ShiftLeft(width, 1, i);
      forall b: nat
        ensures Bit(Or(mask, bit), b) <==> b < width && b < i + stride && b % stride == 0
      {
        OrBit(mask, bit, b);
        ShiftLeftBit(width, 1, i, b);
        if b >= i { OneBit(b - i); }
        if i < b < i + stride { NoMultipleBetween(i, stride, b); }
      }
      OrBelow(mask, bit, width);
      mask := Or(mask, bit);
      NextMultiple(i, stride);
      i := i + stride;
    }
  }

  lemma Sixteenths(n: int, V: nat)
    requires V % 16 == 0
    ensures n * V == 16 * (n * (V / 16))
  {
  }

  lemma SameResidue(x: int, y: int, stride: nat, k: int)
    requires stride > 0 && x == y + k * stride
    ensures x % stride == y % stride
  {
    var q := y / stride;
    assert x == (q + k) * stride + y % stride;
    DivisionIsUnique(x, stride, q + k, y % stride);
  }

  lemma ResidueOfRemainder(x: int, V: nat, stride: nat)
    requires V > 0 && V % 16 == 0
    requires stride == 4 || stride == 16
    ensures x % V % stride == x % stride
  {
    var k := (x / V) * (V / 16);
    assert (x / V) * V == 16 * k by { Sixteenths(x / V, V); }
    SameResidue(x % V, x, stride, if stride == 4 then -4 * k else -k);
  }

  lemma IntKeepsResidue(b: nat, n: nat, stride: nat)
    requires stride == 4 || stride == 16
    ensures (b - ToInt32(n)) % stride == (b - n) % stride
  {
  }

  lemma AlignedKeepsResidue(it: nat, d: int, V: nat, stride: nat)
    requires V > 0 && V % 16 == 0
    requires stride == 4 || stride == 16
    requires it % V == 0
    ensures (it + d) % stride == d % stride
  {
    var k := (it / V) * (V / 16);
    assert it == 16 * k by { Sixteenths(it / V, V); }
    SameResidue(it + d, d, stride, if stride == 4 then 4 * k else k);
  }

  /** Rotating the mask by the anchor's index turns alignment of lanes into alignment of match
      starts, wherever the anchor lies and even when its index does not fit an int. */
  lemma RotatedAlignmentMask(V: nat, stride: nat, mask: nat, rotated: nat, cmpIndex: nat, it: nat, b: nat)
    requires V > 0 && V % 16 == 0
    requires stride == 4 || stride == 16
    requires forall i: nat :: Bit(mask, i) <==> i < V && i % stride == 0
    requires IsRotation(V, mask, ToInt32(cmpIndex), rotated)
    requires it % V == 0 && b < V && cmpIndex <= it + b
    ensures Bit(rotated, b) <==> (it + b - cmpIndex) % stride == 0
  {
    ResidueOfRemainder(b - ToInt32(cmpIndex), V, stride);
    IntKeepsResidue(b, cmpIndex, stride);
    AlignedKeepsResidue(it, b - cmpIndex, V, stride);
  }
}
