/** The Neon scan. Its candidate mask has four bits for each of the 16 lanes. */
module NeonScanner {
  import opened Words
  import opened Signatures
  import opened Results
  import opened Matching
  import opened Segments
  import opened PairTables
  import opened Context
  import opened Lanes
  import opened VectorScan

  const V: nat := 16

  /** Every nibble of the mask is 0 or F, and the F nibbles are the given lanes. */
  ghost predicate NibbleMask(mask: nat, lanes: seq<bool>) {
    && |lanes| == V
    && forall b: nat :: Bit(mask, b) <==> b / 4 < V && lanes[b / 4]
  }

  // ----- narrowing a comparison to a mask

  function LaneByte(lane: bool): nat { if lane then 0xFF else 0 }

  /** One 16-bit element, two lanes, shifted right by four and cut to a byte. */
  function ShiftRightNarrow(low: bool, high: bool): nat {
    (LaneByte(low) + 0x100 * LaneByte(high)) / 16 % 0x100
  }

  /** vshrn_n_u16 by 4, with its bytes read as one little-endian word. */
  function Narrow(lanes: seq<bool>): nat
    requires |lanes| % 2 == 0
  {
    if lanes == [] then 0 else ShiftRightNarrow(lanes[0], lanes[1]) + 0x100 * Narrow(lanes[2..])
  }

  lemma FifteenBit(i: nat)
    ensures Bit(15, i) <==> i < 4
  {
    if i >= 4 { HighBitsAreZero(15, 4, i); } else { assert i == 0 || i == 1 || i == 2 || i == 3; }
  }

  lemma NarrowedByte(low: bool, high: bool, b: nat)
    ensures ShiftRightNarrow(low, high) < 256
    ensures Bit(ShiftRightNarrow(low, high), b) <==> b < 8 && if b < 4 then low else high
  {
    var l, h := if low then 15 else 0, if high then 15 else 0;
    assert Pow2(4) == 16;
    assert ShiftRightNarrow(low, high) == l + Pow2(4) * h;
    FieldBit(l, h, 4, b);
    FifteenBit(b);
    ZeroHasNoBits(b);
    if b >= 4 {
      FifteenBit(b - 4);
      ZeroHasNoBits(b - 4);
    }
  }

  lemma {:induction false} NarrowBit(lanes: seq<bool>, b: nat)
    requires |lanes| % 2 == 0
    ensures Bit(Narrow(lanes), b) <==> b / 4 < |lanes| && lanes[b / 4]
  {
    if lanes == [] {
      ZeroHasNoBits(b);
    } else {
      assert Pow2(8) == 256;
      NarrowedByte(lanes[0], lanes[1], b);
      FieldBit(ShiftRightNarrow(lanes[0], lanes[1]), Narrow(lanes[2..]), 8, b);
      if b >= 8 {
        NarrowBit(lanes[2..], b - 8);
      }
    }
  }

  /** The lanes of the vector at it where the anchor bytes match. The second byte is compared in
      all lanes, with a load one byte further on. */
  method AnchorMask(span: Span, signature: Signature, c: nat, cmpeq2: bool, it: nat) returns (mask: nat)
    requires c < |signature| && (cmpeq2 ==> c + 1 < |signature|)
    requires span.base <= it && it + V + 1 <= span.End()
    ensures forall b: nat :: Bit(mask, b) <==> b / 4 < V && LaneAnchored(span, signature, c, cmpeq2, V, it, b / 4)
  {
    var cmp := CmpEq(signature[c].value, Load(span, it, V));
    if cmpeq2 {
      var cmp2 := CmpEq(signature[c + 1].value, Load(span, it + 1, V));
      cmp := AndLanes(cmp, cmp2);
    }
    mask := Narrow(cmp);
    forall b: nat
      ensures Bit(mask, b) <==> b / 4 < V && LaneAnchored(span, signature, c, cmpeq2, V, it, b / 4)
    {
      NarrowBit(cmp, b);
    }
  }

  // ----- alignment

  lemma NibbleBits(lane: nat, b: nat)
    requires lane < V
    ensures Bit(ShiftLeft(64, 0xF, lane * 4), b) <==> b / 4 == lane
  {
    ShiftLeftBit(64, 0xF, lane * 4, b);
    if b >= lane * 4 { FifteenBit(b - lane * 4); }
  }

  method CreateAlignmentMaskNeon(stride: nat) returns (mask: nat)
    requires Stride(stride)
    ensures mask < Pow2(64)
    ensures forall b: nat :: Bit(mask, b) <==> b / 4 < V && b / 4 % stride == 0
  {
    mask := 0;
    forall b: nat ensures !Bit(0, b) { ZeroHasNoBits(b); }
    var i := 0;
    while i < 16
      invariant i % stride == 0
      invariant mask < Pow2(64)
      invariant forall b: nat :: Bit(mask, b) <==> b / 4 < V && b / 4 < i && b / 4 % stride == 0
      decreases 16 - i
    {
      var nibble := ShiftLeft(64, 0xF, i * 4);
      var next := Or(mask, nibble);
      forall b: nat
        ensures Bit(next, b) <==> b / 4 < V && b / 4 < i + stride && b / 4 % stride == 0
      {
        OrBit(mask, nibble, b);
        NibbleBits(i, b);
        if i < b / 4 < i + stride { NoMultipleBetween(i, stride, b / 4); }
      }
      OrBelow(mask, nibble, 64);
      mask := next;
      NextMultiple(i, stride);
      i := i + stride;
    }
  }

  lemma LaneOfTurned(b: nat, c: nat)
    ensures 0 <= (b - c * 4) % 64 && (b - c * 4) % 64 / 4 == (b / 4 - c) % 16
  {
  }

  lemma AlignedLane(stride: nat, c: nat, it: nat, lane: nat)
    requires stride == 4 || stride == 16
    requires it % V == 0 && c <= it
    ensures (lane - c) % 16 % stride == 0 <==> LaneAligned(stride, c, it, lane)
  {
  }

  /** Rotating by four bits per byte of the anchor's index aligns match starts, nibble by nibble. */
  lemma RotatedNibbleMask(stride: nat, mask: nat, rotated: nat, c: nat, it: nat, b: nat)
    requires stride == 4 || stride == 16
    requires forall i: nat :: Bit(mask, i) <==> i / 4 < V && i / 4 % stride == 0
    requires IsRotation(64, mask, c * 4, rotated)
    requires it % V == 0 && b / 4 < V && c <= it
    ensures Bit(rotated, b) <==> LaneAligned(stride, c, it, b / 4)
  {
    var turned := (b - c * 4) % 64;
    assert Bit(rotated, b) <==> Bit(mask, turned);
    LaneOfTurned(b, c);
    AlignedLane(stride, c, it, b / 4);
  }

  lemma SmallInt(n: nat)
    requires n < 0x8000_0000
    ensures ToInt32(n) == n
  {
  }

  method AlignMask(c: nat, stride: nat, it: nat, anchors: nat) returns (mask: nat)
    requires Stride(stride) && c <= it && it % V == 0 && c * 4 < 0x8000_0000
    requires forall b: nat :: Bit(anchors, b) ==> b / 4 < V
    ensures forall b: nat :: Bit(mask, b) <==> Bit(anchors, b) && LaneAligned(stride, c, it, b / 4)
  {
    mask := anchors;
    if stride != 1 {
      var alignmentMask := CreateAlignmentMaskNeon(stride);
      var rotated := RotateLeft(64, alignmentMask, ToInt32(c) * 4);
      RotateLeftRotates(64, alignmentMask, ToInt32(c) * 4);
      SmallInt(c);
      forall b: nat
        ensures Bit(And(anchors, rotated), b) <==> Bit(anchors, b) && LaneAligned(stride, c, it, b / 4)
      {
        AndBit(anchors, rotated, b);
        if b / 4 < V { RotatedNibbleMask(stride, alignmentMask, rotated, c, it, b); }
      }
      mask := And(mask, rotated);
    }
  }

  // ----- the candidates of one vector

  lemma LowestLane(mask: nat, lanes: seq<bool>)
    requires mask > 0 && NibbleMask(mask, lanes)
    ensures var offset := TrailingZeros(mask);
            && offset == ShiftRight(offset, 2) * 4
            && ShiftRight(offset, 2) < V && lanes[ShiftRight(offset, 2)]
            && forall k :: 0 <= k < ShiftRight(offset, 2) ==> !lanes[k]
  {
    var offset := TrailingZeros(mask);
    var lane := offset / 4;
    assert ShiftRight(offset, 2) == ShiftRight(offset / 2, 1) == lane;
    assert Bit(mask, offset);
    assert Bit(mask, lane * 4) by { assert lane * 4 / 4 == lane; }
    forall k | 0 <= k < lane
      ensures !lanes[k]
    {
      assert !Bit(mask, k * 4);
      assert k * 4 / 4 == k;
    }
  }

  /** The lowest set bit is the lowest bit of the lowest lane, and the xor clears that lane and no other. */
  lemma ClearLowestLane(mask: nat, lanes: seq<bool>)
    requires mask > 0 && NibbleMask(mask, lanes)
    ensures var lane := ShiftRight(TrailingZeros(mask), 2);
            var rest := Xor(mask, ShiftLeft(64, 0xF, TrailingZeros(mask)));
            && lane < V && lanes[lane]
            && (forall k :: 0 <= k < lane ==> !lanes[k])
            && NibbleMask(rest, lanes[lane := false])
            && rest < mask
  {
    LowestLane(mask, lanes);
    var offset := TrailingZeros(mask);
    var lane := ShiftRight(offset, 2);
    var nibble := ShiftLeft(64, 0xF, offset);
    forall b: nat
      ensures Bit(nibble, b) <==> b / 4 == lane
    {
      NibbleBits(lane, b);
    }
    forall b: nat
      ensures Bit(Xor(mask, nibble), b) <==> b / 4 < V && lanes[lane := false][b / 4]
    {
      XorBit(mask, nibble, b);
    }
    XorOfSubset(mask, nibble);
    if nibble == 0 { ZeroHasNoBits(lane * 4); }
  }

  method ConfirmCandidates(
    span: Span, signature: Signature, c: nat, stride: nat, veccmp: bool,
    signatureBytes: Vector, signatureMask: Vector, it: nat, candidates: nat, ghost candidateLanes: seq<bool>)
    returns (r: Option<nat>)
    requires stride > 0 && c < |signature|
    requires veccmp ==> Padded(signature, V, signatureBytes, signatureMask)
    requires span.base + c <= it
    requires it + V - c + (if veccmp then V else |signature|) <= span.End() + 1
    requires NibbleMask(candidates, candidateLanes)
    requires forall k: nat :: k < V && candidateLanes[k] ==> LaneAligned(stride, c, it, k)
    requires forall k: nat :: k < V && LaneHit(span, signature, stride, c, it, k) ==> candidateLanes[k]
    ensures FirstLaneHit(span, signature, stride, c, V, it, r)
  {
    var mask := candidates;
    ghost var lanes := candidateLanes;
    while mask != 0
      invariant NibbleMask(mask, lanes)
      invariant forall k: nat :: k < V && lanes[k] ==> LaneAligned(stride, c, it, k)
      invariant forall k: nat :: k < V && LaneHit(span, signature, stride, c, it, k) ==> lanes[k]
      decreases mask
    {
      ClearLowestLane(mask, lanes);
      var offset := TrailingZeros(mask);
      var lane := ShiftRight(offset, 2);
      var i := it + lane - c;
      var confirmed := Confirm(V, span, signature, veccmp, signatureBytes, signatureMask, i);
      assert LaneHit(span, signature, stride, c, it, lane) <==> confirmed;
      if confirmed {
        return Some(i);
      }
      mask := Xor(mask, ShiftLeft(64, 0xF, offset));
      lanes := lanes[lane := false];
    }
    forall k: nat | k < V
      ensures !lanes[k]
    {
      ZeroHasNoBits(k * 4);
      assert k * 4 / 4 == k;
    }
    return None;
  }

  method ScanVector(
    span: Span, signature: Signature, c: nat, stride: nat, cmpeq2: bool, veccmp: bool,
    signatureBytes: Vector, signatureMask: Vector, it: nat) returns (r: Option<nat>)
    requires Stride(stride) && it % V == 0
    requires c < |signature| && signature[c].All() && (cmpeq2 ==> PairAt(signature, c))
    requires c * 4 < 0x8000_0000
    requires veccmp ==> Padded(signature, V, signatureBytes, signatureMask)
    requires span.base + c <= it && it + V + 1 <= span.End()
    requires it + V - c + (if veccmp then V else |signature|) <= span.End() + 1
    ensures FirstLaneHit(span, signature, stride, c, V, it, r)
  {
    var anchors := AnchorMask(span, signature, c, cmpeq2, it);
    var mask := AlignMask(c, stride, it, anchors);
    ghost var lanes := seq(V, k requires 0 <= k < V =>
      LaneAnchored(span, signature, c, cmpeq2, V, it, k) && LaneAligned(stride, c, it, k));
    forall k: nat | k < V && LaneHit(span, signature, stride, c, it, k)
      ensures lanes[k]
    {
      HitShowsInLane(span, signature, stride, c, cmpeq2, V, it, k);
    }
    r := ConfirmCandidates(span, signature, c, stride, veccmp, signatureBytes, signatureMask, it, mask, lanes);
  }

  method ScanVectors(
    span: Span, signature: Signature, c: nat, stride: nat, cmpeq2: bool, veccmp: bool,
    signatureBytes: Vector, signatureMask: Vector, vec: Range) returns (r: Option<nat>)
    requires Stride(stride) && vec.lo < vec.hi && vec.lo % V == 0 && (vec.hi - vec.lo) % V == 0
    requires c < |signature| && signature[c].All() && (cmpeq2 ==> PairAt(signature, c))
    requires c * 4 < 0x8000_0000
    requires veccmp ==> Padded(signature, V, signatureBytes, signatureMask)
    requires span.base + c <= vec.lo
    requires vec.hi + (if veccmp then V else |signature|) <= span.End()
    requires NoHitBefore(span, signature, stride, c, vec.lo)
    ensures r.Some? ==> FirstHit(span, signature, stride, r)
    ensures r.None? ==> NoHitBefore(span, signature, stride, c, vec.hi)
  {
    var it := vec.lo;
    while it != vec.hi
      invariant vec.lo <= it <= vec.hi && it % V == 0 && (vec.hi - it) % V == 0
      invariant NoHitBefore(span, signature, stride, c, it)
      decreases vec.hi - it
    {
      NextVector(it, vec.hi, V);
      r := ScanVector(span, signature, c, stride, cmpeq2, veccmp, signatureBytes, signatureMask, it);
      HitsInVector(span, signature, stride, c, V, it, r);
      if r.Some? {
        return r;
      }
      it := it + V;
    }
    return None;
  }

  /** find_pattern_neon. The rotation count is four times the anchor's index and must fit an int. */
  method FindPattern(span: Span, context: ScanContext, cmpeq2: bool, veccmp: bool) returns (r: Option<nat>)
    requires context.Anchored() && |context.signature| <= |span.bytes|
    requires cmpeq2 ==> context.pairIndex.Some?
    requires context.Anchor(cmpeq2) * 4 < 0x8000_0000
    requires veccmp ==> |context.signature| <= V
    ensures FirstHit(span, context.signature, context.alignment.Stride(), r)
  {
    var signature, stride := context.signature, context.alignment.Stride();
    var c := context.Anchor(cmpeq2);
    var signatureBytes, signatureMask: Vector := [], [];
    if veccmp {
      signatureBytes, signatureMask := LoadSignature(signature, V);
    }

    var segments := Segment(span, |signature|, c, V, veccmp);
    r := ScanPart(span, context, segments.pre);
    AfterHead(span, signature, stride, c, V, veccmp, segments, r);
    if r.Some? {
      return r;
    }

    if segments.vec.Some? {
      r := ScanVectors(span, signature, c, stride, cmpeq2, veccmp, signatureBytes, signatureMask, segments.vec.value);
      if r.Some? {
        return r;
      }
    }

    r := ScanPart(span, context, segments.post);
    AfterTail(span, signature, stride, c, V, veccmp, segments, r);
    return r;
  }
}
