/** The SSE, AVX2 and AVX512 scans. They are one algorithm at vector sizes of 16, 32 and 64 bytes. */
module X86Scanner {
  import opened Words
  import opened Signatures
  import opened Results
  import opened Matching
  import opened Segments
  import opened PairTables
  import opened Context
  import opened Lanes
  import opened VectorScan

  /** The lanes of the vector at it where the anchor bytes match. To stay within the vector, a match
      of the first byte in the last lane lets the second byte count as matched. */
  method AnchorMask(V: nat, span: Span, signature: Signature, c: nat, cmpeq2: bool, it: nat) returns (mask: nat)
    requires V > 0 && c < |signature| && (cmpeq2 ==> c + 1 < |signature|)
    requires span.base <= it && it + V <= span.End()
    ensures forall b: nat :: Bit(mask, b) <==> b < V && LaneAnchored(span, signature, c, cmpeq2, V - 1, it, b)
  {
    var cmp := CmpEq(signature[c].value, Load(span, it, V));
    mask := MoveMask(cmp);
    forall b: nat
      ensures Bit(mask, b) <==> b < V && cmp[b]
    {
      MoveMaskBit(cmp, b);
    }
    if cmpeq2 {
      var cmp2 := CmpEq(signature[c + 1].value, Load(span, it, V));
      var mask2 := MoveMask(cmp2);
      var second := Or(ShiftRight(mask2, 1), ShiftLeft(V, 1, V - 1));
      forall b: nat
        ensures Bit(And(mask, second), b) <==> b < V && cmp[b] && (b < V - 1 ==> cmp2[b + 1])
      {
        AndBit(mask, second, b);
        OrBit(ShiftRight(mask2, 1), ShiftLeft(V, 1, V - 1), b);
        ShiftRightBit(mask2, 1, b);
        ShiftLeftBit(V, 1, V - 1, b);
        MoveMaskBit(cmp2, b + 1);
        OneBit(0);
      }
      mask := And(mask, second);
    }
  }

  /** Drop the lanes whose start the scan alignment does not allow. */
  method AlignMask(V: nat, c: nat, stride: nat, it: nat, anchors: nat) returns (mask: nat)
    requires VectorSize(V) && Stride(stride) && c <= it && it % V == 0
    requires forall b: nat :: Bit(anchors, b) ==> b < V
    ensures forall b: nat :: Bit(mask, b) <==> Bit(anchors, b) && LaneAligned(stride, c, it, b)
  {
    mask := anchors;
    if stride != 1 {
      var alignmentMask := CreateAlignmentMask(V, stride);
      var rotated := RotateLeft(V, alignmentMask, ToInt32(c));
      RotateLeftRotates(V, alignmentMask, ToInt32(c));
      forall b: nat
        ensures Bit(And(anchors, rotated), b) <==> Bit(anchors, b) && LaneAligned(stride, c, it, b)
      {
        AndBit(anchors, rotated, b);
        if b < V { RotatedAlignmentMask(V, stride, alignmentMask, rotated, c, it, b); }
      }
      mask := And(mask, rotated);
    }
  }

  /** Confirm the candidates from the lowest lane on. */
  method ConfirmCandidates(
    V: nat, span: Span, signature: Signature, c: nat, stride: nat, veccmp: bool,
    signatureBytes: Vector, signatureMask: Vector, it: nat, candidates: nat) returns (r: Option<nat>)
    requires stride > 0 && c < |signature|
    requires veccmp ==> Padded(signature, V, signatureBytes, signatureMask)
    requires span.base + c <= it
    requires it + V - c + (if veccmp then V else |signature|) <= span.End() + 1
    requires forall b: nat :: Bit(candidates, b) ==> b < V && LaneAligned(stride, c, it, b)
    requires forall b: nat :: b < V && LaneHit(span, signature, stride, c, it, b) ==> Bit(candidates, b)
    ensures FirstLaneHit(span, signature, stride, c, V, it, r)
  {
    var mask := candidates;
    while mask != 0
      invariant forall b: nat :: Bit(mask, b) ==> b < V && LaneAligned(stride, c, it, b)
      invariant forall b: nat :: b < V && LaneHit(span, signature, stride, c, it, b) ==> Bit(mask, b)
      decreases mask
    {
      var offset := TrailingZeros(mask);
      var i := it + offset - c;
      var confirmed := Confirm(V, span, signature, veccmp, signatureBytes, signatureMask, i);
      assert LaneHit(span, signature, stride, c, it, offset) <==> confirmed;
      if confirmed {
        return Some(i);
      }
      var rest := And(mask, mask - 1);
      forall b: nat
        ensures Bit(rest, b) <==> Bit(mask, b) && b != offset
      {
        ClearLowestBit(mask, b);
      }
      mask := rest;
    }
    forall b: nat { ZeroHasNoBits(b); }
    return None;
  }

  /** The loop body of the scan: the lowest lane of the vector at it that holds a hit. */
  method ScanVector(
    V: nat, span: Span, signature: Signature, c: nat, stride: nat, cmpeq2: bool, veccmp: bool,
    signatureBytes: Vector, signatureMask: Vector, it: nat) returns (r: Option<nat>)
    requires VectorSize(V) && Stride(stride) && it % V == 0
    requires c < |signature| && signature[c].All() && (cmpeq2 ==> PairAt(signature, c))
    requires veccmp ==> Padded(signature, V, signatureBytes, signatureMask)
    requires span.base + c <= it && it + V <= span.End()
    requires it + V - c + (if veccmp then V else |signature|) <= span.End() + 1
    ensures FirstLaneHit(span, signature, stride, c, V, it, r)
  {
    var anchors := AnchorMask(V, span, signature, c, cmpeq2, it);
    var mask := AlignMask(V, c, stride, it, anchors);
    forall b: nat | b < V && LaneHit(span, signature, stride, c, it, b)
      ensures Bit(mask, b)
    {
      HitShowsInLane(span, signature, stride, c, cmpeq2, V - 1, it, b);
    }
    r := ConfirmCandidates(V, span, signature, c, stride, veccmp, signatureBytes, signatureMask, it, mask);
  }

  /** The loop over the vectors. */
  method ScanVectors(
    V: nat, span: Span, signature: Signature, c: nat, stride: nat, cmpeq2: bool, veccmp: bool,
    signatureBytes: Vector, signatureMask: Vector, vec: Range) returns (r: Option<nat>)
    requires VectorSize(V) && Stride(stride) && vec.lo < vec.hi && vec.lo % V == 0 && (vec.hi - vec.lo) % V == 0
    requires c < |signature| && signature[c].All() && (cmpeq2 ==> PairAt(signature, c))
    requires veccmp ==> Padded(signature, V, signatureBytes, signatureMask)
    requires span.base + c <= vec.lo
    requires vec.hi + (if veccmp then V else |signature|) <= span.End()
    requires NoHitBefore(span, signature, stride, c, vec.lo)
    ensures r.Some? ==> FirstHit(span, signature, stride, r)
    ensures r.None? ==> NoHitBefore(span, signature, stride, c, vec.hi)
  {
    var it := vec.lo;
    while it != vec.hi
      invariant vec.lo <= it <= vec.hi && it % V == 0 && (vec.hi - it) % V == 0
      invariant NoHitBefore(span, signature, stride, c, it)
      decreases vec.hi - it
    {
      NextVector(it, vec.hi, V);
      r := ScanVector(V, span, signature, c, stride, cmpeq2, veccmp, signatureBytes, signatureMask, it);
      HitsInVector(span, signature, stride, c, V, it, r);
      if r.Some? {
        return r;
      }
      it := it + V;
    }
    return None;
  }

  /** find_pattern_sse, find_pattern_avx2 and find_pattern_avx512. */
  method FindPattern(V: nat, span: Span, context: ScanContext, cmpeq2: bool, veccmp: bool) returns (r: Option<nat>)
    requires VectorSize(V)
    requires context.Anchored() && |context.signature| <= |span.bytes|
    requires cmpeq2 ==> context.pairIndex.Some?
    requires veccmp ==> |context.signature| <= V
    ensures FirstHit(span, context.signature, context.alignment.Stride(), r)
  {
    var signature, stride := context.signature, context.alignment.Stride();
    var c := context.Anchor(cmpeq2);
    var signatureBytes, signatureMask: Vector := [], [];
    if veccmp {
      signatureBytes, signatureMask := LoadSignature(signature, V);
    }

    var segments := Segment(span, |signature|, c, V, veccmp);
    r := ScanPart(span, context, segments.pre);
    AfterHead(span, signature, stride, c, V, veccmp, segments, r);
    if r.Some? {
      return r;
    }

    if segments.vec.Some? {
      r := ScanVectors(
        V, span, signature, c, stride, cmpeq2, veccmp, signatureBytes, signatureMask, segments.vec.value);
      if r.Some? {
        return r;
      }
    }

    r := ScanPart(span, context, segments.post);
    AfterTail(span, signature, stride, c, V, veccmp, segments, r);
    return r;
  }
}
