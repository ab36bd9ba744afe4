/** What the vector scans share: hits seen as lanes of a vector, and hits seen through a part of a span. */
module VectorScan {
  import opened Words
  import opened Signatures
  import opened Results
  import opened Matching
  import opened Segments
  import opened PairTables
  import opened Context
  import opened SingleScanner

  /** The vector sizes are 16, 32 and 64 bytes. What the scans use is that every stride divides them. */
  predicate VectorSize(V: nat) { V > 0 && V % 16 == 0 }

  predicate Stride(stride: nat) { stride == 1 || stride == 4 || stride == 16 }

  /** There is a hit whose anchor, at index c of the signature, is lane b of the vector at it. */
  predicate LaneHit(span: Span, sig: Signature, stride: nat, c: nat, it: nat, b: nat)
    requires stride > 0 && c <= it
  {
    Hit(span, sig, stride, it + b - c)
  }

  /** The start that belongs to lane b is allowed by the scan alignment. */
  predicate LaneAligned(stride: nat, c: nat, it: nat, b: nat)
    requires stride > 0 && c <= it
  {
    (it + b - c) % stride == 0
  }

  /** The anchor bytes match in lane b. The second byte of a pair is looked at in the lanes below secondLanes. */
  predicate LaneAnchored(span: Span, sig: Signature, c: nat, cmpeq2: bool, secondLanes: nat, it: nat, b: nat)
    requires c < |sig| && (cmpeq2 ==> c + 1 < |sig|)
    requires span.base <= it + b < span.End()
    requires cmpeq2 && b < secondLanes ==> it + b + 1 < span.End()
  {
    && span.At(it + b) == sig[c].value
    && (cmpeq2 && b < secondLanes ==> span.At(it + b + 1) == sig[c + 1].value)
  }

  /** Anchors are fully masked, so every hit shows in its lane, whichever anchors are looked at. */
  lemma HitShowsInLane(
    span: Span, sig: Signature, stride: nat, c: nat, cmpeq2: bool, secondLanes: nat, it: nat, b: nat)
    requires stride > 0 && c <= it
    requires c < |sig| && sig[c].All() && (cmpeq2 ==> PairAt(sig, c))
    requires span.base <= it + b < span.End()
    requires cmpeq2 && b < secondLanes ==> it + b + 1 < span.End()
    requires LaneHit(span, sig, stride, c, it, b)
    ensures LaneAligned(stride, c, it, b) && LaneAnchored(span, sig, c, cmpeq2, secondLanes, it, b)
  {
  }

  lemma NextVector(it: nat, end: nat, V: nat)
    requires V > 0 && it < end && it % V == 0 && (end - it) % V == 0
    ensures it + V <= end && (it + V) % V == 0 && (end - (it + V)) % V == 0
  {
    NextMultiple(it, V);
    var n := (end - it) / V;
    assert end - it == n * V;
    assert n >= 1 ==> n * V >= V;
    assert (n - 1) * V == n * V - V;
    DivisionIsUnique(end - (it + V), V, n - 1, 0);
  }

  /** The lowest lane with a hit, if the vector has one. */
  ghost predicate FirstLaneHit(span: Span, sig: Signature, stride: nat, c: nat, V: nat, it: nat, r: Option<nat>)
    requires stride > 0 && c <= it
  {
    match r
    case Some(p) =>
      && it <= p + c < it + V && LaneHit(span, sig, stride, c, it, p + c - it)
      && forall b: nat :: b < p + c - it ==> !LaneHit(span, sig, stride, c, it, b)
    case None =>
      forall b: nat :: b < V ==> !LaneHit(span, sig, stride, c, it, b)
  }

  /** The first hit in the first vector that has one is the first hit of the span, and a vector
      without a hit can be left behind. */
  lemma HitsInVector(span: Span, sig: Signature, stride: nat, c: nat, V: nat, it: nat, r: Option<nat>)
    requires stride > 0 && c <= it
    requires NoHitBefore(span, sig, stride, c, it) && FirstLaneHit(span, sig, stride, c, V, it, r)
    ensures r.Some? ==> FirstHit(span, sig, stride, r)
    ensures r.None? ==> NoHitBefore(span, sig, stride, c, it + V)
  {
    forall a: nat | Hit(span, sig, stride, a)
      ensures r.Some? ==> r.value <= a
      ensures r.None? ==> it + V <= a + c
    {
      var b: nat := a + c - it;
      assert LaneHit(span, sig, stride, c, it, b);
    }
    if r.Some? { assert Hit(span, sig, stride, r.value); }
  }

  // ----- the scalar parts

  /** A scan of one scalar part of the segmentation, or no scan where the part is absent. */
  ghost predicate ScannedPart(span: Span, sig: Signature, stride: nat, part: Option<Range>, r: Option<nat>)
    requires stride > 0
    requires part.Some? ==> span.base <= part.value.lo <= part.value.hi <= span.End()
  {
    if part.Some? then FirstHit(span.Sub(part.value.lo, part.value.hi), sig, stride, r) else r.None?
  }

  method ScanPart(span: Span, context: ScanContext, part: Option<Range>) returns (r: Option<nat>)
    requires context.Anchored()
    requires part.Some? ==> span.base <= part.value.lo <= part.value.hi <= span.End()
    requires part.Some? ==> part.value.lo + |context.signature| <= part.value.hi
    ensures ScannedPart(span, context.signature, context.alignment.Stride(), part, r)
  {
    if part.None? {
      return None;
    }
    r := FindPatternSingle(span.Sub(part.value.lo, part.value.hi), context);
  }

  /** What the vector scans use of a segmentation: its parts lie in the span, the vectors leave room
      for the compares, and together the parts are responsible for every start. */
  ghost predicate Segmented(span: Span, size: nat, c: nat, V: nat, veccmp: bool, s: Segmentation)
    requires V > 0
  {
    && (s.pre.Some? ==> span.base <= s.pre.value.lo && s.pre.value.lo + size <= s.pre.value.hi <= span.End())
    && (s.post.Some? ==> span.base <= s.post.value.lo && s.post.value.lo + size <= s.post.value.hi <= span.End())
    && (s.vec.Some? ==>
          && span.base + c <= s.vec.value.lo < s.vec.value.hi
          && s.vec.value.hi + (if veccmp then V else size) <= span.End()
          && s.vec.value.lo % V == 0 && (s.vec.value.hi - s.vec.value.lo) % V == 0)
    && (forall a: nat :: span.base <= a && a + size <= span.End() ==>
          StartsInRange(s.pre, size, a) || StartsInVectors(s.vec, c, a) || StartsInRange(s.post, size, a))
    && (s.vec.Some? ==> forall a: nat :: StartsInRange(s.pre, size, a) ==> a + c <= s.vec.value.lo)
    && (s.vec.Some? ==> forall a: nat :: StartsInRange(s.post, size, a) ==> s.vec.value.hi <= a + c)
    && (s.vec.None? ==> s.pre == Some(Range(span.base, span.End())) && s.post.None?)
  }

  method Segment(span: Span, size: nat, c: nat, V: nat, veccmp: bool) returns (s: Segmentation)
    requires V > 0 && 0 < size <= |span.bytes| && c < size && (veccmp ==> size <= V)
    ensures s == SegmentScan(span.base, span.End(), size, c, V, veccmp)
    ensures Segmented(span, size, c, V, veccmp, s)
  {
    s := SegmentScan(span.base, span.End(), size, c, V, veccmp);
    SegmentsCoverExactly(span.base, span.End(), size, c, V, veccmp);
    RangeOfVectors(span.base, span.End(), size, c, V, veccmp);
  }

  /** The first hit of a part is the first hit of the span in that part. */
  lemma ScannedPartHits(span: Span, sig: Signature, stride: nat, part: Option<Range>, r: Option<nat>)
    requires stride > 0
    requires part.Some? ==> span.base <= part.value.lo <= part.value.hi <= span.End()
    requires ScannedPart(span, sig, stride, part, r)
    ensures forall a: nat :: Hit(span, sig, stride, a) && StartsInRange(part, |sig|, a) ==> r.Some? && r.value <= a
    ensures r.Some? ==> Hit(span, sig, stride, r.value) && StartsInRange(part, |sig|, r.value)
  {
    if part.Some? {
      var sub := span.Sub(part.value.lo, part.value.hi);
      forall a: nat
        ensures Hit(sub, sig, stride, a) <==> Hit(span, sig, stride, a) && StartsInRange(part, |sig|, a)
      {
        HitInSub(span, sig, stride, part.value.lo, part.value.hi, a);
      }
    }
  }

  lemma AfterHead(
    span: Span, sig: Signature, stride: nat, c: nat, V: nat, veccmp: bool, s: Segmentation, r: Option<nat>)
    requires V > 0 && stride > 0
    requires Segmented(span, |sig|, c, V, veccmp, s) && ScannedPart(span, sig, stride, s.pre, r)
    ensures r.Some? ==> FirstHit(span, sig, stride, r)
    ensures r.None? && s.vec.Some? ==> NoHitBefore(span, sig, stride, c, s.vec.value.lo)
    ensures r.None? && s.vec.None? ==> FirstHit(span, sig, stride, r)
  {
    ScannedPartHits(span, sig, stride, s.pre, r);
    forall a: nat | Hit(span, sig, stride, a)
      ensures r.Some? ==> r.value <= a
      ensures r.None? && s.vec.Some? ==> s.vec.value.lo <= a + c
      ensures r.None? ==> s.vec.Some?
    {
      assert span.base <= a && a + |sig| <= span.End();
    }
  }

  lemma AfterTail(
    span: Span, sig: Signature, stride: nat, c: nat, V: nat, veccmp: bool, s: Segmentation, r: Option<nat>)
    requires V > 0 && stride > 0
    requires Segmented(span, |sig|, c, V, veccmp, s) && ScannedPart(span, sig, stride, s.post, r)
    requires s.vec.Some? ==> NoHitBefore(span, sig, stride, c, s.vec.value.hi)
    requires s.vec.None? ==> FirstHit(span, sig, stride, None)
    ensures FirstHit(span, sig, stride, r)
  {
    ScannedPartHits(span, sig, stride, s.post, r);
    if s.vec.Some? {
      forall a: nat | Hit(span, sig, stride, a)
        ensures r.Some? && r.value <= a
      {
        assert span.base <= a && a + |sig| <= span.End();
        assert !StartsInVectors(s.vec, c, a);
        assert StartsInRange(s.post, |sig|, a);
      }
    }
  }
}
