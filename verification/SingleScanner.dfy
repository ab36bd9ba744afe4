/** The scan without vectors: look for the anchor byte, then compare the whole signature. */
module SingleScanner {
  import opened Words
  import opened Signatures
  import opened Results
  import opened Matching
  import opened Segments
  import opened Context

  /** std::memchr and std::find: the first address in [from, until) that holds the byte. */
  method FindByte(span: Span, from: nat, until: nat, byte: bv8) returns (r: Option<nat>)
    requires span.base <= from <= until <= span.End()
    ensures match r
            case Some(i) => from <= i < until && span.At(i) == byte && forall j :: from <= j < i ==> span.At(j) != byte
            case None => forall j :: from <= j < until ==> span.At(j) != byte
  {
    for i := from to until
      invariant forall j :: from <= j < i ==> span.At(j) != byte
    {
      if span.At(i) == byte {
        return Some(i);
      }
    }
    return None;
  }

  /** An address where the anchor byte does not match is no hit. */
  lemma HitNeedsAnchor(span: Span, sig: Signature, stride: nat, c: nat, a: nat)
    requires stride > 0 && c < |sig| && sig[c].All()
    requires Hit(span, sig, stride, a)
    ensures span.At(a + c) == sig[c].value
  {
  }

  /** find_pattern_single<X1>: hop from one occurrence of the anchor byte to the next. */
  method FindPatternSingleX1(span: Span, context: ScanContext) returns (r: Option<nat>)
    requires context.Anchored() && |context.signature| <= |span.bytes|
    ensures FirstHit(span, context.signature, 1, r)
  {
    var signature, cmpIndex := context.signature, context.cmpIndex;
    var firstByte := signature[cmpIndex].value;
    var scanEnd := span.End() - |signature| + 1 + cmpIndex;

    var i := span.base + cmpIndex;
    while i != scanEnd
      invariant span.base + cmpIndex <= i <= scanEnd
      invariant forall a: nat :: Hit(span, signature, 1, a) ==> i <= a + cmpIndex
    {
      var found := FindByte(span, i, scanEnd, firstByte);
      if found.None? {
        forall a: nat | Hit(span, signature, 1, a) ensures false { HitNeedsAnchor(span, signature, 1, cmpIndex, a); }
        break;
      }
      forall a: nat | Hit(span, signature, 1, a)
        ensures found.value <= a + cmpIndex
      {
        HitNeedsAnchor(span, signature, 1, cmpIndex, a);
      }
      i := found.value;
      var start := i - cmpIndex;
      if EqualAt(span, signature, start) {
        return Some(start);
      }
      i := i + 1;
    }
    return None;
  }

  /** No hit starts before the first aligned address. */
  lemma StartsAligned(span: Span, sig: Signature, stride: nat, c: nat)
    requires stride > 0
    ensures NoHitBefore(span, sig, stride, c, AlignUp(span.base, stride) + c)
  {
    var first := AlignUp(span.base, stride);
    forall a: nat | Hit(span, sig, stride, a)
      ensures first <= a
    {
      if a < first < a + stride { NoMultipleBetween(a, stride, first); }
    }
  }

  /** An aligned address below the rounded limit is below the limit, and the next one does not pass it. */
  lemma StartBelowLimit(start: nat, limit: nat, stride: nat)
    requires stride > 0 && start % stride == 0 && start < AlignUp(limit, stride)
    ensures start < limit && start + stride <= AlignUp(limit, stride) && (start + stride) % stride == 0
  {
    NextMultiple(start, stride);
    var last := AlignUp(limit, stride);
    if last < start + stride { NoMultipleBetween(start, stride, last); }
  }

  /** find_pattern_single for the other alignments: visit the aligned addresses only. */
  method FindPatternSingleStrided(span: Span, context: ScanContext) returns (r: Option<nat>)
    requires context.Anchored() && |context.signature| <= |span.bytes|
    ensures FirstHit(span, context.signature, context.alignment.Stride(), r)
  {
    var signature, cmpIndex := context.signature, context.cmpIndex;
    var stride := context.alignment.Stride();
    var cmpByte := signature[cmpIndex].value;
    var scanBegin := AlignUp(span.base, stride) + cmpIndex;
    var scanEnd := AlignUp(span.End() - |signature| + 1, stride) + cmpIndex;

    StartsAligned(span, signature, stride, cmpIndex);
    if scanBegin >= scanEnd {
      return None;
    }

    var i := scanBegin;
    while i != scanEnd
      invariant scanBegin <= i <= scanEnd && (i - cmpIndex) % stride == 0
      invariant NoHitBefore(span, signature, stride, cmpIndex, i)
      decreases scanEnd - i
    {
      var start := i - cmpIndex;
      StartBelowLimit(start, span.End() - |signature| + 1, stride);
      if span.At(i) == cmpByte {
        if EqualAt(span, signature, start) {
          return Some(start);
        }
      }
      if Hit(span, signature, stride, start) { HitNeedsAnchor(span, signature, stride, cmpIndex, start); }
      NoHitBeforeNext(span, signature, stride, cmpIndex, start);
      i := i + stride;
    }
    return None;
  }

  method FindPatternSingle(span: Span, context: ScanContext) returns (r: Option<nat>)
    requires context.Anchored() && |context.signature| <= |span.bytes|
    ensures FirstHit(span, context.signature, context.alignment.Stride(), r)
  {
    match context.alignment
    case X1 => r := FindPatternSingleX1(span, context);
    case _ => r := FindPatternSingleStrided(span, context);
  }
}
