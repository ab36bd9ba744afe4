/** What a scan is for: spans of memory, matches in them, and the list of all matches.

    Addresses are natural numbers. A span is the memory a scan may read, so the
    precondition of At makes every read of the scanners a read inside the span.
 */
module Matching {
  import opened Results
  import opened Signatures
  import opened Words

  datatype Span = Span(base: nat, bytes: seq<bv8>) {

    function End(): nat { base + |bytes| }

    function At(a: nat): bv8
      requires base <= a < End()
    {
      bytes[a - base]
    }

    function Sub(lo: nat, hi: nat): (s: Span)
      requires base <= lo <= hi <= End()
      ensures s.base == lo && s.End() == hi
      ensures forall a :: lo <= a < hi ==> s.At(a) == At(a)
    {
      Span(lo, bytes[lo - base..hi - base])
    }
  }

  /** std::equal of the signature with the memory at a. */
  predicate EqualAt(span: Span, sig: Signature, a: nat)
    requires span.base <= a && a + |sig| <= span.End()
  {
    forall k :: 0 <= k < |sig| ==> sig[k].Matches(span.At(a + k))
  }

  /** The signature matches at a and lies in the span. */
  predicate MatchAt(span: Span, sig: Signature, a: nat) {
    span.base <= a && a + |sig| <= span.End() && EqualAt(span, sig, a)
  }

  /** A match at an address the scan alignment allows. */
  predicate Hit(span: Span, sig: Signature, stride: nat, a: nat)
    requires stride > 0
  {
    a % stride == 0 && MatchAt(span, sig, a)
  }

  /** r is the leftmost hit, or there is none. */
  ghost predicate FirstHit(span: Span, sig: Signature, stride: nat, r: Option<nat>)
    requires stride > 0
  {
    match r
    case None => forall a: nat :: !Hit(span, sig, stride, a)
    case Some(p) => Hit(span, sig, stride, p) && forall a: nat :: a < p ==> !Hit(span, sig, stride, a)
  }

  /** The specification determines the result, so any two scans that meet it agree. */
  lemma FirstHitIsUnique(span: Span, sig: Signature, stride: nat, r: Option<nat>, r': Option<nat>)
    requires stride > 0
    requires FirstHit(span, sig, stride, r) && FirstHit(span, sig, stride, r')
    ensures r == r'
  {
  }

  /** All hits lie at or after the address it, less the index c of the anchor. */
  ghost predicate NoHitBefore(span: Span, sig: Signature, stride: nat, c: nat, it: nat)
    requires stride > 0
  {
    forall a: nat :: Hit(span, sig, stride, a) ==> it <= a + c
  }

  /** Where the scan alignment allows no hit, none is missed by a step of a whole stride. */
  lemma NoHitBeforeNext(span: Span, sig: Signature, stride: nat, c: nat, start: nat)
    requires stride > 0 && start % stride == 0
    requires NoHitBefore(span, sig, stride, c, start + c) && !Hit(span, sig, stride, start)
    ensures NoHitBefore(span, sig, stride, c, start + stride + c)
  {
    forall a: nat | Hit(span, sig, stride, a)
      ensures start + stride <= a
    {
      if start < a < start + stride { NoMultipleBetween(start, stride, a); }
    }
  }

  lemma HitInSub(span: Span, sig: Signature, stride: nat, lo: nat, hi: nat, a: nat)
    requires stride > 0 && span.base <= lo <= hi <= span.End()
    ensures Hit(span.Sub(lo, hi), sig, stride, a) <==> Hit(span, sig, stride, a) && lo <= a && a + |sig| <= hi
  {
  }

  // ----- all hits

  /** Every hit at or above from, in order of address. */
  function HitsFrom(span: Span, sig: Signature, stride: nat, from: nat): seq<nat>
    requires stride > 0
    decreases span.End() + 1 - from
  {
    if from + |sig| > span.End() then []
    else (if Hit(span, sig, stride, from) then [from] else []) + HitsFrom(span, sig, stride, from + 1)
  }

  /** The list holds the hits and nothing else, each once, in ascending order. */
  lemma {:induction false} HitsFromExact(span: Span, sig: Signature, stride: nat, from: nat)
    requires stride > 0
    ensures var hits := HitsFrom(span, sig, stride, from);
            && (forall a: nat :: a in hits <==> Hit(span, sig, stride, a) && from <= a)
            && (forall i, j :: 0 <= i < j < |hits| ==> hits[i] < hits[j])
    decreases span.End() + 1 - from
  {
    if from + |sig| <= span.End() {
      HitsFromExact(span, sig, stride, from + 1);
      var rest := HitsFrom(span, sig, stride, from + 1);
      assert forall j :: 0 <= j < |rest| ==> rest[j] in rest;
    }
  }

  /** Addresses without a hit can be skipped. */
  lemma {:induction false} SkipToHit(span: Span, sig: Signature, stride: nat, from: nat, next: nat)
    requires stride > 0 && from <= next
    requires forall a: nat :: from <= a < next ==> !Hit(span, sig, stride, a)
    ensures HitsFrom(span, sig, stride, from) == HitsFrom(span, sig, stride, next)
    decreases next - from
  {
    if from < next {
      SkipToHit(span, sig, stride, from + 1, next);
    }
  }

  /** After a hit the next candidate is one stride further. */
  lemma HitThenStride(span: Span, sig: Signature, stride: nat, from: nat, p: nat)
    requires stride > 0 && from <= p && Hit(span, sig, stride, p)
    requires forall a: nat :: from <= a < p ==> !Hit(span, sig, stride, a)
    ensures HitsFrom(span, sig, stride, from) == [p] + HitsFrom(span, sig, stride, p + stride)
  {
    SkipToHit(span, sig, stride, from, p);
    forall a: nat | p + 1 <= a < p + stride
      ensures !Hit(span, sig, stride, a)
    {
      NoMultipleBetween(p, stride, a);
    }
    SkipToHit(span, sig, stride, p + 1, p + stride);
  }
}
