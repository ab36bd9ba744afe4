/** Where a bounded search stops, and what a later search from there finds. */
module Resumption {
  import opened Words
  import opened Signatures
  import opened Results
  import opened Matching

  function Min(a: nat, b: nat): nat { if a < b then a else b }

  function Max(a: nat, b: nat): nat { if a < b then b else a }

  lemma HitIsAbove(span: Span, sig: Signature, stride: nat, begin: nat, k: nat)
    requires stride > 0
    ensures k < |HitsFrom(span, sig, stride, begin)| ==> begin <= HitsFrom(span, sig, stride, begin)[k]
  {
    HitsFromExact(span, sig, stride, begin);
    var hits := HitsFrom(span, sig, stride, begin);
    assert k < |hits| ==> hits[k] in hits;
  }

  /** The position at which a search from begin with room for capacity results stops. */
  function StopPosition(span: Span, sig: Signature, stride: nat, begin: nat, capacity: nat): (r: nat)
    requires stride > 0
    ensures begin <= r
  {
    var hits := HitsFrom(span, sig, stride, begin);
    if capacity == 0 then begin
    else if capacity <= |hits| then
      HitIsAbove(span, sig, stride, begin, capacity - 1);
      hits[capacity - 1] + stride
    else if hits != [] && hits[|hits| - 1] + stride >= span.End() then
      HitIsAbove(span, sig, stride, begin, |hits| - 1);
      hits[|hits| - 1] + stride
    else if begin < span.End() then span.End() else begin
  }

  /** The position in terms of the results: one stride behind the last of them if the output is full, and
      otherwise the end, unless the last result is less than a stride from it. */
  lemma StopsBehindResults(span: Span, sig: Signature, stride: nat, capacity: nat, results: seq<nat>)
    requires stride > 0
    requires var hits := HitsFrom(span, sig, stride, span.base);
             results == if capacity < |hits| then hits[..capacity] else hits
    ensures StopPosition(span, sig, stride, span.base, capacity) ==
              if capacity == 0 then span.base
              else if |results| == capacity then results[|results| - 1] + stride
              else if results == [] then span.End()
              else Max(span.End(), results[|results| - 1] + stride)
  {
  }

  lemma NoHitsPastEnd(span: Span, sig: Signature, stride: nat, from: nat)
    requires stride > 0 && sig != [] && span.End() <= from
    ensures HitsFrom(span, sig, stride, from) == []
  {
  }

  lemma FirstOfHits(span: Span, sig: Signature, stride: nat, from: nat)
    requires stride > 0 && HitsFrom(span, sig, stride, from) != []
    ensures var hits := HitsFrom(span, sig, stride, from);
            from <= hits[0] && Hit(span, sig, stride, hits[0])
            && hits == [hits[0]] + HitsFrom(span, sig, stride, hits[0] + stride)
  {
    HitsFromExact(span, sig, stride, from);
    var hits := HitsFrom(span, sig, stride, from);
    assert hits[0] in hits;
    assert forall i :: 0 <= i < |hits| ==> hits[0] <= hits[i];
    assert forall a: nat :: from <= a < hits[0] ==> a !in hits;
    HitThenStride(span, sig, stride, from, hits[0]);
  }

  /** One stride after the k-th hit, the hits from the k-th on remain. */
  lemma {:induction false} HitsAfter(span: Span, sig: Signature, stride: nat, from: nat, k: nat)
    requires stride > 0 && 0 < k <= |HitsFrom(span, sig, stride, from)|
    ensures var hits := HitsFrom(span, sig, stride, from);
            HitsFrom(span, sig, stride, hits[k - 1] + stride) == hits[k..]
    decreases k
  {
    FirstOfHits(span, sig, stride, from);
    var hits := HitsFrom(span, sig, stride, from);
    if k > 1 {
      var rest := HitsFrom(span, sig, stride, hits[0] + stride);
      assert rest == hits[1..];
      HitsAfter(span, sig, stride, hits[0] + stride, k - 1);
      assert rest[k - 2] == hits[k - 1] && rest[k - 1..] == hits[k..];
    }
  }

  /** Resuming where a bounded search stopped loses no hit and repeats none. */
  lemma ResumeFindsTheRest(span: Span, sig: Signature, stride: nat, begin: nat, capacity: nat)
    requires stride > 0 && sig != []
    ensures var hits := HitsFrom(span, sig, stride, begin);
            HitsFrom(span, sig, stride, StopPosition(span, sig, stride, begin, capacity))
            == hits[Min(capacity, |hits|)..]
  {
    var hits := HitsFrom(span, sig, stride, begin);
    if capacity != 0 {
      if capacity <= |hits| {
        HitsAfter(span, sig, stride, begin, capacity);
      } else {
        NoHitsPastEnd(span, sig, stride, StopPosition(span, sig, stride, begin, capacity));
      }
    }
  }

  function Sum(capacities: seq<nat>): nat {
    if capacities == [] then 0 else capacities[0] + Sum(capacities[1..])
  }

  /** The results of one search for each capacity. A search gets what is left of the span behind the
      position at which the search before it stopped, and there is none once that is the end. */
  function Batches(span: Span, sig: Signature, stride: nat, capacities: seq<nat>): seq<nat>
    requires stride > 0
    decreases |capacities|
  {
    if capacities == [] then [] else
    var hits := HitsFrom(span, sig, stride, span.base);
    var position := StopPosition(span, sig, stride, span.base, capacities[0]);
    hits[..Min(capacities[0], |hits|)]
    + if position < span.End() then Batches(span.Sub(position, span.End()), sig, stride, capacities[1..]) else []
  }

  /** The hits of what is left of a span are the hits of the span from there on. */
  lemma {:induction false} HitsOfRemainder(span: Span, sig: Signature, stride: nat, lo: nat, from: nat)
    requires stride > 0 && span.base <= lo <= span.End() && lo <= from
    ensures HitsFrom(span.Sub(lo, span.End()), sig, stride, from) == HitsFrom(span, sig, stride, from)
    decreases span.End() + 1 - from
  {
    if from + |sig| <= span.End() {
      HitInSub(span, sig, stride, lo, span.End(), from);
      HitsOfRemainder(span, sig, stride, lo, from + 1);
    }
  }

  lemma TakeTwice(hits: seq<nat>, a: nat, b: nat)
    ensures var k := Min(a, |hits|);
            hits[..k] + hits[k..][..Min(b, |hits[k..]|)] == hits[..Min(a + b, |hits|)]
  {
  }

  /** However the room is split into batches, the batches concatenate to the full list of hits, cut
      at the total room. */
  lemma {:induction false} BatchesConcatenate(span: Span, sig: Signature, stride: nat, capacities: seq<nat>)
    requires stride > 0 && sig != []
    ensures var hits := HitsFrom(span, sig, stride, span.base);
            Batches(span, sig, stride, capacities) == hits[..Min(Sum(capacities), |hits|)]
    decreases |capacities|
  {
    if capacities != [] {
      var position := StopPosition(span, sig, stride, span.base, capacities[0]);
      ResumeFindsTheRest(span, sig, stride, span.base, capacities[0]);
      if position < span.End() {
        HitsOfRemainder(span, sig, stride, position, position);
        BatchesConcatenate(span.Sub(position, span.End()), sig, stride, capacities[1..]);
      } else {
        NoHitsPastEnd(span, sig, stride, position);
      }
      TakeTwice(HitsFrom(span, sig, stride, span.base), capacities[0], Sum(capacities[1..]));
    }
  }

  // ----- the steps of a search

  /** r is the first hit at or above i. */
  ghost predicate NextHit(span: Span, sig: Signature, stride: nat, i: nat, r: Option<nat>)
    requires stride > 0
  {
    match r
    case Some(p) => i <= p && Hit(span, sig, stride, p) && forall a: nat :: i <= a < p ==> !Hit(span, sig, stride, a)
    case None => forall a: nat :: i <= a ==> !Hit(span, sig, stride, a)
  }

  /** A scan of the rest of the span, seen from the whole span. */
  lemma HitsOfRest(span: Span, sig: Signature, stride: nat, i: nat, r: Option<nat>)
    requires stride > 0 && span.base <= i < span.End()
    requires FirstHit(span.Sub(i, span.End()), sig, stride, r)
    ensures NextHit(span, sig, stride, i, r)
  {
    forall a: nat | i <= a
      ensures Hit(span.Sub(i, span.End()), sig, stride, a) <==> Hit(span, sig, stride, a)
    {
      HitInSub(span, sig, stride, i, span.End(), a);
    }
    if r.Some? { HitInSub(span, sig, stride, i, span.End(), r.value); }
  }

  ghost predicate Ascending(out: seq<nat>) {
    forall k, l :: 0 <= k < l < |out| ==> out[k] < out[l]
  }

  /** The results so far are the hits of the span below i, in order. */
  ghost predicate Listed(span: Span, sig: Signature, stride: nat, out: seq<nat>, i: nat)
    requires stride > 0
  {
    && span.base <= i && Ascending(out)
    && (forall a: nat :: a in out <==> Hit(span, sig, stride, a) && a < i)
  }

  lemma ListNext(span: Span, sig: Signature, stride: nat, out: seq<nat>, i: nat, p: nat)
    requires stride > 0
    requires Listed(span, sig, stride, out, i) && NextHit(span, sig, stride, i, Some(p))
    ensures Listed(span, sig, stride, out + [p], p + stride)
  {
    assert forall k :: 0 <= k < |out| ==> out[k] in out;
    forall a: nat
      ensures a in out + [p] <==> Hit(span, sig, stride, a) && a < p + stride
    {
      assert a in out + [p] <==> a in out || a == p;
      if p < a < p + stride { NoMultipleBetween(p, stride, a); }
    }
  }

  lemma {:induction false} AscendingIsUnique(out: seq<nat>, hits: seq<nat>)
    requires Ascending(out) && Ascending(hits)
    requires forall a: nat :: a in out <==> a in hits
    ensures out == hits
  {
    assert out != [] ==> out[0] in out;
    assert hits != [] ==> hits[0] in hits;
    if out != [] && hits != [] {
      var p, q := out[|out| - 1], hits[|hits| - 1];
      assert p in hits && q in out;
      assert p == q;
      var front, front' := out[..|out| - 1], hits[..|hits| - 1];
      forall a: nat
        ensures a in front <==> a in front'
      {
        assert a in out <==> a in front || a == p;
        assert a in hits <==> a in front' || a == q;
        assert p !in front && q !in front';
      }
      AscendingIsUnique(front, front');
      assert out == front + [p] && hits == front' + [q];
    }
  }

  /** What is listed and what is still to come make up the hits of the span. */
  lemma ListedSplits(span: Span, sig: Signature, stride: nat, out: seq<nat>, i: nat)
    requires stride > 0 && Listed(span, sig, stride, out, i)
    ensures HitsFrom(span, sig, stride, span.base) == out + HitsFrom(span, sig, stride, i)
  {
    var hits, rest := HitsFrom(span, sig, stride, span.base), HitsFrom(span, sig, stride, i);
    HitsFromExact(span, sig, stride, span.base);
    HitsFromExact(span, sig, stride, i);
    assert forall k :: 0 <= k < |out| ==> out[k] in out;
    assert forall k :: 0 <= k < |rest| ==> rest[k] in rest;
    forall a: nat
      ensures a in out + rest <==> a in hits
    {
      assert a in out + rest <==> a in out || a in rest;
    }
    AscendingIsUnique(out + rest, hits);
  }

  lemma ListedAll(span: Span, sig: Signature, stride: nat, out: seq<nat>, i: nat)
    requires stride > 0 && sig != [] && Listed(span, sig, stride, out, i)
    requires span.End() <= i || NextHit(span, sig, stride, i, None)
    ensures HitsFrom(span, sig, stride, span.base) == out
  {
    var rest := HitsFrom(span, sig, stride, i);
    assert rest != [] ==> rest[0] in rest;
    ListedSplits(span, sig, stride, out, i);
    HitsFromExact(span, sig, stride, i);
  }

  /** Where the bounded search stands after the results in out. */
  ghost predicate Stands(span: Span, stride: nat, out: seq<nat>, i: nat) {
    i == if out == [] then span.base else out[|out| - 1] + stride
  }

  /** The bounded search stops with its output full or with all hits found, and where it then stands
      is the stop position. */
  lemma Stopped(span: Span, sig: Signature, stride: nat, out: seq<nat>, i: nat, capacity: nat, exhausted: bool)
    requires stride > 0 && sig != [] && |out| <= capacity
    requires Listed(span, sig, stride, out, i) && Stands(span, stride, out, i)
    requires exhausted ==> |out| < capacity && i < span.End() && NextHit(span, sig, stride, i, None)
    requires !exhausted ==> span.End() <= i || |out| == capacity
    ensures var hits := HitsFrom(span, sig, stride, span.base);
            |out| == Min(capacity, |hits|) && out == hits[..|out|]
    ensures StopPosition(span, sig, stride, span.base, capacity) == if exhausted then span.End() else i
  {
    ListedSplits(span, sig, stride, out, i);
    if exhausted || span.End() <= i {
      ListedAll(span, sig, stride, out, i);
    }
  }

  // ----- the position and the end of the input

  ghost predicate StopsInRange(sig: Signature, stride: nat, span: Span, begin: nat, capacity: nat)
    requires stride > 0
  {
    span.base <= begin <= span.End() ==> StopPosition(span, sig, stride, begin, capacity) <= span.End()
  }

  lemma StopsInRangeIfLong(sig: Signature, stride: nat, span: Span, begin: nat, capacity: nat)
    requires 0 < stride <= |sig|
    ensures StopsInRange(sig, stride, span, begin, capacity)
  {
    HitsFromExact(span, sig, stride, begin);
    var hits := HitsFrom(span, sig, stride, begin);
    assert forall k :: 0 <= k < |hits| ==> hits[k] in hits;
  }

  /** A span that holds nothing but one match, at the second multiple of the stride. */
  function OnlyMatch(sig: Signature, stride: nat): Span {
    Span(stride, seq(|sig|, k requires 0 <= k < |sig| => sig[k].value))
  }

  lemma OverrunIfShort(sig: Signature, stride: nat)
    requires 0 < |sig| < stride
    ensures !StopsInRange(sig, stride, OnlyMatch(sig, stride), stride, 1)
  {
  }

  /** The returned position can be relied on to lie in the input exactly for the signatures that
      are at least one stride long. A shorter one can be overrun: OnlyMatch is such an input. */
  lemma PositionInRangeIffLong(sig: Signature, stride: nat)
    requires stride > 0 && sig != []
    ensures (forall span: Span, begin: nat, capacity: nat :: StopsInRange(sig, stride, span, begin, capacity))
            <==> stride <= |sig|
  {
    if stride <= |sig| {
      forall span: Span, begin: nat, capacity: nat
        ensures StopsInRange(sig, stride, span, begin, capacity)
      {
        StopsInRangeIfLong(sig, stride, span, begin, capacity);
      }
    } else {
      OverrunIfShort(sig, stride);
    }
  }
}
