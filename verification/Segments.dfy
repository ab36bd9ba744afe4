/** The partition of a scan into a scalar head, a run of aligned vectors and a scalar tail. */
module Segments {
  import opened Words
  import opened Results

  /** The addresses lo, .., hi - 1. */
  datatype Range = Range(lo: nat, hi: nat)

  /** An absent part is the source's empty span. The vector part is a range of anchor addresses. */
  datatype Segmentation = Segmentation(pre: Option<Range>, vec: Option<Range>, post: Option<Range>)

  lemma AlignUpIsMultiple(address: nat, alignment: nat)
    requires alignment > 0
    ensures address % alignment == 0 || (address + alignment - address % alignment) % alignment == 0
  {
    var q, r := address / alignment, address % alignment;
    assert address == q * alignment + r;
    assert address + alignment - r == (q + 1) * alignment + 0 by {
      assert (q + 1) * alignment == q * alignment + alignment;
    }
    DivisionIsUnique(address + alignment - r, alignment, q + 1, 0);
  }

  /** The least multiple of the alignment at or above the address. */
  function AlignUp(address: nat, alignment: nat): (r: nat)
    requires alignment > 0
    ensures r % alignment == 0
    ensures address <= r < address + alignment
  {
    var mod := address % alignment;
    var r := address + if mod != 0 then alignment - mod else 0;
    AlignUpIsMultiple(address, alignment);
    r
  }

  function ValidateRange(lo: nat, hi: nat, signatureSize: nat): Option<Range> {
    if lo <= hi && hi - lo >= signatureSize then Some(Range(lo, hi)) else None
  }

  /** As many whole vectors as fit with the required number of bytes left after them. */
  function VectorBytes(available: nat, required: nat, V: nat): (bytes: nat)
    requires V > 0
    ensures bytes % V == 0 && (bytes > 0 ==> V <= bytes && bytes + required <= available)
    ensures available < bytes + required + V
  {
    var vectors := if available >= required then (available - required) / V else 0;
    assert vectors > 0 ==> available - required == vectors * V + (available - required) % V;
    DivisionIsUnique(vectors * V, V, vectors, 0);
    assert vectors > 0 ==> vectors * V >= V;
    vectors * V
  }

  function SegmentScan(begin: nat, end: nat, signatureSize: nat, cmpOffset: nat, V: nat, veccmp: bool): Segmentation
    requires V > 0
  {
    var vecBegin := AlignUp(begin + cmpOffset, V);
    if vecBegin > end then Segmentation(ValidateRange(begin, end, signatureSize), None, None) else
    var vecAvailable := end - vecBegin;
    var requiredAfter := if veccmp then V else signatureSize;
    var vecEnd := vecBegin + VectorBytes(vecAvailable, requiredAfter, V);
    if vecBegin == vecEnd then Segmentation(ValidateRange(begin, end, signatureSize), None, None) else
    var preEnd := vecBegin - cmpOffset + signatureSize;
    Segmentation(
      ValidateRange(begin, preEnd, signatureSize),
      Some(Range(vecBegin, vecEnd)),
      ValidateRange(vecEnd - cmpOffset, end, signatureSize))
  }

  // ----- the start addresses each part is responsible for

  predicate StartsInRange(part: Option<Range>, signatureSize: nat, a: nat) {
    part.Some? && part.value.lo <= a && a + signatureSize <= part.value.hi
  }

  predicate StartsInVectors(vec: Option<Range>, cmpOffset: nat, a: nat) {
    vec.Some? && vec.value.lo <= a + cmpOffset < vec.value.hi
  }

  lemma RangeOfVectors(begin: nat, end: nat, signatureSize: nat, cmpOffset: nat, V: nat, veccmp: bool)
    requires V > 0 && 0 < signatureSize <= end - begin && cmpOffset < signatureSize
    requires veccmp ==> signatureSize <= V
    ensures var vec := SegmentScan(begin, end, signatureSize, cmpOffset, V, veccmp).vec;
            vec.Some? ==>
              && begin + cmpOffset <= vec.value.lo < begin + cmpOffset + V
              && vec.value.lo + V <= vec.value.hi
              && vec.value.hi + signatureSize <= end
              && (veccmp ==> vec.value.hi + V <= end)
              && vec.value.lo % V == 0
              && (vec.value.hi - vec.value.lo) % V == 0
    ensures var vec := SegmentScan(begin, end, signatureSize, cmpOffset, V, veccmp).vec;
            end < (if vec.Some? then vec.value.hi else AlignUp(begin + cmpOffset, V))
                  + (if veccmp then V else signatureSize) + V
  {
  }

  /** No candidate start is lost, and only one is looked at twice: the last start of the head
      is the first start of the vectors. Without vectors the head is the whole range. */
  lemma SegmentsCoverExactly(begin: nat, end: nat, signatureSize: nat, cmpOffset: nat, V: nat, veccmp: bool)
    requires V > 0 && 0 < signatureSize <= end - begin && cmpOffset < signatureSize
    requires veccmp ==> signatureSize <= V
    ensures
      var s := SegmentScan(begin, end, signatureSize, cmpOffset, V, veccmp);
      && (forall a: nat :: begin <= a && a + signatureSize <= end <==>
            || StartsInRange(s.pre, signatureSize, a)
            || StartsInVectors(s.vec, cmpOffset, a)
            || StartsInRange(s.post, signatureSize, a))
      && (forall a: nat, b: nat ::
            StartsInRange(s.pre, signatureSize, a) && StartsInVectors(s.vec, cmpOffset, b) ==> a <= b)
      && (forall a: nat, b: nat ::
            StartsInVectors(s.vec, cmpOffset, a) && StartsInRange(s.post, signatureSize, b) ==> a < b)
      && (s.vec.Some? ==> forall a: nat ::
            StartsInRange(s.pre, signatureSize, a) && StartsInVectors(s.vec, cmpOffset, a)
            <==> a == s.vec.value.lo - cmpOffset)
      && (s.vec.None? ==> s.pre == Some(Range(begin, end)) && s.post.None?)
  {
  }

  /** Every address a vector scan touches while it looks at the vector at it lies in the range:
      the vector itself, the vector one byte further, and for each lane the whole signature
      and, where a vector compare is used, a whole vector at the start of the signature. */
  lemma VectorAccessesInRange(
    begin: nat, end: nat, signatureSize: nat, cmpOffset: nat, V: nat, veccmp: bool, it: nat, lane: nat)
    requires V > 0 && 0 < signatureSize <= end - begin && cmpOffset < signatureSize
    requires veccmp ==> signatureSize <= V
    requires var vec := SegmentScan(begin, end, signatureSize, cmpOffset, V, veccmp).vec;
             vec.Some? && vec.value.lo <= it && it + V <= vec.value.hi
    requires lane < V
    ensures begin <= it && it + V + 1 <= end
    ensures begin <= it + lane - cmpOffset && it + lane - cmpOffset + signatureSize <= end
    ensures veccmp ==> it + lane - cmpOffset + V <= end
  {
  }
}
