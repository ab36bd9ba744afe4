/** The two forms of find_all_pattern. */
module FindAll {
  import opened Signatures
  import opened Results
  import opened Matching
  import opened Resumption
  import opened Context
  import opened Scanner

  /** context.scan(i, end) */
  method ScanRest(context: ScanContext, signature: Signature, alignment: ScanAlignment, span: Span, i: nat)
    returns (r: Option<nat>)
    requires Ready(context, signature, alignment)
    requires span.base <= i < span.End()
    ensures NextHit(span, signature, alignment.Stride(), i, r)
  {
    r := Scan(context, span.Sub(i, span.End()));
    HitsOfRest(span, signature, alignment.Stride(), i, r);
  }

  /** The unbounded search: every match, overlapping ones included. */
  method FindAllPattern(
    span: Span, signature: Signature, alignment: ScanAlignment, hints: ScanHint,
    mode: ScanMode, system: System, tables: HintTables) returns (out: seq<nat>, matches: nat)
    requires Scannable(signature) && tables.Valid()
    requires RotationFits(signature, Resolved(mode, system))
    ensures out == HitsFrom(span, signature, alignment.Stride(), span.base)
    ensures alignment == X1 ==> out == HitsFrom(span, signature, 1, span.base)
    ensures alignment == X4 ==> out == HitsFrom(span, signature, 4, span.base)
    ensures alignment == X16 ==> out == HitsFrom(span, signature, 16, span.base)
    ensures matches == |out|
  {
    var context := CreateContext(signature, alignment, hints, mode, system, tables);
    var stride := alignment.Stride();
    var i := span.base;
    out, matches := [], 0;
    while i < span.End()
      invariant span.base <= i && matches == |out|
      invariant Ready(context, signature, alignment)
      invariant Listed(span, signature, stride, out, i)
      decreases span.End() - i
    {
      var result := ScanRest(context, signature, alignment, span, i);
      if result.None? {
        break;
      }
      ListNext(span, signature, stride, out, i, result.value);
      out := out + [result.value];
      i := result.value + stride;
      matches := matches + 1;
    }
    ListedAll(span, signature, stride, out, i);
  }

  /** The bounded search: as many matches as the output has room for, and the position at which it stopped. */
  method FindAllPatternBounded(
    span: Span, results: array<nat>, signature: Signature, alignment: ScanAlignment, hints: ScanHint,
    mode: ScanMode, system: System, tables: HintTables) returns (position: nat, written: nat)
    requires Scannable(signature) && tables.Valid()
    requires RotationFits(signature, Resolved(mode, system))
    modifies results
    ensures var hits := HitsFrom(span, signature, alignment.Stride(), span.base);
            written == Min(results.Length, |hits|) && results[..written] == hits[..written]
    ensures results[written..] == old(results[..])[written..]
    ensures position == StopPosition(span, signature, alignment.Stride(), span.base, results.Length)
  {
    var context := CreateContext(signature, alignment, hints, mode, system, tables);
    var stride := alignment.Stride();
    var i := span.base;
    written := 0;
    ghost var out: seq<nat> := [];
    ghost var exhausted, last := false, i;
    while i < span.End() && written != results.Length
      invariant written <= results.Length && span.base <= i
      invariant Ready(context, signature, alignment)
      invariant |out| == written && results[..written] == out
      invariant results[written..] == old(results[..])[written..]
      invariant last == i
      invariant Listed(span, signature, stride, out, i) && Stands(span, stride, out, i)
      decreases span.End() - i
    {
      var result := ScanRest(context, signature, alignment, span, i);
      if result.None? {
        exhausted := true;
        i := span.End();
        break;
      }
      ListNext(span, signature, stride, out, i, result.value);
      out := out + [result.value];
      results[written] := result.value;
      written := written + 1;
      i := result.value + stride;
      last := i;
    }
    Stopped(span, signature, stride, out, last, results.Length, exhausted);
    position := i;
  }

  /** A caller that searches on from the returned position, with one output for each capacity, until
      that position reaches the end. Its results are those of one search with all the room. */
  method FindInBatches(
    span: Span, capacities: seq<nat>, signature: Signature, alignment: ScanAlignment, hints: ScanHint,
    mode: ScanMode, system: System, tables: HintTables) returns (out: seq<nat>)
    requires Scannable(signature) && tables.Valid()
    requires RotationFits(signature, Resolved(mode, system))
    ensures out == Batches(span, signature, alignment.Stride(), capacities)
    ensures var hits := HitsFrom(span, signature, alignment.Stride(), span.base);
            out == hits[..Min(Sum(capacities), |hits|)]
    decreases |capacities|
  {
    BatchesConcatenate(span, signature, alignment.Stride(), capacities);
    if capacities == [] {
      return [];
    }
    var results := new nat[capacities[0]];
    var position, written :=
      FindAllPatternBounded(span, results, signature, alignment, hints, mode, system, tables);
    out := results[..written];
    if position < span.End() {
      var rest := FindInBatches(
        span.Sub(position, span.End()), capacities[1..], signature, alignment, hints, mode, system, tables);
      out := out + rest;
    }
  }
}
