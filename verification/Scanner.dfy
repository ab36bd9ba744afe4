/** The scan through a context, and find_pattern. */
module Scanner {
  import opened Signatures
  import opened Results
  import opened Matching
  import opened Context
  import SingleScanner
  import X86Scanner
  import NeonScanner

  /** Neon rotates by four times the anchor's index, which has to fit an int. */
  predicate RotationFits(signature: Signature, mode: ScanMode) {
    mode == Neon ==> |signature| * 4 <= 0x8000_0000
  }

  function Resolved(mode: ScanMode, system: System): ScanMode {
    if mode == Auto then ResolveAuto(system) else mode
  }

  /** The context made for this signature and alignment, and not changed since. */
  predicate Ready(context: ScanContext, signature: Signature, alignment: ScanAlignment)
    reads context
  {
    && context.Valid() && context.signature == signature && context.alignment == alignment
    && (context.scanner.VectorScan? ==> RotationFits(signature, context.scanner.mode))
  }

  /** scan_context::scan */
  method Scan(context: ScanContext, span: Span) returns (r: Option<nat>)
    requires context.Valid()
    requires context.scanner.VectorScan? ==> RotationFits(context.signature, context.scanner.mode)
    ensures FirstHit(span, context.signature, context.alignment.Stride(), r)
    ensures context.alignment == X1 ==> FirstHit(span, context.signature, 1, r)
    ensures context.alignment == X4 ==> FirstHit(span, context.signature, 4, r)
    ensures context.alignment == X16 ==> FirstHit(span, context.signature, 16, r)
  {
    if |context.signature| > |span.bytes| {
      return None;
    }
    match context.scanner
    case SingleScan(_) =>
      r := SingleScanner.FindPatternSingle(span, context);
    case VectorScan(mode, _, cmpeq2, veccmp) =>
      if mode == Neon {
        r := NeonScanner.FindPattern(span, context, cmpeq2, veccmp);
      } else {
        r := X86Scanner.FindPattern(mode.VectorSize(), span, context, cmpeq2, veccmp);
      }
  }

  method CreateContext(
    signature: Signature, alignment: ScanAlignment, hints: ScanHint, mode: ScanMode, system: System, tables: HintTables)
    returns (context: ScanContext)
    requires Scannable(signature) && tables.Valid()
    requires RotationFits(signature, Resolved(mode, system))
    ensures fresh(context) && Ready(context, signature, alignment)
  {
    context := new ScanContext.Create(signature, alignment, hints, mode, system, tables);
  }

  /** The leftmost match, whatever the mode, the hints, the tables and the processor. */
  method FindPattern(
    span: Span, signature: Signature, alignment: ScanAlignment, hints: ScanHint,
    mode: ScanMode, system: System, tables: HintTables) returns (r: Option<nat>)
    requires Scannable(signature) && tables.Valid()
    requires RotationFits(signature, Resolved(mode, system))
    ensures FirstHit(span, signature, alignment.Stride(), r)
    ensures alignment == X1 ==> FirstHit(span, signature, 1, r)
    ensures alignment == X4 ==> FirstHit(span, signature, 4, r)
    ensures alignment == X16 ==> FirstHit(span, signature, 16, r)
  {
    var context := CreateContext(signature, alignment, hints, mode, system, tables);
    r := Scan(context, span);
  }
}
