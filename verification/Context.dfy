/** The scan context: the anchors a scan looks for first, and the scan function chosen for them. */
module Context {
  import opened Signatures
  import opened Results
  import opened PairTables

  datatype ScanAlignment = X1 | X4 | X16 {
    function Stride(): (s: nat)
      ensures s > 0
    {
      match this
      case X1 => 1
      case X4 => 4
      case X16 => 16
    }
  }

  /** The flags of scan_hint. */
  datatype ScanHint = ScanHint(x86_64: bool, pair0: bool, aarch64: bool)

  /** The frequency tables compiled into the library. */
  datatype HintTables = HintTables(x86_64: Option<PairTable>, aarch64: Option<PairTable>) {
    predicate Valid() {
      && (x86_64.Some? ==> x86_64.value.Valid())
      && (aarch64.Some? ==> aarch64.value.Valid())
    }
  }

  function GetPairHint(tables: HintTables, hints: ScanHint): Option<PairTable> {
    if tables.x86_64.Some? && hints.x86_64 then tables.x86_64
    else if tables.aarch64.Some? && hints.aarch64 then tables.aarch64
    else None
  }

  datatype ScanMode = Auto | Single | SSE | AVX2 | AVX512 | Neon {
    /** Bytes per vector, and 0 for the scan without vectors. */
    function VectorSize(): nat {
      match this
      case SSE => 16
      case AVX2 => 32
      case AVX512 => 64
      case Neon => 16
      case _ => 0
    }
  }

  /** What the build targets, and what the build or the processor offers. */
  datatype System = System(
    x86: bool, x86_64: bool, arm: bool, aarch64: bool, featureSse: bool, featureAvx512: bool,
    bmi: bool, avx512f: bool, avx512bw: bool, avx2: bool, sse41: bool, neon: bool)
  {
    /** The scan of this mode is part of the build, and the processor has the instructions it is compiled for. */
    predicate Runs(mode: ScanMode) {
      match mode
      case Auto => false
      case Single => true
      case SSE => (x86 || x86_64) && featureSse && sse41
      case AVX2 => (x86 || x86_64) && avx2 && bmi
      case AVX512 => x86_64 && featureAvx512 && avx512f && avx512bw && bmi
      case Neon => (arm || aarch64) && neon
    }
  }

  /** A scan that runs on the system, and none with longer vectors does. */
  function ResolveAuto(system: System): (mode: ScanMode)
    ensures system.Runs(mode)
    ensures mode == AVX512 ==> system.x86_64 && system.avx512f && system.avx512bw && system.bmi
    ensures mode == AVX2 ==> (system.x86 || system.x86_64) && system.avx2 && system.bmi
    ensures mode == SSE ==> (system.x86 || system.x86_64) && system.sse41
    ensures mode == Neon ==> (system.arm || system.aarch64) && system.neon
    ensures forall m: ScanMode :: system.Runs(m) ==> m.VectorSize() <= mode.VectorSize()
  {
    var onX86 := system.x86 || system.x86_64;
    if onX86 && system.bmi && system.x86_64 && system.featureAvx512 && system.avx512f && system.avx512bw then AVX512
    else if onX86 && system.bmi && system.avx2 then AVX2
    else if onX86 && system.featureSse && system.sse41 then SSE
    else if (system.arm || system.aarch64) && system.neon then Neon
    else Single
  }

  /** An instantiation of one of the scan function templates. */
  datatype ScanFunction =
    | SingleScan(alignment: ScanAlignment)
    | VectorScan(mode: ScanMode, alignment: ScanAlignment, cmpeq2: bool, veccmp: bool)

  /** Whether apply_hints consults a frequency table. */
  predicate Informed(tables: HintTables, hints: ScanHint, vectorSize: nat) {
    GetPairHint(tables, hints).Some? && !hints.pair0 && vectorSize != 0
  }

  /** The pair anchor without a frequency table: the first pair, and under pair0 only one at index 0. */
  ghost predicate FirstPair(sig: Signature, pair0: bool, r: Option<nat>) {
    match r
    case Some(p) => PairAt(sig, p) && (pair0 ==> p == 0) && forall j: nat :: j < p ==> !PairAt(sig, j)
    case None => forall j: nat :: PairAt(sig, j) ==> pair0 && j > 0
  }

  /** The pair anchor that is chosen for a signature, where before is the one chosen earlier. */
  ghost predicate Choice(
    sig: Signature, hints: ScanHint, tables: HintTables, vectorSize: nat, before: Option<nat>, r: Option<nat>)
    requires tables.Valid()
  {
    if Informed(tables, hints, vectorSize) && (exists j: nat :: PairAt(sig, j)) then
      r.Some? && BestPair(GetPairHint(tables, hints).value, sig, r.value)
    else if before.Some? then
      r == before
    else
      FirstPair(sig, hints.pair0, r)
  }

  /** An anchor is found exactly if there is a pair, and under pair0 exactly if the signature begins with one. */
  lemma ChoiceExists(sig: Signature, hints: ScanHint, tables: HintTables, vectorSize: nat, r: Option<nat>)
    requires tables.Valid() && Choice(sig, hints, tables, vectorSize, None, r)
    ensures r.Some? ==> r.value + 1 < |sig| && sig[r.value].All() && sig[r.value + 1].All()
    ensures hints.pair0 ==> r == if |sig| > 1 && sig[0].All() && sig[1].All() then Some(0) else None
    ensures r.None? && !hints.pair0 ==> forall j :: 0 <= j < |sig| - 1 ==> !(sig[j].All() && sig[j + 1].All())
  {
    if |sig| > 1 && sig[0].All() && sig[1].All() { assert PairAt(sig, 0); }
    forall j | 0 <= j < |sig| - 1 && sig[j].All() && sig[j + 1].All()
      ensures r.None? ==> hints.pair0
    {
      assert PairAt(sig, j);
    }
  }

  /** The table of the first hint that is given and compiled in, x86_64 before aarch64, decides the anchor:
      no pair scores higher, and no pair further left scores as high. */
  lemma ChoiceIsBest(sig: Signature, hints: ScanHint, tables: HintTables, vectorSize: nat, p: nat, table: PairTable)
    requires tables.Valid() && Choice(sig, hints, tables, vectorSize, None, Some(p))
    requires !hints.pair0 && vectorSize > 0
    requires || (hints.x86_64 && tables.x86_64 == Some(table))
             || (!(hints.x86_64 && tables.x86_64.Some?) && hints.aarch64 && tables.aarch64 == Some(table))
    ensures p + 1 < |sig|
    ensures forall j :: 0 <= j < |sig| - 1 && sig[j].All() && sig[j + 1].All() ==>
              var score := table.ScoreOf(BytePair(sig[p].value, sig[p + 1].value));
              var other := table.ScoreOf(BytePair(sig[j].value, sig[j + 1].value));
              other <= score && (j < p ==> other < score)
  {
    if exists j: nat :: PairAt(sig, j) {
      assert BestPair(table, sig, p);
      forall j | 0 <= j < |sig| - 1 && sig[j].All() && sig[j + 1].All()
        ensures PairScore(table, sig, j) <= PairScore(table, sig, p)
        ensures j < p ==> PairScore(table, sig, j) < PairScore(table, sig, p)
      {
        assert PairAt(sig, j);
      }
    }
  }

  /** Without a table the anchor is the first pair. */
  lemma ChoiceIsFirst(sig: Signature, hints: ScanHint, tables: HintTables, vectorSize: nat, p: nat)
    requires tables.Valid() && Choice(sig, hints, tables, vectorSize, None, Some(p))
    requires || hints.pair0 || vectorSize == 0
             || (!(hints.x86_64 && tables.x86_64.Some?) && !(hints.aarch64 && tables.aarch64.Some?))
    ensures forall j :: 0 <= j < p && j + 1 < |sig| ==> !(sig[j].All() && sig[j + 1].All())
  {
    forall j | 0 <= j < p && j + 1 < |sig|
      ensures !(sig[j].All() && sig[j + 1].All())
    {
      assert !PairAt(sig, j);
    }
  }

  class ScanContext {
    var signature: Signature
    var scanner: ScanFunction
    var alignment: ScanAlignment
    var hints: ScanHint
    var cmpIndex: nat
    var pairIndex: Option<nat>

    /** The anchors are fully masked bytes of the signature. */
    predicate Anchored()
      reads this
    {
      && cmpIndex < |signature| && signature[cmpIndex].All()
      && (pairIndex.Some? ==> PairAt(signature, pairIndex.value))
    }

    predicate Valid()
      reads this
    {
      && Anchored()
      && match scanner
         case SingleScan(a) => a == alignment
         case VectorScan(mode, a, cmpeq2, veccmp) =>
           && mode.VectorSize() > 0 && a == alignment
           && cmpeq2 == pairIndex.Some?
           && veccmp == (|signature| <= mode.VectorSize())
    }

    /** The index of the anchor byte of a vector scan. */
    function Anchor(cmpeq2: bool): (c: nat)
      requires Anchored() && (cmpeq2 ==> pairIndex.Some?)
      reads this
      ensures c < |signature| && signature[c].All()
      ensures cmpeq2 ==> PairAt(signature, c)
    {
      if cmpeq2 then pairIndex.value else cmpIndex
    }

    /** What apply_hints leaves in pairIndex, which held before on entry. */
    ghost predicate PairChosen(tables: HintTables, vectorSize: nat, before: Option<nat>)
      requires tables.Valid()
      reads this
    {
      Choice(signature, hints, tables, vectorSize, before, pairIndex)
    }

    /** The informed choice of apply_hints: the leftmost pair of maximum score. */
    method FindBestPair(table: PairTable) returns (r: Option<nat>)
      requires Anchored() && table.Valid()
      ensures match r
              case Some(p) => BestPair(table, signature, p)
              case None => forall j: nat :: !PairAt(signature, j)
    {
      var sig := signature;
      var bestPair: Option<(nat, nat)> := None;
      for i := 0 to |sig| - 1
        invariant bestPair.None? ==> forall j :: 0 <= j < i ==> !PairAt(sig, j)
        invariant bestPair.Some? ==>
          && bestPair.value.0 < i
          && BestPairBelow(table, sig, i, bestPair.value.0)
          && bestPair.value.1 == PairScore(table, sig, bestPair.value.0)
      {
        if sig[i].All() && sig[i + 1].All() {
          assert PairAt(sig, i);
          var score := table.GetScore(sig[i].value, sig[i + 1].value);
          if bestPair.None? || score > bestPair.value.1 {
            bestPair := Some((i, score));
          }
        }
      }
      r := if bestPair.Some? then Some(bestPair.value.0) else None;
    }

    /** The plain choice of apply_hints: the first pair, and under pair0 only one at index 0. */
    method FindFirstPair() returns (r: Option<nat>)
      requires Anchored()
      ensures FirstPair(signature, hints.pair0, r)
    {
      for i := 0 to |signature| - 1
        invariant hints.pair0 ==> i == 0
        invariant forall j :: 0 <= j < i ==> !PairAt(signature, j)
      {
        var a, b := signature[i], signature[i + 1];
        if a.All() && b.All() {
          return Some(i);
        }
        assert !PairAt(signature, i);
        if i == 0 && hints.pair0 {
          return None;
        }
      }
      return None;
    }

    method ApplyHints(vectorSize: nat, tables: HintTables)
      requires Anchored() && tables.Valid()
      modifies this`pairIndex
      ensures Anchored()
      ensures PairChosen(tables, vectorSize, old(pairIndex))
    {
      var pairHint := GetPairHint(tables, hints);
      if pairHint.Some? && !hints.pair0 && vectorSize != 0 {
        var best := FindBestPair(pairHint.value);
        if best.Some? {
          pairIndex := best;
        }
      }

      if pairIndex.None? {
        pairIndex := FindFirstPair();
      }
    }

    method ResolveScanner(mode: ScanMode, tables: HintTables)
      requires Anchored() && mode != Auto && tables.Valid()
      modifies this`scanner, this`pairIndex
      ensures Valid()
      ensures if mode == Single then scanner == SingleScan(alignment) && pairIndex == old(pairIndex)
              else scanner.VectorScan? && scanner.mode == mode && PairChosen(tables, mode.VectorSize(), old(pairIndex))
      ensures mode == SSE || mode == Neon ==> scanner.veccmp == (|signature| <= 16)
      ensures mode == AVX2 ==> scanner.veccmp == (|signature| <= 32)
      ensures mode == AVX512 ==> scanner.veccmp == (|signature| <= 64)
    {
      if mode == Single {
        scanner := SingleScan(alignment);
      } else {
        ApplyHints(mode.VectorSize(), tables);
        scanner := VectorScan(mode, alignment, pairIndex.Some?, |signature| <= mode.VectorSize());
      }
    }

    constructor Create(
      signature: Signature, alignment: ScanAlignment, hints: ScanHint,
      mode: ScanMode, system: System, tables: HintTables)
      requires Scannable(signature) && tables.Valid()
      ensures Valid()
      ensures this.signature == signature && this.alignment == alignment && this.hints == hints
      ensures forall j :: 0 <= j < cmpIndex ==> !signature[j].All()
      ensures var m := if mode == Auto then ResolveAuto(system) else mode;
              if m == Single then scanner == SingleScan(alignment) && pairIndex == None
              else scanner.VectorScan? && scanner.mode == m && PairChosen(tables, m.VectorSize(), None)
    {
      var index := 0;
      while index < |signature|
        invariant index <= |signature|
        invariant forall j :: 0 <= j < index ==> !signature[j].All()
      {
        if signature[index].All() {
          break;
        }
        index := index + 1;
      }
      this.signature := signature;
      this.alignment := alignment;
      this.hints := hints;
      this.cmpIndex := index;
      this.pairIndex := None;
      this.scanner := SingleScan(alignment);
      new;
      ResolveScanner(if mode == Auto then ResolveAuto(system) else mode, tables);
    }
  }
}
