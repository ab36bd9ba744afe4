/** The memory map of a Linux process: reading its lines, and asking whether a range of addresses
    carries a protection flag. */
module MemoryMap {
  import opened Words
  import opened Results
  import opened StringConversion

  const PROT_READ: nat := 1
  const PROT_WRITE: nat := 2
  const PROT_EXEC: nat := 4

  datatype Region = Region(begin: nat, end: nat, prot: nat) {
    predicate Contains(a: nat) { begin <= a < end }

    predicate Carries(flags: nat) { And(prot, flags) != 0 }
  }

  // ----- one line of the map

  predicate IsHexDigit(ch: char) { DigitValue(ch, 16).Some? }

  /** The end of the run of hexadecimal digits that starts at first. */
  function DigitsEnd(s: string, first: nat): (end: nat)
    requires first <= |s|
    ensures first <= end <= |s|
    ensures forall i :: first <= i < end ==> IsHexDigit(s[i])
    ensures end < |s| ==> !IsHexDigit(s[end])
    decreases |s| - first
  {
    if first < |s| && IsHexDigit(s[first]) then DigitsEnd(s, first + 1) else first
  }

  datatype FromCharsResult = FromCharsResult(ok: bool, value: nat, ptr: nat)

  lemma OneMoreDigit(s: string, first: nat, ptr: nat)
    requires first <= ptr < |s| && LegalDigits(s[first..ptr], 16) && IsHexDigit(s[ptr])
    ensures LegalDigits(s[first..ptr + 1], 16)
    ensures Positional(s[first..ptr + 1], 16) == Positional(s[first..ptr], 16) * 16 + DigitValue(s[ptr], 16).value
  {
    assert s[first..ptr + 1] == s[first..ptr] + [s[ptr]];
    assert s[first..ptr + 1][..ptr - first] == s[first..ptr];
  }

  /** std::from_chars in base 16 for a 64-bit unsigned integer: the value of the leading digits.
      There must be digits, and the value must fit. */
  method FromChars(s: string, first: nat) returns (r: FromCharsResult)
    requires first <= |s|
    ensures r.ptr == DigitsEnd(s, first)
    ensures LegalDigits(s[first..r.ptr], 16)
    ensures r.ok <==> first < r.ptr && Positional(s[first..r.ptr], 16) < LIMIT64
    ensures r.ok ==> r.value == Positional(s[first..r.ptr], 16)
  {
    var ptr, value := first, 0;
    while ptr < |s| && DigitValue(s[ptr], 16).Some?
      invariant first <= ptr <= |s| && DigitsEnd(s, first) == DigitsEnd(s, ptr)
      invariant LegalDigits(s[first..ptr], 16) && value == Positional(s[first..ptr], 16)
    {
      OneMoreDigit(s, first, ptr);
      value := value * 16 + DigitValue(s[ptr], 16).value;
      ptr := ptr + 1;
    }
    r := FromCharsResult(first < ptr && value < LIMIT64, value, ptr);
  }

  function Protection(permissions: string): nat
    requires |permissions| >= 3
  {
    Or(Or(if permissions[0] == 'r' then PROT_READ else 0, if permissions[1] == 'w' then PROT_WRITE else 0),
       if permissions[2] == 'x' then PROT_EXEC else 0)
  }

  /** Each flag is a bit of its own, so the flags can be told apart again. */
  lemma ProtectionBits(permissions: string)
    requires |permissions| >= 3
    ensures var p := Protection(permissions);
            && (And(p, PROT_READ) != 0 <==> permissions[0] == 'r')
            && (And(p, PROT_WRITE) != 0 <==> permissions[1] == 'w')
            && (And(p, PROT_EXEC) != 0 <==> permissions[2] == 'x')
  {
  }

  /** The first number of the line, and the rest behind the character that ends it. */
  function LeadingNumber(s: string): Option<(nat, string)> {
    var ptr := DigitsEnd(s, 0);
    if 0 < ptr < |s| && Positional(s[..ptr], 16) < LIMIT64 then Some((Positional(s[..ptr], 16), s[ptr + 1..])) else None
  }

  /** The region a line stands for. Lines that do not parse are skipped. */
  function RegionOfLine(line: string): Option<Region> {
    var begin := LeadingNumber(line);
    if begin.None? then None else
    var end := LeadingNumber(begin.value.1);
    if end.None? || |end.value.1| < 3 then None
    else Some(Region(begin.value.0, end.value.0, Protection(end.value.1)))
  }

  method ParseProtection(remaining: string) returns (prot: nat)
    requires |remaining| >= 3
    ensures prot == Protection(remaining)
  {
    prot := 0;
    OrZero(PROT_READ);
    if remaining[0] == 'r' {
      prot := Or(prot, PROT_READ);
    }
    OrZero(prot);
    if remaining[1] == 'w' {
      prot := Or(prot, PROT_WRITE);
    }
    OrZero(prot);
    if remaining[2] == 'x' {
      prot := Or(prot, PROT_EXEC);
    }
  }

  lemma ShiftedDigitsEnd(s: string, skip: nat, first: nat)
    requires skip + first <= |s|
    ensures DigitsEnd(s, skip + first) == skip + DigitsEnd(s[skip..], first)
    decreases |s| - first
  {
  }

  /** Reading a number at a cursor is reading the leading number of the rest of the line. */
  lemma NumberAt(s: string, it: nat)
    requires it <= |s|
    ensures s[0..] == s
    ensures LeadingNumber(s[it..]) ==
              var ptr := DigitsEnd(s, it);
              if it < ptr < |s| && Positional(s[it..ptr], 16) < LIMIT64
              then Some((Positional(s[it..ptr], 16), s[ptr + 1..])) else None
  {
    ShiftedDigitsEnd(s, it, 0);
    var ptr := DigitsEnd(s, it);
    assert s[it..][..ptr - it] == s[it..ptr];
    if ptr < |s| { assert s[it..][ptr - it + 1..] == s[ptr + 1..]; }
  }

  method ParseLine(line: string) returns (r: Option<Region>)
    ensures r == RegionOfLine(line)
  {
    var it := 0;
    var res := FromChars(line, it);
    NumberAt(line, it);
    if !res.ok || res.ptr == |line| {
      return None;
    }
    var pageBegin := res.value;
    it := res.ptr + 1;

    res := FromChars(line, it);
    NumberAt(line, it);
    if !res.ok || res.ptr == |line| {
      return None;
    }
    var pageEnd := res.value;
    it := res.ptr + 1;

    var remaining := line[it..];
    if |remaining| < 3 {
      return None;
    }
    var prot := ParseProtection(remaining);
    return Some(Region(pageBegin, pageEnd, prot));
  }

  lemma DigitsEndAt(s: string, first: nat, end: nat)
    requires first <= end < |s| && (forall i :: first <= i < end ==> IsHexDigit(s[i])) && !IsHexDigit(s[end])
    ensures DigitsEnd(s, first) == end
    decreases end - first
  {
  }

  lemma NumberThenRest(digits: string, separator: char, rest: string)
    requires digits != [] && LegalDigits(digits, 16) && Positional(digits, 16) < LIMIT64
    requires !IsHexDigit(separator)
    ensures LeadingNumber(digits + [separator] + rest) == Some((Positional(digits, 16), rest))
  {
    var s := digits + [separator] + rest;
    DigitsEndAt(s, 0, |digits|);
    assert s[..|digits|] == digits && s[|digits| + 1..] == rest;
  }

  predicate Number(digits: string) {
    digits != [] && LegalDigits(digits, 16) && Positional(digits, 16) < LIMIT64
  }

  /** A line of two numbers and permissions is read back as the region it describes. Any characters that
      are no digits may separate the parts; the kernel writes a hyphen and a space. */
  lemma LineIsRead(begin: string, hyphen: char, end: string, space: char, permissions: string)
    requires Number(begin) && Number(end) && |permissions| >= 3
    requires !IsHexDigit(hyphen) && !IsHexDigit(space)
    ensures RegionOfLine(begin + [hyphen] + (end + [space] + permissions)) ==
              Some(Region(Positional(begin, 16), Positional(end, 16), Protection(permissions)))
  {
    NumberThenRest(begin, hyphen, end + [space] + permissions);
    NumberThenRest(end, space, permissions);
  }

  lemma LeadingParts(s: string) returns (digits: string, separator: char, rest: string)
    requires LeadingNumber(s).Some?
    ensures s == digits + [separator] + rest && Number(digits) && !IsHexDigit(separator)
    ensures LeadingNumber(s) == Some((Positional(digits, 16), rest))
  {
    var ptr := DigitsEnd(s, 0);
    digits, separator, rest := s[..ptr], s[ptr], s[ptr + 1..];
  }

  /** No other line is read: a line that gives a region consists of such parts. */
  lemma ReadLineHasParts(line: string)
    returns (begin: string, hyphen: char, end: string, space: char, permissions: string)
    requires RegionOfLine(line).Some?
    ensures line == begin + [hyphen] + (end + [space] + permissions)
    ensures Number(begin) && Number(end) && |permissions| >= 3
    ensures !IsHexDigit(hyphen) && !IsHexDigit(space)
  {
    var tail;
    begin, hyphen, tail := LeadingParts(line);
    end, space, permissions := LeadingParts(tail);
  }

  // ----- the walk of regionHasFlag

  /** The captured state of the callback. */
  datatype WalkState = WalkState(begin: nat, found: bool)

  /** The state after one call of the callback. */
  function Visited(s: WalkState, r: Region, flags: nat): WalkState {
    if s.found && r.begin != s.begin then s else
    var found := s.found || r.Contains(s.begin);
    WalkState(if found && r.Carries(flags) then r.end else s.begin, found)
  }

  /** Whether that call asks for the next region. */
  predicate GoesOn(s: WalkState, r: Region, end: nat, flags: nat) {
    && (s.found ==> r.begin == s.begin)
    && (s.found || r.Contains(s.begin) ==> r.Carries(flags))
    && r.begin <= Visited(s, r, flags).begin < end
  }

  function Walked(s: WalkState, end: nat, flags: nat, regions: seq<Region>): WalkState
    decreases |regions|
  {
    if regions == [] then s else
    var next := Visited(s, regions[0], flags);
    if GoesOn(s, regions[0], end, flags) then Walked(next, end, flags, regions[1..]) else next
  }

  function RegionsOfLine(line: string): seq<Region> {
    match RegionOfLine(line)
    case Some(r) => [r]
    case None => []
  }

  function RegionsOf(lines: seq<string>): seq<Region> {
    if lines == [] then [] else RegionsOfLine(lines[0]) + RegionsOf(lines[1..])
  }

  /** The regions of the lines in their order: each line adds its region, or nothing if it does not parse. */
  lemma {:induction false} RegionsInOrder(lines: seq<string>, more: seq<string>, line: string)
    ensures RegionsOf([]) == []
    ensures RegionsOf([line]) == if RegionOfLine(line).Some? then [RegionOfLine(line).value] else []
    ensures RegionsOf(lines + more) == RegionsOf(lines) + RegionsOf(more)
  {
    assert [line][1..] == [];
    if lines == [] {
      assert lines + more == more;
    } else {
      assert (lines + more)[1..] == lines[1..] + more;
      RegionsInOrder(lines[1..], more, line);
    }
  }

  class RegionWalk {
    var begin: nat
    var found: bool
    const end: nat
    const flags: nat

    constructor (begin: nat, end: nat, flags: nat)
      ensures this.begin == begin && !found && this.end == end && this.flags == flags
    {
      this.begin := begin;
      this.found := false;
      this.end := end;
      this.flags := flags;
    }

    method Visit(b: nat, e: nat, prot: nat) returns (goOn: bool)
      modifies this
      ensures WalkState(begin, found) == Visited(WalkState(old(begin), old(found)), Region(b, e, prot), flags)
      ensures goOn == GoesOn(WalkState(old(begin), old(found)), Region(b, e, prot), end, flags)
    {
      if found {
        if b != begin {
          return false;
        }
      } else if begin >= b && begin < e {
        found := true;
      }

      if found {
        if And(prot, flags) == 0 {
          return false;
        }
        begin := e;
      }

      return begin < end && begin >= b;
    }
  }

  /** Non-empty regions in ascending order, without overlap. */
  ghost predicate WellFormedMap(regions: seq<Region>) {
    && (forall i :: 0 <= i < |regions| ==> regions[i].begin < regions[i].end)
    && (forall i, j :: 0 <= i < j < |regions| ==> regions[i].end <= regions[j].begin)
  }

  /** It is enough that no region overlaps the next. */
  lemma {:induction false} NeighboursInOrder(regions: seq<Region>)
    requires forall i :: 0 <= i < |regions| ==> regions[i].begin < regions[i].end
    requires forall i :: 0 <= i < |regions| - 1 ==> regions[i].end <= regions[i + 1].begin
    ensures WellFormedMap(regions)
  {
    if |regions| > 1 {
      var rest := regions[1..];
      assert forall i :: 0 <= i < |rest| ==> rest[i] == regions[i + 1];
      NeighboursInOrder(rest);
      forall j | 0 < j < |regions|
        ensures regions[0].end <= regions[j].begin
      {
        if j > 1 { assert rest[0].end <= rest[j - 1].begin; }
      }
    }
  }

  ghost predicate Carried(a: nat, regions: seq<Region>, flags: nat) {
    exists i :: 0 <= i < |regions| && regions[i].Contains(a) && regions[i].Carries(flags)
  }

  ghost predicate AllCarried(lo: nat, hi: nat, regions: seq<Region>, flags: nat) {
    forall a: nat :: lo <= a < hi ==> Carried(a, regions, flags)
  }

  /** In numbers: a region of the map has the address, its begin included and its end not, and one of the flags. */
  lemma CarriedMeaning(a: nat, regions: seq<Region>, flags: nat)
    ensures Carried(a, regions, flags) <==>
              exists i :: 0 <= i < |regions| && regions[i].begin <= a < regions[i].end
                          && And(regions[i].prot, flags) != 0
  {
    if i :| 0 <= i < |regions| && regions[i].begin <= a < regions[i].end && And(regions[i].prot, flags) != 0 {
      assert regions[i].Contains(a) && regions[i].Carries(flags);
    }
  }

  lemma CarriedBySplit(a: nat, regions: seq<Region>, flags: nat)
    requires regions != []
    ensures Carried(a, regions, flags) <==>
              (regions[0].Contains(a) && regions[0].Carries(flags)) || Carried(a, regions[1..], flags)
  {
  }

  lemma NotCarriedBelow(a: nat, regions: seq<Region>, flags: nat)
    requires WellFormedMap(regions) && (regions != [] ==> a < regions[0].begin)
    ensures !Carried(a, regions, flags)
  {
  }

  lemma CarriedFrom(lo: nat, hi: nat, r: Region, rest: seq<Region>, regions: seq<Region>, flags: nat)
    requires r.Contains(lo) && r.Carries(flags) && r.end <= hi
    requires forall a: nat ::
      Carried(a, regions, flags) <==> (r.Contains(a) && r.Carries(flags)) || Carried(a, rest, flags)
    ensures AllCarried(lo, hi, regions, flags) <==> AllCarried(r.end, hi, rest, flags)
  {
  }

  /** The walk reaches the end exactly if every address is carried. Once a region is found, begin is
      the end of the last region, and no later region lies below it. */
  lemma {:induction false} WalkReachesEndIffCarried(s: WalkState, end: nat, flags: nat, regions: seq<Region>)
    requires WellFormedMap(regions) && s.begin < end
    requires s.found && regions != [] ==> s.begin <= regions[0].begin
    ensures Walked(s, end, flags, regions).begin >= end <==> AllCarried(s.begin, end, regions, flags)
    decreases |regions|
  {
    if regions == [] {
      NotCarriedBelow(s.begin, regions, flags);
      assert !Carried(s.begin, regions, flags);
    } else {
      var r, rest := regions[0], regions[1..];
      assert WellFormedMap(rest);
      assert rest != [] ==> r.end <= rest[0].begin by { if rest != [] { assert rest[0] == regions[1]; } }
      forall a: nat
        ensures Carried(a, regions, flags) <==> (r.Contains(a) && r.Carries(flags)) || Carried(a, rest, flags)
      {
        CarriedBySplit(a, regions, flags);
      }
      if s.begin < r.begin {
        NotCarriedBelow(s.begin, regions, flags);
        assert !Carried(s.begin, regions, flags);
      } else if r.end <= s.begin {
        WalkReachesEndIffCarried(s, end, flags, rest);
      } else {
        forall a: nat | a < r.end
          ensures !Carried(a, rest, flags)
        {
          NotCarriedBelow(a, rest, flags);
        }
        if r.Carries(flags) {
          if r.end < end {
            WalkReachesEndIffCarried(WalkState(r.end, true), end, flags, rest);
            assert AllCarried(s.begin, end, regions, flags) <==> AllCarried(r.end, end, rest, flags) by {
              CarriedFrom(s.begin, end, r, rest, regions, flags);
            }
          }
        } else {
          assert !Carried(s.begin, regions, flags);
        }
      }
    }
  }

  /** regionHasFlag: whether a range is not empty and carries the flag at every address. */
  method RegionHasFlag(lines: seq<string>, data: nat, size: nat, flags: nat) returns (r: bool)
    requires WellFormedMap(RegionsOf(lines))
    ensures r <==> size > 0 && AllCarried(data, data + size, RegionsOf(lines), flags)
  {
    if size == 0 {
      return false;
    }
    var end := data + size;
    var walk := new RegionWalk(data, end, flags);
    ghost var s0 := WalkState(data, false);
    ghost var regions := RegionsOf(lines);
    WalkReachesEndIffCarried(s0, end, flags, regions);
    assert lines[0..] == lines;
    for i := 0 to |lines|
      invariant walk.end == end && walk.flags == flags
      invariant Walked(s0, end, flags, regions)
                == Walked(WalkState(walk.begin, walk.found), end, flags, RegionsOf(lines[i..]))
    {
      assert lines[i..][1..] == lines[i + 1..];
      var region := ParseLine(lines[i]);
      if region.Some? {
        ghost var state := WalkState(walk.begin, walk.found);
        assert RegionsOf(lines[i..]) == [region.value] + RegionsOf(lines[i + 1..]);
        assert RegionsOf(lines[i..])[1..] == RegionsOf(lines[i + 1..]);
        var goOn := walk.Visit(region.value.begin, region.value.end, region.value.prot);
        if !goOn {
          return walk.begin >= end;
        }
      } else {
        assert RegionsOf(lines[i..]) == RegionsOf(lines[i + 1..]);
      }
    }
    assert lines[|lines|..] == [];
    return walk.begin >= end;
  }

  // ----- the protection of one page

  /** The protection of the first region that contains the address. */
  function Lookup(regions: seq<Region>, address: nat): Option<nat> {
    if regions == [] then None
    else if regions[0].Contains(address) then Some(regions[0].prot)
    else Lookup(regions[1..], address)
  }

  lemma {:induction false} LookupIsFirst(regions: seq<Region>, address: nat, i: nat)
    requires i < |regions| && regions[i].begin <= address < regions[i].end
    requires forall j :: 0 <= j < i ==> !(regions[j].begin <= address < regions[j].end)
    ensures Lookup(regions, address) == Some(regions[i].prot)
  {
    if i > 0 {
      forall j | 0 <= j < i - 1
        ensures !(regions[1..][j].begin <= address < regions[1..][j].end)
      {
        assert regions[1..][j] == regions[j + 1];
      }
      LookupIsFirst(regions[1..], address, i - 1);
    }
  }

  /** In a well-formed map there is only one such region. */
  lemma {:induction false} LookupMeaning(regions: seq<Region>, address: nat, i: nat)
    requires WellFormedMap(regions) && i < |regions| && regions[i].begin <= address < regions[i].end
    ensures Lookup(regions, address) == Some(regions[i].prot)
  {
    if i > 0 {
      assert regions[0].end <= regions[i].begin;
      LookupMeaning(regions[1..], address, i - 1);
    }
  }

  lemma {:induction false} LookupNone(regions: seq<Region>, address: nat)
    ensures Lookup(regions, address).None? <==>
              forall i :: 0 <= i < |regions| ==> !(regions[i].begin <= address < regions[i].end)
  {
    if regions != [] {
      LookupNone(regions[1..], address);
      assert forall i :: 1 <= i < |regions| ==> regions[i] == regions[1..][i - 1];
      assert forall i :: 0 <= i < |regions| - 1 ==> regions[1..][i] == regions[i + 1];
    }
  }

  /** get_page_prot */
  method GetPageProt(lines: seq<string>, address: nat) returns (result: Option<nat>)
    ensures result == Lookup(RegionsOf(lines), address)
  {
    assert lines[0..] == lines;
    for i := 0 to |lines|
      invariant Lookup(RegionsOf(lines), address) == Lookup(RegionsOf(lines[i..]), address)
    {
      assert lines[i..][1..] == lines[i + 1..];
      var region := ParseLine(lines[i]);
      if region.Some? {
        assert RegionsOf(lines[i..])[1..] == RegionsOf(lines[i + 1..]);
        if address >= region.value.begin && address < region.value.end {
          return Some(region.value.prot);
        }
      } else {
        assert RegionsOf(lines[i..]) == RegionsOf(lines[i + 1..]);
      }
    }
    assert lines[|lines|..] == [];
    return None;
  }
}
