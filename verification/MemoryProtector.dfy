/** The RAII wrapper that changes the protection of memory pages and changes it back. */
module MemoryProtector {
  import opened Words
  import opened Results
  import opened MemoryMap

  // ----- rounding to pages

  /** ~x on 64-bit words. */
  function Not64(x: nat): nat
    requires x < LIMIT64
  {
    LIMIT64 - 1 - x
  }

  function FastAlignDown(address: nat, alignment: nat): nat
    requires 0 < alignment <= LIMIT64
  {
    And(address, Not64(alignment - 1))
  }

  function FastAlignUp(address: nat, alignment: nat): nat
    requires 0 < alignment <= LIMIT64
  {
    And((address + alignment - 1) % LIMIT64, Not64(alignment - 1))
  }

  /** Page sizes are powers of two. */
  ghost predicate PageSize(p: nat) {
    exists k: nat :: k < 64 && p == Pow2(k)
  }

  lemma {:induction false} MaskAll(x: nat, w: nat)
    requires x < Pow2(w)
    ensures And(x, Pow2(w) - 1) == x
  {
    if w > 0 {
      var m := Pow2(w) - 1;
      assert m == 2 * (Pow2(w - 1) - 1) + 1;
      MaskAll(x / 2, w - 1);
    }
  }

  /** Masking with ~(2^k - 1) drops the remainder modulo 2^k. */
  lemma {:induction false} MaskDropsRemainder(x: nat, w: nat, k: nat)
    requires k <= w && x < Pow2(w)
    ensures Pow2(k) <= Pow2(w) && And(x, Pow2(w) - Pow2(k)) == x - x % Pow2(k)
  {
    if k == 0 {
      MaskAll(x, w);
    } else {
      MaskDropsRemainder(x / 2, w - 1, k - 1);
      HalfOfTruncated(x, Pow2(k - 1));
      var m := Pow2(w) - Pow2(k);
      assert m == 2 * (Pow2(w - 1) - Pow2(k - 1));
      assert m / 2 == Pow2(w - 1) - Pow2(k - 1);
    }
  }

  /** For a page size that is a power of two, the helpers round to multiples of it. */
  lemma AlignDownIsExact(x: nat, p: nat)
    requires PageSize(p) && x < LIMIT64
    ensures 0 < p <= LIMIT64 && FastAlignDown(x, p) == Quotient(x, p) * p
  {
    var k: nat :| k < 64 && p == Pow2(k);
    var w := Width64();
    MaskDropsRemainder(x, w, k);
  }

  /** Rounding up passes the last multiple below 2^64 exactly if fewer than p values are left above x,
      and then it wraps to zero. */
  lemma AlignUpIsExact(x: nat, p: nat)
    requires PageSize(p) && x < LIMIT64
    ensures 0 < p <= LIMIT64
    ensures FastAlignUp(x, p) == if x + p <= LIMIT64 then Quotient(x + p - 1, p) * p else 0
  {
    var raised := (x + p - 1) % LIMIT64;
    AlignDownIsExact(raised, p);
    if x + p <= LIMIT64 {
      assert raised == x + p - 1;
    } else {
      assert p <= LIMIT64 by { AlignDownIsExact(x, p); }
      assert raised == x + p - 1 - LIMIT64 < p;
      DivisionIsUnique(raised, p, 0, raised);
    }
  }

  // ----- the pages of a process

  /** Page numbers and the protection of each mapped page. */
  type PageMap = map<nat, nat>

  function SetPages(pages: PageMap, first: nat, count: nat, prot: nat): (r: PageMap)
    ensures r.Keys == pages.Keys
  {
    map p | p in pages :: if first <= p < first + count then prot else pages[p]
  }

  predicate Mapped(pages: PageMap, first: nat, count: nat) {
    forall p :: first <= p < first + count ==> p in pages
  }

  predicate Uniform(pages: PageMap, first: nat, count: nat, prot: nat) {
    forall p :: first <= p < first + count ==> p in pages && pages[p] == prot
  }

  /** Any 64-bit address and size, for pages of p bytes. */
  ghost predicate Request(p: nat, address: nat, size: nat) {
    PageSize(p) && address < LIMIT64 && size < LIMIT64
  }

  /** The pages the program asks the kernel to change. */
  function FirstPage(p: nat, address: nat): nat
    requires 0 < p <= LIMIT64
  {
    Quotient(FastAlignDown(address, p), p)
  }

  function PageCount(p: nat, size: nat): nat
    requires 0 < p <= LIMIT64
  {
    Quotient(FastAlignUp(size, p), p)
  }

  /** The number of pages for size bytes, which the wrapping of the sum makes zero for the largest sizes. */
  function RoundedPages(p: nat, size: nat): nat
    requires p > 0
  {
    if size + p <= LIMIT64 then Quotient(size + p - 1, p) else 0
  }

  lemma PagesByDivision(p: nat, address: nat, size: nat)
    requires Request(p, address, size)
    ensures 0 < p <= LIMIT64
    ensures FirstPage(p, address) == Quotient(address, p) && FastAlignDown(address, p) % p == 0
    ensures PageCount(p, size) == RoundedPages(p, size) && FastAlignUp(size, p) % p == 0
  {
    AlignDownIsExact(address, p);
    AlignUpIsExact(size, p);
    var first, count := Quotient(address, p), RoundedPages(p, size);
    assert FastAlignUp(size, p) == count * p;
    DivisionIsUnique(first * p, p, first, 0);
    DivisionIsUnique(count * p, p, count, 0);
  }

  lemma SumOfProducts(a: nat, b: nat, p: nat)
    ensures (a + b) * p == a * p + b * p
  {
  }

  /** Without wrapping, the rounded size is the size and the rest of the page its last byte lies in. */
  lemma RoundedSize(p: nat, size: nat)
    requires p > 0 && 0 < size && size + p <= LIMIT64
    ensures RoundedPages(p, size) * p == size - 1 - (size - 1) % p + p
  {
    var q := Quotient(size - 1, p);
    SumOfProducts(q, 1, p);
    DivisionIsUnique(size + p - 1, p, q + 1, (size - 1) % p);
  }

  /** The size is rounded without the offset of the address in its page. So the changed pages contain
      the request exactly if the first byte of the page, moved on by the offset of the address and by
      that of the last of size bytes, is still in the page; and if rounding does not wrap. */
  lemma ChangedPagesContainRequestIff(p: nat, address: nat, size: nat)
    requires Request(p, address, size)
    ensures 0 < p <= LIMIT64
    ensures var first, count := FirstPage(p, address), PageCount(p, size);
            && first * p <= address
            && (address + size <= (first + count) * p <==>
                  if size == 0 then address % p == 0
                  else size + p <= LIMIT64 && address % p + (size - 1) % p < p)
  {
    PagesByDivision(p, address, size);
    var first, count := Quotient(address, p), RoundedPages(p, size);
    SumOfProducts(first, count, p);
    if size == 0 {
      DivisionIsUnique(p - 1, p, 0, p - 1);
      assert count * p == 0;
    } else if size + p <= LIMIT64 {
      RoundedSize(p, size);
    } else {
      assert count * p == 0;
    }
  }

  lemma PageOf4096()
    ensures PageSize(4096)
  {
    assert Pow2(4) == 16;
    Pow2Sum(4, 4);
    Pow2Sum(4, 8);
    assert 4096 == Pow2(12);
  }

  /** Two bytes across a page boundary: only the first page is changed. */
  lemma RequestCanBeMissed()
    ensures Request(4096, 4095, 2)
    ensures (FirstPage(4096, 4095) + PageCount(4096, 2)) * 4096 == 4096 < 4095 + 2
  {
    PageOf4096();
    PagesByDivision(4096, 4095, 2);
  }

  // ----- the effect of a protector

  /** The outcome of the constructor: the page map, the protection found first, and whether it succeeded. */
  datatype Outcome = Outcome(pages: PageMap, oldProtection: nat, isSet: bool)

  /** permitted stands for the kernel's own reasons to refuse. mprotect changes all pages or none. */
  function Protect(pages: PageMap, p: nat, address: nat, size: nat, prot: nat, permitted: bool): Outcome
    requires Request(p, address, size)
  {
    PagesByDivision(p, address, size);
    var first, count := FirstPage(p, address), PageCount(p, size);
    if Quotient(address, p) !in pages then Outcome(pages, 0, false)
    else if permitted && Mapped(pages, first, count) then
      Outcome(SetPages(pages, first, count, prot), pages[Quotient(address, p)], true)
    else
      Outcome(pages, pages[Quotient(address, p)], false)
  }

  /** The effect of restore(), which is not told whether mprotect succeeds. */
  function Restored(
    pages: PageMap, p: nat, address: nat, size: nat, oldProtection: nat, permitted: bool): PageMap
    requires 0 < p <= LIMIT64
  {
    var first, count := FirstPage(p, address), PageCount(p, size);
    if permitted && Mapped(pages, first, count) then SetPages(pages, first, count, oldProtection) else pages
  }

  /** Any power of two below 2^64, address and size make a request. */
  lemma EveryRequest(k: nat, address: nat, size: nat)
    requires k < 64 && address < 0x1_0000_0000_0000_0000 && size < 0x1_0000_0000_0000_0000
    ensures Request(Pow2(k), address, size)
  {
  }

  /** The page of the address is the first to change, and the size is rounded up to pages. */
  lemma PagesOfRequest(p: nat, address: nat, size: nat)
    requires Request(p, address, size)
    ensures 0 < p <= LIMIT64
    ensures FirstPage(p, address) == address / p
    ensures PageCount(p, size) == if size + p <= 0x1_0000_0000_0000_0000 then (size + p - 1) / p else 0
  {
    PagesByDivision(p, address, size);
  }

  /** A request succeeds exactly if the kernel permits it and the page of the address and all pages of the
      rounded size from there on are mapped. Then exactly these pages change, and what the first of them had is
      kept; otherwise no page changes. */
  lemma ProtectMeaning(pages: PageMap, p: nat, address: nat, size: nat, prot: nat, permitted: bool)
    requires Request(p, address, size)
    ensures p > 0
    ensures var o := Protect(pages, p, address, size, prot, permitted);
            var first := address / p;
            var count := if size + p <= 0x1_0000_0000_0000_0000 then (size + p - 1) / p else 0;
            && (o.isSet <==> permitted && first in pages && forall q :: first <= q < first + count ==> q in pages)
            && (o.isSet ==> o.pages.Keys == pages.Keys && o.oldProtection == pages[first])
            && (o.isSet ==>
                  forall q :: q in pages ==>
                    q in o.pages && o.pages[q] == if first <= q < first + count then prot else pages[q])
            && (!o.isSet ==> o.pages == pages)
  {
    PagesOfRequest(p, address, size);
  }

  /** Restoring changes exactly the same pages, if they are mapped and the kernel permits it. */
  lemma RestoredMeaning(
    pages: PageMap, p: nat, address: nat, size: nat, oldProtection: nat, permitted: bool)
    requires Request(p, address, size)
    ensures 0 < p <= LIMIT64
    ensures var after := Restored(pages, p, address, size, oldProtection, permitted);
            var first := address / p;
            var count := if size + p <= 0x1_0000_0000_0000_0000 then (size + p - 1) / p else 0;
            if permitted && forall q :: first <= q < first + count ==> q in pages then
              && after.Keys == pages.Keys
              && forall q :: q in pages ==>
                   q in after && after[q] == if first <= q < first + count then oldProtection else pages[q]
            else
              after == pages
  {
    PagesOfRequest(p, address, size);
  }

  lemma SetPagesKeepsIffUniform(pages: PageMap, first: nat, count: nat, prot: nat)
    requires Mapped(pages, first, count)
    ensures SetPages(pages, first, count, prot) == pages <==> Uniform(pages, first, count, prot)
  {
    var after := SetPages(pages, first, count, prot);
    if after == pages {
      forall q | first <= q < first + count ensures pages[q] == prot { assert after[q] == pages[q]; }
    }
    if Uniform(pages, first, count, prot) {
      assert forall q :: q in pages ==> after[q] == pages[q];
    }
  }

  /** A protector that succeeded and is then restored leaves the pages as they were exactly if they
      all had one protection before. Where the kernel refuses to restore, that has to be the
      protection they were changed to. */
  lemma RestoredIffUniform(
    pages: PageMap, p: nat, address: nat, size: nat, prot: nat, permitted: bool)
    requires Request(p, address, size)
    ensures 0 < p <= LIMIT64
    ensures var o := Protect(pages, p, address, size, prot, true);
            var first, count := FirstPage(p, address), PageCount(p, size);
            o.isSet ==>
              (Restored(o.pages, p, address, size, o.oldProtection, permitted) == pages <==>
                exists q :: Uniform(pages, first, count, q) && (permitted || q == prot))
  {
    PagesByDivision(p, address, size);
    var o := Protect(pages, p, address, size, prot, true);
    if o.isSet {
      var first, count := FirstPage(p, address), PageCount(p, size);
      var after := Restored(o.pages, p, address, size, o.oldProtection, permitted);
      var last := if permitted then o.oldProtection else prot;
      assert after == SetPages(pages, first, count, last);
      SetPagesKeepsIffUniform(pages, first, count, last);
      if q :| Uniform(pages, first, count, q) && (permitted || q == prot) {
        if count > 0 { assert pages[first] == q; }
      }
    }
  }

  lemma TwoProtections(pages: PageMap)
    requires 0 in pages && 1 in pages && pages[0] != pages[1]
    ensures forall q :: !Uniform(pages, 0, 2, q)
  {
    forall q | pages[0] != q ensures !Uniform(pages, 0, 2, q) {}
  }

  /** Change and restore do not give back two pages that had two protections. */
  lemma TwoPagesAreNotRestored(pages: PageMap, p: nat, prot: nat)
    requires PageSize(p) && 3 * p <= LIMIT64
    requires 0 in pages && 1 in pages && pages[0] != pages[1]
    ensures 0 < p && Request(p, 0, 2 * p)
    ensures var o := Protect(pages, p, 0, 2 * p, prot, true);
            o.isSet && Restored(o.pages, p, 0, 2 * p, o.oldProtection, true) != pages
  {
    AlignDownIsExact(0, p);
    PagesByDivision(p, 0, 2 * p);
    DivisionIsUnique(0, p, 0, 0);
    DivisionIsUnique(2 * p + p - 1, p, 2, p - 1);
    RestoredIffUniform(pages, p, 0, 2 * p, prot, true);
    TwoProtections(pages);
  }

  /** A readable page before an executable one. */
  const MIXED: PageMap := map[0 := PROT_READ, 1 := PROT_EXEC]

  lemma MixedRangeIsNotRestored()
    ensures Request(4096, 0, 8192)
    ensures var o := Protect(MIXED, 4096, 0, 8192, PROT_WRITE, true);
            o.isSet && Restored(o.pages, 4096, 0, 8192, o.oldProtection, true) != MIXED
  {
    PageOf4096();
    TwoPagesAreNotRestored(MIXED, 4096, PROT_WRITE);
  }

  function ToSystemProt(flags: nat): nat {
    Or(Or(if And(flags, 1) != 0 then PROT_READ else 0, if And(flags, 2) != 0 then PROT_WRITE else 0),
       if And(flags, 4) != 0 then PROT_EXEC else 0)
  }

  lemma FlagBits(x: nat)
    ensures And(x, 1) == x % 2
    ensures And(x, 2) == 2 * (x / 2 % 2)
    ensures And(x, 4) == 4 * (x / 4 % 2)
  {
    assert And(x / 4, 1) == x / 4 % 2;
    assert And(x / 2, 1) == x / 2 % 2;
    assert And(x / 2, 2) == 2 * And(x / 4, 1);
  }

  /** Each flag asked for becomes the system's flag for it, and no other. */
  lemma SystemProtBits(flags: nat)
    ensures var p := ToSystemProt(flags);
            && (p % 2 == 1 <==> flags % 2 == 1)
            && (p / 2 % 2 == 1 <==> flags / 2 % 2 == 1)
            && (p / 4 % 2 == 1 <==> flags / 4 % 2 == 1)
            && p < 8
  {
    FlagBits(flags);
    var r, w, x := flags % 2 == 1, flags / 2 % 2 == 1, flags / 4 % 2 == 1;
    assert ToSystemProt(flags) == (if r then 1 else 0) + (if w then 2 else 0) + (if x then 4 else 0);
  }

  // ----- the objects

  /** The lines of the memory map, seen as regions, tell the protection of every address. */
  ghost predicate Describes(lines: seq<string>, pages: PageMap, pageSize: nat)
    requires pageSize > 0
  {
    forall address: nat :: Lookup(RegionsOf(lines), address) ==
      if Quotient(address, pageSize) in pages then Some(pages[Quotient(address, pageSize)]) else None
  }

  /** The page map as the kernel keeps it. */
  class AddressSpace {
    var pages: PageMap
    const pageSize: nat

    constructor (pages: PageMap, pageSize: nat)
      ensures this.pages == pages && this.pageSize == pageSize
    {
      this.pages := pages;
      this.pageSize := pageSize;
    }

    ghost predicate DescribedBy(lines: seq<string>)
      requires pageSize > 0
      reads this
    {
      Describes(lines, pages, pageSize)
    }

    /** mprotect for an address on a page boundary and a length of whole pages. */
    method Mprotect(address: nat, length: nat, prot: nat, permitted: bool) returns (ok: bool)
      requires pageSize > 0
      requires address % pageSize == 0 && length % pageSize == 0
      modifies this`pages
      ensures var first, count := Quotient(address, pageSize), Quotient(length, pageSize);
              && ok == (permitted && Mapped(old(pages), first, count))
              && pages == if ok then SetPages(old(pages), first, count, prot) else old(pages)
    {
      var first, count := Quotient(address, pageSize), Quotient(length, pageSize);
      ok := permitted && forall p | first <= p < first + count :: p in pages;
      if ok {
        pages := SetPages(pages, first, count, prot);
      }
    }
  }

  class Protector {
    const address: nat
    const size: nat
    var oldProtection: nat
    var isSet: bool

    constructor (space: AddressSpace, lines: seq<string>, address: nat, size: nat, flags: nat, permitted: bool)
      requires Request(space.pageSize, address, size) && space.pageSize > 0 && space.DescribedBy(lines)
      modifies space`pages
      ensures this.address == address && this.size == size
      ensures Outcome(space.pages, oldProtection, isSet) ==
                Protect(old(space.pages), space.pageSize, address, size, ToSystemProt(flags), permitted)
      ensures space.pageSize > 0
      ensures var first, p := address / space.pageSize, space.pageSize;
              var count := if size + p <= 0x1_0000_0000_0000_0000 then (size + p - 1) / p else 0;
              var before, after := old(space.pages), space.pages;
              && (isSet <==>
                    permitted && first in before && forall q :: first <= q < first + count ==> q in before)
              && (isSet ==> after.Keys == before.Keys && oldProtection == before[first])
              && (isSet ==>
                    forall q :: q in before ==>
                      q in after && after[q] == if first <= q < first + count then ToSystemProt(flags) else before[q])
              && (!isSet ==> after == before)
    {
      ProtectMeaning(space.pages, space.pageSize, address, size, ToSystemProt(flags), permitted);
      this.address := address;
      this.size := size;
      this.oldProtection := 0;
      this.isSet := false;
      new;
      var oldProt := GetPageProt(lines, address);
      if oldProt.Some? {
        oldProtection := oldProt.value;
        PagesByDivision(space.pageSize, address, size);
        isSet := space.Mprotect(
          FastAlignDown(address, space.pageSize), FastAlignUp(size, space.pageSize), ToSystemProt(flags), permitted);
      }
    }

    /** The move constructor: the new object takes over the duty to restore. */
    constructor Move(o: Protector)
      modifies o`isSet
      ensures address == o.address && size == o.size && oldProtection == o.oldProtection
      ensures isSet == old(o.isSet) && !o.isSet
    {
      address := o.address;
      size := o.size;
      oldProtection := o.oldProtection;
      isSet := o.isSet;
      new;
      o.isSet := false;
    }

    method Restore(space: AddressSpace, permitted: bool)
      requires Request(space.pageSize, address, size)
      modifies space`pages
      ensures 0 < space.pageSize <= LIMIT64
      ensures space.pages == Restored(old(space.pages), space.pageSize, address, size, oldProtection, permitted)
    {
      PagesByDivision(space.pageSize, address, size);
      var ok := space.Mprotect(
        FastAlignDown(address, space.pageSize), FastAlignUp(size, space.pageSize), oldProtection, permitted);
    }

    /** The destructor. */
    method Destroy(space: AddressSpace, permitted: bool)
      requires Request(space.pageSize, address, size)
      modifies space`pages
      ensures 0 < space.pageSize <= LIMIT64
      ensures space.pages ==
                if isSet then
                  Restored(old(space.pages), space.pageSize, address, size, oldProtection, permitted)
                else
                  old(space.pages)
    {
      PagesByDivision(space.pageSize, address, size);
      if isSet {
        Restore(space, permitted);
      }
    }
  }
}
