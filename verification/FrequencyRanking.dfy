/** The script that counts byte pairs in executable code and makes the frequency tables. */
module FrequencyRanking {
  import opened PairTables

  const PACKED: nat := 0x1_0000

  // ----- byte pairs as numbers

  function Pack(a: bv8, b: bv8): (q: nat)
    ensures q < PACKED
  {
    a as int * 0x100 + b as int
  }

  /** The pair whose high byte is the quotient of q by 256 and whose low byte is the remainder. */
  function Unpack(q: nat): BytePair
    requires q < PACKED
  {
    BytePair((q / 0x100) as bv8, (q % 0x100) as bv8)
  }

  lemma UnpackPack(p: BytePair)
    ensures Unpack(Pack(p.first, p.second)) == p
  {
    var a, b := p.first as int, p.second as int;
    assert (a * 0x100 + b) / 0x100 == a && (a * 0x100 + b) % 0x100 == b;
  }

  lemma NextByte(b: bv8)
    requires b != 0xFF
    ensures (b + 1) as int == b as int + 1
  {
  }

  lemma {:induction false} SomeByte(x: nat) returns (b: bv8)
    requires x < 0x100
    ensures b as int == x
  {
    b := 0;
    if x > 0 {
      b := SomeByte(x - 1);
      NextByte(b);
      b := b + 1;
    }
  }

  lemma ByteOfInt(x: nat)
    requires x < 0x100
    ensures (x as bv8) as int == x
  {
    var b := SomeByte(x);
    assert (b as int) as bv8 == b;
  }

  lemma PackUnpack(q: nat)
    requires q < PACKED
    ensures Pack(Unpack(q).first, Unpack(q).second) == q
  {
    ByteOfInt(q / 0x100);
    ByteOfInt(q % 0x100);
  }

  lemma ByteOrder(a: bv8, b: bv8)
    ensures a < b <==> a as int < b as int
  {
  }

  lemma PackKeepsOrder(p: BytePair, r: BytePair)
    requires Pack(p.first, p.second) < Pack(r.first, r.second)
    ensures Less(p, r)
  {
    ByteOrder(p.first, r.first);
    ByteOrder(p.second, r.second);
    ByteOrder(r.first, p.first);
  }

  lemma UnpackKeepsOrder(q: nat, r: nat)
    requires q < r < PACKED
    ensures Less(Unpack(q), Unpack(r))
  {
    PackUnpack(q);
    PackUnpack(r);
    PackKeepsOrder(Unpack(q), Unpack(r));
  }

  // ----- counting

  datatype Section = Section(executable: bool, data: seq<bv8>)

  /** How often the pair occurs at two adjacent positions. */
  function Occurrences(data: seq<bv8>, q: nat): nat {
    if |data| < 2 then 0 else
    Occurrences(data[..|data| - 1], q) + if Pack(data[|data| - 2], data[|data| - 1]) == q then 1 else 0
  }

  function AllOccurrences(sections: seq<Section>, q: nat): nat {
    if sections == [] then 0 else
    var last := sections[|sections| - 1];
    AllOccurrences(sections[..|sections| - 1], q) + if last.executable then Occurrences(last.data, q) else 0
  }

  /** The script adds len(data) - 1 for each executable section. */
  function PairTotal(sections: seq<Section>): int {
    if sections == [] then 0 else
    var last := sections[|sections| - 1];
    PairTotal(sections[..|sections| - 1]) + if last.executable then |last.data| - 1 else 0
  }

  /** The first byte of the pair is at i, and the second behind it. */
  predicate IsPlace(data: seq<bv8>, p: BytePair, i: nat) {
    i + 1 < |data| && data[i] == p.first && data[i + 1] == p.second
  }

  function Places(data: seq<bv8>, p: BytePair): set<nat> {
    set i: nat | i < |data| && IsPlace(data, p, i)
  }

  lemma PackIsInjective(a: bv8, b: bv8, p: BytePair)
    ensures Pack(a, b) == Pack(p.first, p.second) <==> a == p.first && b == p.second
  {
    UnpackPack(BytePair(a, b));
    UnpackPack(p);
  }

  lemma PlacesAtEnd(data: seq<bv8>, p: BytePair)
    requires |data| >= 2
    ensures var front, k := data[..|data| - 1], |data| - 2;
            && k !in Places(front, p)
            && Places(data, p) == Places(front, p) + if IsPlace(data, p, k) then {k} else {}
  {
    var front, k := data[..|data| - 1], |data| - 2;
    forall i: nat
      ensures IsPlace(data, p, i) <==> IsPlace(front, p, i) || (i == k && IsPlace(data, p, k))
    {
    }
  }

  lemma {:induction false} OccurrencesArePlaces(data: seq<bv8>, p: BytePair)
    ensures Occurrences(data, Pack(p.first, p.second)) == |Places(data, p)|
  {
    if |data| < 2 {
      assert Places(data, p) == {};
    } else {
      OccurrencesArePlaces(data[..|data| - 1], p);
      PlacesAtEnd(data, p);
      PackIsInjective(data[|data| - 2], data[|data| - 1], p);
    }
  }

  /** The places in all executable sections, each with the index of its section. */
  function AllPlaces(sections: seq<Section>, p: BytePair): set<(nat, nat)> {
    set s: nat, i: nat |
      s < |sections| && i < |sections[s].data| && sections[s].executable && IsPlace(sections[s].data, p, i)
      :: (s, i)
  }

  function Tagged(k: nat, places: set<nat>): set<(nat, nat)> { set i | i in places :: (k, i) }

  lemma {:induction false} TaggedSize(k: nat, places: set<nat>)
    ensures |Tagged(k, places)| == |places|
  {
    if x :| x in places {
      TaggedSize(k, places - {x});
      assert Tagged(k, places) == Tagged(k, places - {x}) + {(k, x)};
    } else {
      assert places == {};
      assert Tagged(k, places) == {};
    }
  }

  lemma PlacesInLast(sections: seq<Section>, p: BytePair)
    requires sections != []
    ensures var k := |sections| - 1;
            var own := if sections[k].executable then Places(sections[k].data, p) else {};
            && AllPlaces(sections, p) == AllPlaces(sections[..k], p) + Tagged(k, own)
            && AllPlaces(sections[..k], p) !! Tagged(k, own)
  {
    var k := |sections| - 1;
    var front, own := sections[..k], if sections[k].executable then Places(sections[k].data, p) else {};
    forall s: nat, i: nat
      ensures (s, i) in AllPlaces(sections, p) <==> (s, i) in AllPlaces(front, p) || (s, i) in Tagged(k, own)
    {
      if s < k { assert front[s] == sections[s]; }
    }
  }

  /** The counts are the numbers of places. */
  lemma {:induction false} AllOccurrencesArePlaces(sections: seq<Section>, p: BytePair)
    ensures AllOccurrences(sections, Pack(p.first, p.second)) == |AllPlaces(sections, p)|
  {
    if sections == [] {
      assert AllPlaces(sections, p) == {};
    } else {
      var k := |sections| - 1;
      AllOccurrencesArePlaces(sections[..k], p);
      OccurrencesArePlaces(sections[k].data, p);
      PlacesInLast(sections, p);
      TaggedSize(k, if sections[k].executable then Places(sections[k].data, p) else {});
    }
  }

  /** The counts of one section, added to those of the sections before. */
  method AddSection(counts: array<nat>, data: seq<bv8>)
    requires counts.Length == PACKED
    modifies counts
    ensures forall q :: 0 <= q < PACKED ==> counts[q] == old(counts[q]) + Occurrences(data, q)
  {
    var i := 1;
    while i < |data|
      invariant 1 <= i && (i <= |data| || |data| == 0)
      invariant |data| == 0 ==> forall q :: 0 <= q < PACKED ==> counts[q] == old(counts[q])
      invariant |data| > 0 ==>
        forall q :: 0 <= q < PACKED ==> counts[q] == old(counts[q]) + Occurrences(data[..i], q)
    {
      var q := Pack(data[i - 1], data[i]);
      assert data[..i + 1][..i] == data[..i];
      counts[q] := counts[q] + 1;
      i := i + 1;
    }
    assert |data| > 0 ==> data[..i] == data;
  }

  method CountPairs(sections: seq<Section>) returns (counts: array<nat>, total: int)
    ensures counts.Length == PACKED
    ensures forall q :: 0 <= q < PACKED ==> counts[q] == AllOccurrences(sections, q)
    ensures total == PairTotal(sections)
  {
    counts := new nat[PACKED](_ => 0);
    total := 0;
    for i := 0 to |sections|
      invariant fresh(counts) && counts.Length == PACKED
      invariant forall q :: 0 <= q < PACKED ==> counts[q] == AllOccurrences(sections[..i], q)
      invariant total == PairTotal(sections[..i])
    {
      assert sections[..i + 1][..i] == sections[..i];
      if !sections[i].executable {
        continue;
      }
      total := total + |sections[i].data| - 1;
      AddSection(counts, sections[i].data);
    }
    assert sections[..|sections|] == sections;
  }

  // ----- ranking

  /** The order of a stable sort by falling count: ties keep the order of the numbers. */
  predicate Before(counts: seq<nat>, x: nat, y: nat)
    requires x < |counts| && y < |counts|
  {
    counts[x] > counts[y] || (counts[x] == counts[y] && x < y)
  }

  predicate InRange(counts: seq<nat>, s: seq<nat>) { forall i :: 0 <= i < |s| ==> s[i] < |counts| }

  function RankInsert(counts: seq<nat>, x: nat, s: seq<nat>): (r: seq<nat>)
    requires x < |counts| && InRange(counts, s)
    ensures |r| == |s| + 1 && InRange(counts, r)
  {
    if s == [] || counts[s[0]] < counts[x] then [x] + s else [s[0]] + RankInsert(counts, x, s[1..])
  }

  /** The numbers below n by falling count. Equal counts leave the smaller number first. */
  function Ranked(counts: seq<nat>, n: nat): (r: seq<nat>)
    requires n <= |counts|
    ensures |r| == n && InRange(counts, r)
  {
    if n == 0 then [] else RankInsert(counts, n - 1, Ranked(counts, n - 1))
  }

  ghost predicate InOrder(counts: seq<nat>, s: seq<nat>)
    requires InRange(counts, s)
  {
    forall i, j :: 0 <= i < j < |s| ==> Before(counts, s[i], s[j])
  }

  lemma {:induction false} RankInsertMembers(counts: seq<nat>, x: nat, s: seq<nat>)
    requires x < |counts| && InRange(counts, s)
    ensures forall y :: y in RankInsert(counts, x, s) <==> y == x || y in s
  {
    if !(s == [] || counts[s[0]] < counts[x]) { RankInsertMembers(counts, x, s[1..]); }
  }

  lemma {:induction false} RankInsertInOrder(counts: seq<nat>, x: nat, s: seq<nat>)
    requires x < |counts| && InRange(counts, s) && InOrder(counts, s)
    requires forall i :: 0 <= i < |s| ==> s[i] < x
    ensures InOrder(counts, RankInsert(counts, x, s))
  {
    if s != [] && counts[s[0]] >= counts[x] {
      var rest := RankInsert(counts, x, s[1..]);
      RankInsertInOrder(counts, x, s[1..]);
      RankInsertMembers(counts, x, s[1..]);
      forall j | 0 <= j < |rest|
        ensures Before(counts, s[0], rest[j])
      {
        assert rest[j] in rest;
        if rest[j] in s[1..] {
          var i :| 0 <= i < |s[1..]| && s[1..][i] == rest[j];
          assert Before(counts, s[0], s[i + 1]);
        }
      }
    }
  }

  /** Every number below n is ranked once, in the order of the sort. */
  lemma {:induction false} RankedInOrder(counts: seq<nat>, n: nat)
    requires n <= |counts|
    ensures forall y: nat :: y in Ranked(counts, n) <==> y < n
    ensures InOrder(counts, Ranked(counts, n))
    ensures var ranked := Ranked(counts, n);
            forall i, j :: 0 <= i < j < n ==>
              counts[ranked[i]] > counts[ranked[j]]
              || (counts[ranked[i]] == counts[ranked[j]] && ranked[i] < ranked[j])
  {
    if n > 0 {
      RankedInOrder(counts, n - 1);
      var before := Ranked(counts, n - 1);
      RankInsertMembers(counts, n - 1, before);
      forall i | 0 <= i < |before| ensures before[i] < n - 1 { assert before[i] in before; }
      RankInsertInOrder(counts, n - 1, before);
    }
  }

  // ----- the table, sorted by pair

  /** A packed pair with its rank. */
  datatype Entry = Entry(score: nat, packed: nat)

  function EntryInsert(e: Entry, s: seq<Entry>): (r: seq<Entry>)
    ensures |r| == |s| + 1
  {
    if s == [] || e.packed < s[0].packed then [e] + s else [s[0]] + EntryInsert(e, s[1..])
  }

  /** The first n numbers of a ranking, each with its rank, sorted by number. */
  function Entries(ranked: seq<nat>, n: nat): (r: seq<Entry>)
    requires n <= |ranked|
    ensures |r| == n
  {
    if n == 0 then [] else EntryInsert(Entry(n - 1, ranked[n - 1]), Entries(ranked, n - 1))
  }

  lemma {:induction false} EntryInsertMembers(e: Entry, s: seq<Entry>)
    ensures forall f :: f in EntryInsert(e, s) <==> f == e || f in s
  {
    if !(s == [] || e.packed < s[0].packed) { EntryInsertMembers(e, s[1..]); }
  }

  ghost predicate AscendingPairs(s: seq<Entry>) {
    forall i, j :: 0 <= i < j < |s| ==> s[i].packed < s[j].packed
  }

  lemma {:induction false} EntryInsertAscending(e: Entry, s: seq<Entry>)
    requires AscendingPairs(s) && forall f :: f in s ==> f.packed != e.packed
    ensures AscendingPairs(EntryInsert(e, s))
  {
    if s != [] {
      assert s[0] in s;
      if s[0].packed < e.packed {
        var rest := EntryInsert(e, s[1..]);
        EntryInsertAscending(e, s[1..]);
        EntryInsertMembers(e, s[1..]);
        forall j | 0 <= j < |rest|
          ensures s[0].packed < rest[j].packed
        {
          assert rest[j] in rest;
          if rest[j] in s[1..] {
            var i :| 0 <= i < |s[1..]| && s[1..][i] == rest[j];
            assert s[0].packed < s[i + 1].packed;
          }
        }
      }
    }
  }

  predicate IsRank(ranked: seq<nat>, n: nat, f: Entry)
    requires n <= |ranked|
  {
    f.score < n && f.packed == ranked[f.score]
  }

  lemma {:induction false} EntriesMembers(ranked: seq<nat>, n: nat)
    requires n <= |ranked|
    ensures forall f :: f in Entries(ranked, n) <==> IsRank(ranked, n, f)
  {
    if n > 0 {
      EntriesMembers(ranked, n - 1);
      EntryInsertMembers(Entry(n - 1, ranked[n - 1]), Entries(ranked, n - 1));
    }
  }

  lemma {:induction false} EntriesAscending(ranked: seq<nat>, n: nat)
    requires n <= |ranked| && forall i, j :: 0 <= i < j < |ranked| ==> ranked[i] != ranked[j]
    ensures AscendingPairs(Entries(ranked, n))
  {
    if n > 0 {
      EntriesAscending(ranked, n - 1);
      EntriesMembers(ranked, n - 1);
      var e := Entry(n - 1, ranked[n - 1]);
      forall f | f in Entries(ranked, n - 1) ensures f.packed != e.packed {
        assert IsRank(ranked, n - 1, f);
      }
      EntryInsertAscending(e, Entries(ranked, n - 1));
    }
  }

  /** The number of occurrences that the counts give each pair. */
  ghost function CountOf(counts: seq<nat>): BytePair -> nat
    requires |counts| == PACKED
  {
    (p: BytePair) => counts[Pack(p.first, p.second)]
  }

  /** The entry of each of the first n ranks, unpacked. */
  ghost predicate Tabled(table: PairTable, entries: seq<Entry>) {
    && |table.pairs| == |table.scores| == |entries|
    && forall i :: 0 <= i < |entries| ==>
         entries[i].packed < PACKED
         && table.pairs[i] == Unpack(entries[i].packed) && table.scores[i] == entries[i].score
  }

  lemma TabledIsValid(ranked: seq<nat>, entries: seq<Entry>, table: PairTable)
    requires AscendingPairs(entries) && Tabled(table, entries) && |entries| == NUM_PAIRS
    requires forall f :: f in entries ==> f.score < NUM_PAIRS
    ensures table.Valid()
  {
    forall i, j | 0 <= i < j < |table.pairs| ensures Less(table.pairs[i], table.pairs[j]) {
      UnpackKeepsOrder(entries[i].packed, entries[j].packed);
    }
    forall i | 0 <= i < |table.scores| ensures table.scores[i] < NUM_PAIRS { assert entries[i] in entries; }
  }

  /** The entries are those of the first ranks of a complete ranking. */
  ghost predicate FirstRanks(counts: seq<nat>, ranked: seq<nat>, entries: seq<Entry>)
    requires |counts| == PACKED && InRange(counts, ranked)
  {
    && InOrder(counts, ranked) && (forall y: nat :: y < PACKED ==> y in ranked)
    && AscendingPairs(entries) && |entries| == NUM_PAIRS <= |ranked|
    && forall f :: f in entries <==> IsRank(ranked, NUM_PAIRS, f)
  }

  lemma CountOfTabled(counts: seq<nat>, ranked: seq<nat>, entries: seq<Entry>, table: PairTable, i: nat)
    requires |counts| == PACKED && InRange(counts, ranked) && FirstRanks(counts, ranked, entries)
    requires Tabled(table, entries) && i < NUM_PAIRS
    ensures table.scores[i] < NUM_PAIRS
    ensures CountOf(counts)(table.pairs[i]) == counts[ranked[table.scores[i]]]
  {
    assert entries[i] in entries;
    PackUnpack(entries[i].packed);
  }

  lemma EntryIsTabled(entries: seq<Entry>, table: PairTable, f: Entry)
    requires Tabled(table, entries) && f.packed < PACKED
    ensures f in entries ==> Unpack(f.packed) in table.pairs
  {
  }

  lemma RankOfUntabled(counts: seq<nat>, ranked: seq<nat>, entries: seq<Entry>, table: PairTable, p: BytePair)
    returns (k: nat)
    requires |counts| == PACKED && InRange(counts, ranked) && FirstRanks(counts, ranked, entries)
    requires Tabled(table, entries) && p !in table.pairs
    ensures NUM_PAIRS <= k < |ranked| && ranked[k] == Pack(p.first, p.second)
  {
    assert Pack(p.first, p.second) in ranked;
    k :| 0 <= k < |ranked| && ranked[k] == Pack(p.first, p.second);
    UnpackPack(p);
    EntryIsTabled(entries, table, Entry(k, ranked[k]));
  }

  /** A table of the first ranks ranks its pairs by their counts. */
  lemma TabledRanks(counts: seq<nat>, ranked: seq<nat>, entries: seq<Entry>, table: PairTable)
    requires |counts| == PACKED && InRange(counts, ranked) && FirstRanks(counts, ranked, entries)
    requires Tabled(table, entries)
    ensures RanksBy(table, CountOf(counts))
  {
    TabledIsValid(ranked, entries, table);
    var c := CountOf(counts);
    forall i, j | 0 <= i < |table.pairs| && 0 <= j < |table.pairs| && table.scores[i] <= table.scores[j]
      ensures c(table.pairs[i]) >= c(table.pairs[j])
    {
      CountOfTabled(counts, ranked, entries, table, i);
      CountOfTabled(counts, ranked, entries, table, j);
      assert table.scores[i] < table.scores[j] ==>
        Before(counts, ranked[table.scores[i]], ranked[table.scores[j]]);
    }
    forall i, p | 0 <= i < |table.pairs| && p !in table.pairs
      ensures c(p) <= c(table.pairs[i])
    {
      CountOfTabled(counts, ranked, entries, table, i);
      var k := RankOfUntabled(counts, ranked, entries, table, p);
      assert Before(counts, ranked[table.scores[i]], ranked[k]);
    }
  }

  lemma RankedIsDistinct(counts: seq<nat>, ranked: seq<nat>)
    requires InRange(counts, ranked) && InOrder(counts, ranked)
    ensures forall i, j :: 0 <= i < j < |ranked| ==> ranked[i] != ranked[j]
  {
  }

  method MakeTable(counts: seq<nat>) returns (table: PairTable)
    requires |counts| == PACKED
    ensures RanksBy(table, CountOf(counts))
    ensures |table.pairs| == |table.scores| == 512
    ensures forall i :: 0 <= i < 512 ==>
              && table.scores[i] < 512
              && Pack(table.pairs[i].first, table.pairs[i].second) == Ranked(counts, |counts|)[table.scores[i]]
  {
    var topN := NUM_PAIRS;
    var ranked := Ranked(counts, |counts|);
    RankedInOrder(counts, |counts|);
    RankedIsDistinct(counts, ranked);
    var sortedPairs := Entries(ranked, topN);
    EntriesMembers(ranked, topN);
    EntriesAscending(ranked, topN);
    forall i | 0 <= i < |sortedPairs| ensures sortedPairs[i].packed < PACKED {
      assert sortedPairs[i] in sortedPairs;
    }
    var pairs, scores := [], [];
    for i := 0 to topN
      invariant |pairs| == |scores| == i
      invariant Tabled(PairTable(pairs, scores), sortedPairs[..i])
    {
      pairs := pairs + [Unpack(sortedPairs[i].packed)];
      scores := scores + [sortedPairs[i].score];
    }
    table := PairTable(pairs, scores);
    assert sortedPairs[..topN] == sortedPairs;
    TabledRanks(counts, ranked, sortedPairs, table);
    forall i | 0 <= i < topN
      ensures table.scores[i] < topN
      ensures Pack(table.pairs[i].first, table.pairs[i].second) == ranked[table.scores[i]]
    {
      assert sortedPairs[i] in sortedPairs;
      PackUnpack(sortedPairs[i].packed);
    }
  }

  /** From sections to table: the pairs are ranked by how often they occur in executable sections. */
  method RankPairs(sections: seq<Section>) returns (table: PairTable, total: int)
    ensures RanksBy(table, (p: BytePair) => AllOccurrences(sections, Pack(p.first, p.second)))
    ensures RanksBy(table, (p: BytePair) => |AllPlaces(sections, p)|)
    ensures |table.pairs| == |table.scores| == 512
    ensures total == PairTotal(sections)
  {
    var counts;
    counts, total := CountPairs(sections);
    table := MakeTable(counts[..]);
    var c := CountOf(counts[..]);
    forall p: BytePair ensures c(p) == AllOccurrences(sections, Pack(p.first, p.second)) == |AllPlaces(sections, p)| {
      AllOccurrencesArePlaces(sections, p);
    }
  }

  // ----- the total

  function OccurrencesBelow(data: seq<bv8>, n: nat): nat {
    if n == 0 then 0 else OccurrencesBelow(data, n - 1) + Occurrences(data, n - 1)
  }

  function AllOccurrencesBelow(sections: seq<Section>, n: nat): nat {
    if n == 0 then 0 else AllOccurrencesBelow(sections, n - 1) + AllOccurrences(sections, n - 1)
  }

  function EmptyExecutables(sections: seq<Section>): nat {
    if sections == [] then 0 else
    var last := sections[|sections| - 1];
    EmptyExecutables(sections[..|sections| - 1]) + if last.executable && last.data == [] then 1 else 0
  }

  lemma {:induction false} OneMoreByte(data: seq<bv8>, n: nat)
    requires |data| >= 2
    ensures OccurrencesBelow(data, n) == OccurrencesBelow(data[..|data| - 1], n)
                                         + if Pack(data[|data| - 2], data[|data| - 1]) < n then 1 else 0
  {
    if n > 0 { OneMoreByte(data, n - 1); }
  }

  lemma {:induction false} NothingInShortData(data: seq<bv8>, n: nat)
    requires |data| < 2
    ensures OccurrencesBelow(data, n) == 0
  {
    if n > 0 { NothingInShortData(data, n - 1); }
  }

  lemma {:induction false} EveryPositionCounted(data: seq<bv8>, n: nat)
    requires n >= PACKED
    ensures OccurrencesBelow(data, n) == if data == [] then 0 else |data| - 1
  {
    if |data| < 2 {
      NothingInShortData(data, n);
    } else {
      EveryPositionCounted(data[..|data| - 1], n);
      OneMoreByte(data, n);
    }
  }

  lemma {:induction false} OneMoreSection(sections: seq<Section>, n: nat)
    requires sections != []
    ensures var last := sections[|sections| - 1];
            AllOccurrencesBelow(sections, n) == AllOccurrencesBelow(sections[..|sections| - 1], n)
                                                + if last.executable then OccurrencesBelow(last.data, n) else 0
  {
    if n > 0 { OneMoreSection(sections, n - 1); }
  }

  lemma {:induction false} NoSections(n: nat)
    ensures AllOccurrencesBelow([], n) == 0
  {
    if n > 0 { NoSections(n - 1); }
  }

  /** The total is the sum of the counts of all numbers below any bound that admits every pair, less one
      for every empty executable section. So the two agree exactly if no executable section is empty. */
  lemma {:induction false} TotalIsSumOfCounts(sections: seq<Section>, n: nat)
    requires n >= PACKED
    ensures PairTotal(sections) == AllOccurrencesBelow(sections, n) - EmptyExecutables(sections)
  {
    if sections == [] {
      NoSections(n);
    } else {
      var last := sections[|sections| - 1];
      TotalIsSumOfCounts(sections[..|sections| - 1], n);
      OneMoreSection(sections, n);
      EveryPositionCounted(last.data, n);
    }
  }

  /** One empty executable section makes the total negative, while all counts are zero. */
  lemma EmptySectionCountsBelowZero(q: nat)
    ensures PairTotal([Section(true, [])]) == -1 && AllOccurrences([Section(true, [])], q) == 0
  {
    var sections := [Section(true, [])];
    assert sections[..0] == [];
  }
}
