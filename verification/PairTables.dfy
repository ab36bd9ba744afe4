/** The byte-pair frequency tables and the lookup of a pair's score. */
module PairTables {
  import opened Signatures

  const NUM_PAIRS: nat := 512

  datatype BytePair = BytePair(first: bv8, second: bv8)

  /** The order of std::pair: by the first byte, then by the second. */
  predicate Less(p: BytePair, q: BytePair) {
    p.first < q.first || (p.first == q.first && p.second < q.second)
  }

  lemma LessIsTransitive(p: BytePair, q: BytePair, r: BytePair)
    requires Less(p, q) && Less(q, r)
    ensures Less(p, r)
  {
  }

  /** The score of a pair is its rank by frequency: the most frequent pair has score 0. */
  datatype PairTable = PairTable(pairs: seq<BytePair>, scores: seq<nat>) {

    predicate Valid() {
      && |pairs| == NUM_PAIRS && |scores| == NUM_PAIRS
      && (forall i, j :: 0 <= i < j < |pairs| ==> Less(pairs[i], pairs[j]))
      && (forall i :: 0 <= i < |scores| ==> scores[i] < NUM_PAIRS)
    }

    /** The meaning of the table: the score stored beside the pair, and 512 for any other pair. */
    ghost function ScoreOf(key: BytePair): nat
      requires Valid()
    {
      if key in pairs then
        var i :| 0 <= i < |pairs| && pairs[i] == key; scores[i]
      else
        NUM_PAIRS
    }

    lemma BelowIsPrefix(key: BytePair, i: nat, j: nat)
      requires Valid() && i <= j < |pairs| && Less(pairs[j], key)
      ensures Less(pairs[i], key)
    {
      if i < j {
        LessIsTransitive(pairs[i], pairs[j], key);
      }
    }

    /** In sorted pairs, one comparison on each side of a position decides all. */
    lemma Partitioned(key: BytePair, first: nat)
      requires Valid() && first <= |pairs|
      requires first > 0 ==> Less(pairs[first - 1], key)
      requires first < |pairs| ==> !Less(pairs[first], key)
      ensures forall i :: 0 <= i < first ==> Less(pairs[i], key)
      ensures forall i :: first <= i < |pairs| ==> !Less(pairs[i], key)
    {
      forall i | 0 <= i < first ensures Less(pairs[i], key) {
        BelowIsPrefix(key, i, first - 1);
      }
      forall i | first <= i < |pairs| ensures !Less(pairs[i], key) {
        if Less(pairs[i], key) { BelowIsPrefix(key, first, i); }
      }
    }

    /** std::ranges::lower_bound: the first position whose pair is not below the key. */
    method LowerBound(key: BytePair) returns (first: nat)
      requires Valid()
      ensures first <= |pairs|
      ensures forall i :: 0 <= i < first ==> Less(pairs[i], key)
      ensures forall i :: first <= i < |pairs| ==> !Less(pairs[i], key)
    {
      first := 0;
      var count := |pairs|;
      while count > 0
        invariant 0 <= count && first + count <= |pairs|
        invariant first > 0 ==> Less(pairs[first - 1], key)
        invariant first + count < |pairs| ==> !Less(pairs[first + count], key)
      {
        var half := count / 2;
        if Less(pairs[first + half], key) {
          first, count := first + half + 1, count - half - 1;
        } else {
          count := half;
        }
      }
      Partitioned(key, first);
    }

    lemma KeyOnlyAtLowerBound(key: BytePair, index: nat, i: nat)
      requires index <= |pairs| && i < |pairs| && i != index
      requires i < index ==> Less(pairs[i], key)
      requires index < i ==> Less(pairs[index], pairs[i]) && !Less(pairs[index], key)
      ensures pairs[i] != key
    {
    }

    method GetScore(a: bv8, b: bv8) returns (score: nat)
      requires Valid()
      ensures score == ScoreOf(BytePair(a, b))
      ensures forall i :: 0 <= i < |pairs| && pairs[i] == BytePair(a, b) ==> score == scores[i]
      ensures BytePair(a, b) !in pairs ==> score == 512
    {
      var key := BytePair(a, b);
      var index := LowerBound(key);
      forall i | 0 <= i < |pairs| && i != index
        ensures pairs[i] != key
      {
        KeyOnlyAtLowerBound(key, index, i);
      }
      score := if index < |pairs| && pairs[index] == key then scores[index] else NUM_PAIRS;
    }

    /** The score of the pair stored at i is the score stored at i. */
    lemma ScoreOfStored(i: nat)
      requires Valid() && i < |pairs|
      ensures ScoreOf(pairs[i]) == scores[i] < 512
    {
    }

    /** A table has 512 pairs, and every other pair scores above all of them. */
    lemma ScoreOfAbsent(key: BytePair)
      requires Valid()
      ensures |pairs| == |scores| == 512
      ensures key !in pairs <==> ScoreOf(key) == 512
    {
      if key in pairs {
        var i :| 0 <= i < |pairs| && pairs[i] == key;
        ScoreOfStored(i);
      }
    }
  }

  /** Two adjacent fully masked bytes at i. */
  predicate PairAt(sig: Signature, i: nat) {
    i + 1 < |sig| && sig[i].All() && sig[i + 1].All()
  }

  ghost function PairScore(table: PairTable, sig: Signature, i: nat): nat
    requires table.Valid() && PairAt(sig, i)
  {
    table.ScoreOf(BytePair(sig[i].value, sig[i + 1].value))
  }

  /** The leftmost pair among those of maximum score that start below the limit. */
  ghost predicate BestPairBelow(table: PairTable, sig: Signature, limit: nat, i: nat)
    requires table.Valid()
  {
    && PairAt(sig, i)
    && forall j: nat :: j < limit && PairAt(sig, j) ==>
         PairScore(table, sig, j) <= PairScore(table, sig, i)
         && (j < i ==> PairScore(table, sig, j) < PairScore(table, sig, i))
  }

  ghost predicate BestPair(table: PairTable, sig: Signature, i: nat)
    requires table.Valid()
  {
    BestPairBelow(table, sig, |sig|, i)
  }

  /** The table holds the most frequent pairs under count, and lower scores are at least as frequent. */
  ghost predicate RanksBy(table: PairTable, count: BytePair -> nat) {
    && table.Valid()
    && (forall i, j :: 0 <= i < |table.pairs| && 0 <= j < |table.pairs| && table.scores[i] <= table.scores[j] ==>
          count(table.pairs[i]) >= count(table.pairs[j]))
    && (forall i, p :: 0 <= i < |table.pairs| && p !in table.pairs ==> count(p) <= count(table.pairs[i]))
  }

  /** What the ranking is for: no pair of the signature that the table knows is rarer than the
      chosen one, and if the signature has a pair unknown to the table, then such a pair is chosen. */
  lemma BestPairIsRarest(table: PairTable, sig: Signature, count: BytePair -> nat, best: nat, j: nat)
    requires RanksBy(table, count) && BestPair(table, sig, best)
    requires j + 1 < |sig| && sig[j].All() && sig[j + 1].All()
    ensures best + 1 < |sig| && sig[best].All() && sig[best + 1].All()
    ensures BytePair(sig[j].value, sig[j + 1].value) in table.pairs ==>
              count(BytePair(sig[best].value, sig[best + 1].value)) <= count(BytePair(sig[j].value, sig[j + 1].value))
    ensures BytePair(sig[j].value, sig[j + 1].value) !in table.pairs ==>
              BytePair(sig[best].value, sig[best + 1].value) !in table.pairs
  {
    assert PairScore(table, sig, j) <= PairScore(table, sig, best);
    table.ScoreOfAbsent(BytePair(sig[best].value, sig[best + 1].value));
    table.ScoreOfAbsent(BytePair(sig[j].value, sig[j + 1].value));
  }
}
