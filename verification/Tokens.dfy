/** Splitting a signature string at spaces, and joining words with spaces. */
module Tokens {

  /** The words of a string from those behind its first character. */
  function Prepended(ch: char, words: seq<string>): (r: seq<string>)
    requires words != []
    ensures r != []
  {
    if ch == ' ' then [[]] + words else [[ch] + words[0]] + words[1..]
  }

  /** std::views::split at ' '. Between, before and after spaces there may be empty words. */
  function Split(s: string): (words: seq<string>)
    ensures words != []
  {
    if s == [] then [[]] else Prepended(s[0], Split(s[1..]))
  }

  function NonEmpty(words: seq<string>): seq<string> {
    if words == [] then [] else (if words[0] == [] then [] else [words[0]]) + NonEmpty(words[1..])
  }

  /** The words that are not empty. */
  function WordsIn(s: string): seq<string> { NonEmpty(Split(s)) }

  /** The words with a space after each. */
  function Terminated(words: seq<string>): string {
    if words == [] then [] else words[0] + " " + Terminated(words[1..])
  }

  predicate Word(w: string) { w != [] && ' ' !in w }

  lemma {:induction false} NonEmptyOfPrefix(words: seq<string>, w: string)
    ensures NonEmpty(words + [w]) == NonEmpty(words) + if w == [] then [] else [w]
  {
    if words == [] {
      assert [w][1..] == [];
    } else {
      assert (words + [w])[1..] == words[1..] + [w];
      NonEmptyOfPrefix(words[1..], w);
    }
  }

  lemma {:induction false} NonEmptyMembers(words: seq<string>)
    ensures forall w :: w in NonEmpty(words) <==> w in words && w != []
  {
    if words != [] { NonEmptyMembers(words[1..]); }
  }

  lemma {:induction false} WordsAreWords(s: string)
    ensures forall w :: w in Split(s) ==> ' ' !in w
    ensures forall w :: w in WordsIn(s) ==> Word(w)
    ensures forall i :: 0 <= i < |WordsIn(s)| ==> Word(WordsIn(s)[i])
  {
    if s != [] { WordsAreWords(s[1..]); }
    NonEmptyMembers(Split(s));
  }

  // ----- the number of words

  function Letters(words: seq<string>): nat {
    if words == [] then 0 else |words[0]| + Letters(words[1..])
  }

  lemma {:induction false} SplitLength(s: string)
    ensures Letters(Split(s)) + |Split(s)| == |s| + 1
  {
    if s != [] {
      SplitLength(s[1..]);
      var words := Split(s);
      assert words[1..] == if s[0] == ' ' then Split(s[1..]) else Split(s[1..])[1..];
    }
  }

  lemma {:induction false} NonEmptyCount(words: seq<string>)
    ensures |NonEmpty(words)| <= |words| && |NonEmpty(words)| <= Letters(words)
  {
    if words != [] { NonEmptyCount(words[1..]); }
  }

  /** Every word but the last needs a letter and a space. */
  lemma WordCountBound(s: string)
    ensures |WordsIn(s)| <= (|s| + 1) / 2
  {
    SplitLength(s);
    NonEmptyCount(Split(s));
  }

  // ----- joining and splitting again

  lemma {:induction false} SplitOfWord(w: string, s: string)
    requires ' ' !in w
    ensures Split(w + " " + s) == [w] + Split(s)
  {
    var whole := w + " " + s;
    if w == [] {
      assert whole[1..] == s;
    } else {
      assert whole[1..] == w[1..] + " " + s;
      SplitOfWord(w[1..], s);
      assert [w[0]] + w[1..] == w;
    }
  }

  lemma {:induction false} LastWord(w: string)
    requires ' ' !in w
    ensures Split(w) == [w]
  {
    if w != [] { LastWord(w[1..]); assert [w[0]] + w[1..] == w; }
  }

  lemma FirstWord(w: string, s: string)
    requires Word(w)
    ensures WordsIn(w + " " + s) == [w] + WordsIn(s)
    ensures WordsIn(w) == [w]
  {
    SplitOfWord(w, s);
    assert ([w] + Split(s))[1..] == Split(s);
    LastWord(w);
    assert NonEmpty([w]) == [w] + NonEmpty([]);
  }

  lemma {:induction false} TerminatedAppend(words: seq<string>, w: string)
    ensures Terminated(words + [w]) == Terminated(words) + w + " "
  {
    if words == [] {
      assert [w][1..] == [];
      assert [] + [w] == [w];
    } else {
      assert (words + [w])[1..] == words[1..] + [w];
      TerminatedAppend(words[1..], w);
    }
  }

  /** The words joined with single spaces. */
  function Joined(words: seq<string>): string
    requires words != []
  {
    if |words| == 1 then words[0] else words[0] + " " + Joined(words[1..])
  }

  lemma {:induction false} JoinedIsTerminated(words: seq<string>)
    requires words != []
    ensures Terminated(words) == Joined(words) + " "
  {
    if |words| == 1 {
      assert Terminated(words) == words[0] + " " + Terminated([]);
    } else {
      JoinedIsTerminated(words[1..]);
    }
  }

  /** Joined words split into the same words. */
  lemma {:induction false} WordsOfJoined(words: seq<string>)
    requires words != [] && forall i :: 0 <= i < |words| ==> Word(words[i])
    ensures WordsIn(Joined(words)) == words
  {
    if |words| == 1 {
      FirstWord(words[0], []);
    } else {
      WordsOfJoined(words[1..]);
      FirstWord(words[0], Joined(words[1..]));
    }
  }

  // ----- splitting at any space

  lemma PrependedToSum(ch: char, words: seq<string>, more: seq<string>)
    requires words != []
    ensures Prepended(ch, words + more) == Prepended(ch, words) + more
  {
  }

  lemma {:induction false} SplitAtSpace(a: string, b: string)
    ensures Split(a + " " + b) == Split(a) + Split(b)
  {
    var whole := a + " " + b;
    if a == [] {
      assert whole[1..] == b;
    } else {
      assert whole[1..] == a[1..] + " " + b;
      SplitAtSpace(a[1..], b);
      PrependedToSum(a[0], Split(a[1..]), Split(b));
    }
  }

  lemma {:induction false} NonEmptyOfSum(a: seq<string>, b: seq<string>)
    ensures NonEmpty(a + b) == NonEmpty(a) + NonEmpty(b)
  {
    if a == [] {
      assert a + b == b;
    } else {
      assert (a + b)[1..] == a[1..] + b;
      NonEmptyOfSum(a[1..], b);
    }
  }

  /** Every space separates, and nothing else does: what is before a space and what is behind it are
      split on their own, a string without spaces is one word, and an empty one is none. So spaces in
      front, at the end or in a row add no words. */
  lemma SpacesSeparate(a: string, b: string)
    ensures WordsIn(a + " " + b) == WordsIn(a) + WordsIn(b)
    ensures ' ' !in a ==> WordsIn(a) == if a == [] then [] else [a]
  {
    SplitAtSpace(a, b);
    NonEmptyOfSum(Split(a), Split(b));
    if ' ' !in a {
      LastWord(a);
      assert NonEmpty([a]) == (if a == [] then [] else [a]) + NonEmpty([]);
    }
  }

  /** Words joined with single spaces are split into just these words, with no empty word between them. */
  lemma {:induction false} SplitOfJoined(words: seq<string>)
    requires words != [] && forall i :: 0 <= i < |words| ==> ' ' !in words[i]
    ensures Split(Joined(words)) == words
  {
    if |words| == 1 {
      LastWord(words[0]);
    } else {
      SplitOfJoined(words[1..]);
      SplitOfWord(words[0], Joined(words[1..]));
    }
  }
}
