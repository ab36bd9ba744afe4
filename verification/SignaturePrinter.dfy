/** Printing signatures, and what parsing a printed signature gives back. */
module SignaturePrinter {
  import opened Results
  import opened Signatures
  import opened SignatureParser
  import opened SignatureGrammar
  import Tokens

  const HEX: string := "0123456789ABCDEF"

  predicate HighFull(e: SignatureElement) { e.mask & 0xF0 == 0xF0 }

  predicate LowFull(e: SignatureElement) { e.mask & 0x0F == 0x0F }

  function HexChar(d: bv8): (ch: char)
    ensures '0' <= ch <= '9' || 'A' <= ch <= 'F'
  {
    HEX[(d & 0xF) as int]
  }

  function BinaryChar(e: SignatureElement, digit: nat): char
    requires digit < 8
  {
    if e.Has(digit) then if e.At(digit) then '1' else '0' else '?'
  }

  /** One element: hexadecimal if a whole nibble is fixed, a wildcard if nothing is, else binary. */
  function PrintElement(e: SignatureElement): string {
    if HighFull(e) || LowFull(e) then
      [if HighFull(e) then HexChar(e.value >> 4) else '?', if LowFull(e) then HexChar(e.value >> 0) else '?']
    else if e.None() then
      "?"
    else
      [BinaryChar(e, 7), BinaryChar(e, 6), BinaryChar(e, 5), BinaryChar(e, 4),
       BinaryChar(e, 3), BinaryChar(e, 2), BinaryChar(e, 1), BinaryChar(e, 0)]
  }

  function PrintElements(sig: Signature): (words: seq<string>)
    ensures |words| == |sig|
    ensures forall k :: 0 <= k < |sig| ==> words[k] == PrintElement(sig[k])
  {
    seq(|sig|, k requires 0 <= k < |sig| => PrintElement(sig[k]))
  }

  predicate Spelled(ch: char) { ch == '?' || '0' <= ch <= '9' || 'A' <= ch <= 'F' }

  lemma TwoSpelled(c: string, a: char, b: char)
    requires c == [a, b] && Spelled(a) && Spelled(b)
    ensures forall ch :: ch in c ==> Spelled(ch)
  {
  }

  lemma EightSpelled(c: string, e: SignatureElement)
    requires c == [BinaryChar(e, 7), BinaryChar(e, 6), BinaryChar(e, 5), BinaryChar(e, 4),
                   BinaryChar(e, 3), BinaryChar(e, 2), BinaryChar(e, 1), BinaryChar(e, 0)]
    ensures forall ch :: ch in c ==> Spelled(ch)
  {
  }

  /** A free element is one character, one with a full nibble is two, and any other is eight. The characters
      are numerals, capital letters and question marks. */
  lemma PrintedSpelling(e: SignatureElement)
    ensures |PrintElement(e)| == if e.mask == 0 then 1
                                 else if e.mask & 0xF0 == 0xF0 || e.mask & 0x0F == 0x0F then 2
                                 else 8
    ensures forall ch :: ch in PrintElement(e) ==> ch == '?' || '0' <= ch <= '9' || 'A' <= ch <= 'F'
  {
    var w := PrintElement(e);
    if HighFull(e) || LowFull(e) {
      TwoSpelled(w, w[0], w[1]);
    } else if !e.None() {
      EightSpelled(w, e);
    }
    assert forall ch :: ch in w ==> Spelled(ch);
  }

  lemma PrintedWords(sig: Signature)
    requires sig != []
    ensures Tokens.Split(Tokens.Joined(PrintElements(sig))) == PrintElements(sig)
    ensures forall k :: 0 <= k < |sig| ==>
              && |PrintElement(sig[k])| == (if sig[k].mask == 0 then 1
                                            else if sig[k].mask & 0xF0 == 0xF0 || sig[k].mask & 0x0F == 0x0F then 2
                                            else 8)
              && forall ch :: ch in PrintElement(sig[k]) ==> ch == '?' || '0' <= ch <= '9' || 'A' <= ch <= 'F'
  {
    forall k | 0 <= k < |sig|
      ensures ' ' !in PrintElement(sig[k])
    {
      PrintedSpelling(sig[k]);
    }
    forall k | 0 <= k < |sig| { PrintedSpelling(sig[k]); }
    Tokens.SplitOfJoined(PrintElements(sig));
  }

  /** to_string */
  method ToString(signature: Signature) returns (ret: string)
    requires signature != []
    ensures ret == Tokens.Joined(PrintElements(signature))
    ensures var words := Tokens.Split(ret);
            && |words| == |signature|
            && forall k :: 0 <= k < |words| ==>
                 && |words[k]| == (if signature[k].mask == 0 then 1
                                   else if signature[k].mask & 0xF0 == 0xF0 || signature[k].mask & 0x0F == 0x0F then 2
                                   else 8)
                 && forall ch :: ch in words[k] ==> ch == '?' || '0' <= ch <= '9' || 'A' <= ch <= 'F'
  {
    ret := [];
    for i := 0 to |signature|
      invariant ret == Tokens.Terminated(PrintElements(signature[..i]))
    {
      ghost var words, next := PrintElements(signature[..i]), PrintElements(signature[..i + 1]);
      assert next == words + [PrintElement(signature[i])];
      Tokens.TerminatedAppend(words, PrintElement(signature[i]));
      ret := ret + PrintElement(signature[i]) + " ";
    }
    assert signature[..|signature|] == signature;
    Tokens.JoinedIsTerminated(PrintElements(signature));
    ret := ret[..|ret| - 1];
    PrintedWords(signature);
  }

  // ----- the element that a printed element stands for

  /** Where a nibble is printed as a hexadecimal digit, a partly fixed other nibble is printed as a wildcard. */
  function Printable(e: SignatureElement): SignatureElement {
    if HighFull(e) || LowFull(e) then
      Masked(e.value, (if HighFull(e) then 0xF0 else 0) | if LowFull(e) then 0x0F else 0)
    else
      e
  }

  /** Nothing is lost exactly if no nibble is full or each nibble is full or free. */
  predicate Faithful(e: SignatureElement) {
    || (!HighFull(e) && !LowFull(e))
    || ((HighFull(e) || e.mask & 0xF0 == 0) && (LowFull(e) || e.mask & 0x0F == 0))
  }

  lemma PrintableWeakens(e: SignatureElement)
    ensures forall b: bv8 :: e.Matches(b) ==> Printable(e).Matches(b)
    ensures Printable(e) == e <==> Faithful(e)
    ensures Printable(e).All() <==> e.All()
    ensures Faithful(Printable(e))
  {
  }

  /** The loss is real: an element that is not printed faithfully also loses matches, that is, the
      printed form matches a byte that the element does not. */
  lemma UnfaithfulMatchesMore(e: SignatureElement)
    requires !Faithful(e)
    ensures exists b: bv8 :: Printable(e).Matches(b) && !e.Matches(b)
  {
    var b := e.value ^ (e.mask & !Printable(e).mask);
    assert Printable(e).Matches(b) && !e.Matches(b);
  }

  lemma PrintedAgain(e: SignatureElement)
    ensures PrintElement(Printable(e)) == PrintElement(e)
  {
  }

  // ----- parsing what was printed

  lemma MatchEachOther(e: SignatureElement, f: SignatureElement)
    requires f.Matches(e.value) && f.Matches(e.value | !e.mask)
    requires e.Matches(f.value) && e.Matches(f.value | !f.mask)
    ensures e == f
  {
  }

  lemma MatchesItself(e: SignatureElement)
    ensures e.Matches(e.value) && e.Matches(e.value | !e.mask)
  {
  }

  /** An element is determined by the bytes it matches. */
  lemma SameMatches(e: SignatureElement, f: SignatureElement)
    requires forall b: bv8 :: e.Matches(b) <==> f.Matches(b)
    ensures e == f
  {
    MatchesItself(e);
    MatchesItself(f);
    MatchEachOther(e, f);
  }

  lemma HexCharValue(d: bv8)
    ensures HexOrWildcard(HexChar(d)) && HexChar(d) != '?' && HexChar(d) != ' '
    ensures HexValue(HexChar(d)) == d & 0xF
  {
  }

  lemma PrintedHexMatches(e: SignatureElement, b: bv8)
    requires HighFull(e) || LowFull(e)
    ensures WordMatches(PrintElement(e), b) <==> Printable(e).Matches(b)
  {
    HexCharValue(e.value >> 4);
    HexCharValue(e.value >> 0);
  }

  /** The element leaves this bit free or agrees with the byte in it. */
  predicate BitMatches(e: SignatureElement, b: bv8, place: bv8) {
    e.mask & place == 0 || ((e.value & place != 0) == (b & place != 0))
  }

  lemma PrintedDigit(e: SignatureElement, digit: nat, b: bv8)
    requires digit < 8
    ensures DigitFits(BinaryChar(e, digit), b, DigitPlace(digit)) <==> BitMatches(e, b, DigitPlace(digit))
    ensures BinaryOrWildcard(BinaryChar(e, digit))
  {
  }

  lemma DigitPlaces()
    ensures DigitPlace(7) == 0x80 && DigitPlace(6) == 0x40 && DigitPlace(5) == 0x20 && DigitPlace(4) == 0x10
    ensures DigitPlace(3) == 0x08 && DigitPlace(2) == 0x04 && DigitPlace(1) == 0x02 && DigitPlace(0) == 0x01
  {
  }

  predicate AllBitsMatch(e: SignatureElement, b: bv8) {
    && BitMatches(e, b, 0x80) && BitMatches(e, b, 0x40) && BitMatches(e, b, 0x20) && BitMatches(e, b, 0x10)
    && BitMatches(e, b, 0x08) && BitMatches(e, b, 0x04) && BitMatches(e, b, 0x02) && BitMatches(e, b, 0x01)
  }

  lemma MatchesEachBit(e: SignatureElement, b: bv8)
    requires e.Matches(b)
    ensures AllBitsMatch(e, b)
  {
  }

  lemma EachBitMatches(e: SignatureElement, b: bv8)
    requires AllBitsMatch(e, b)
    ensures e.Matches(b)
  {
  }

  lemma EachBit(e: SignatureElement, b: bv8)
    ensures e.Matches(b) <==> AllBitsMatch(e, b)
  {
    if e.Matches(b) { MatchesEachBit(e, b); }
    if AllBitsMatch(e, b) { EachBitMatches(e, b); }
  }

  lemma PrintedDigits(e: SignatureElement, b: bv8)
    requires !HighFull(e) && !LowFull(e) && !e.None()
    ensures var w := PrintElement(e);
            && |w| == 8 && (forall k :: 0 <= k < 8 ==> BinaryOrWildcard(w[k]))
            && (DigitFits(w[0], b, 0x80) <==> BitMatches(e, b, 0x80))
            && (DigitFits(w[1], b, 0x40) <==> BitMatches(e, b, 0x40))
            && (DigitFits(w[2], b, 0x20) <==> BitMatches(e, b, 0x20))
            && (DigitFits(w[3], b, 0x10) <==> BitMatches(e, b, 0x10))
            && (DigitFits(w[4], b, 0x08) <==> BitMatches(e, b, 0x08))
            && (DigitFits(w[5], b, 0x04) <==> BitMatches(e, b, 0x04))
            && (DigitFits(w[6], b, 0x02) <==> BitMatches(e, b, 0x02))
            && (DigitFits(w[7], b, 0x01) <==> BitMatches(e, b, 0x01))
  {
    DigitPlaces();
    PrintedDigit(e, 7, b);
    PrintedDigit(e, 6, b);
    PrintedDigit(e, 5, b);
    PrintedDigit(e, 4, b);
    PrintedDigit(e, 3, b);
    PrintedDigit(e, 2, b);
    PrintedDigit(e, 1, b);
    PrintedDigit(e, 0, b);
  }

  lemma PrintedBinaryMatches(e: SignatureElement, b: bv8)
    requires !HighFull(e) && !LowFull(e) && !e.None()
    ensures WordMatches(PrintElement(e), b) <==> e.Matches(b)
    ensures WordFits(PrintElement(e))
  {
    EachPlace(PrintElement(e), b);
    PrintedDigits(e, b);
    EachBit(e, b);
  }

  lemma PrintedFits(e: SignatureElement)
    ensures WordFits(PrintElement(e)) && Tokens.Word(PrintElement(e))
  {
    HexCharValue(e.value >> 4);
    HexCharValue(e.value >> 0);
    if !HighFull(e) && !LowFull(e) && !e.None() {
      PrintedBinaryMatches(e, 0);
    }
  }

  /** A printed element is one word, and it parses to the printable part of the element. */
  lemma PrintedParses(e: SignatureElement)
    ensures Tokens.Word(PrintElement(e))
    ensures ElementOfWord(PrintElement(e)) == Ok(Printable(e))
  {
    var w := PrintElement(e);
    WordMeaning(w);
    PrintedFits(e);
    forall b: bv8
      ensures ElementOfWord(w).value.Matches(b) <==> Printable(e).Matches(b)
    {
      if HighFull(e) || LowFull(e) {
        PrintedHexMatches(e, b);
      } else if !e.None() {
        PrintedBinaryMatches(e, b);
      }
    }
    SameMatches(ElementOfWord(w).value, Printable(e));
  }

  function PrintableSignature(sig: Signature): (p: Signature)
    ensures |p| == |sig|
    ensures forall k :: 0 <= k < |sig| ==> p[k] == Printable(sig[k])
  {
    seq(|sig|, k requires 0 <= k < |sig| => Printable(sig[k]))
  }

  /** Parsing a printed signature never fails on a word, keeps the length, and gives the printable
      part of every element; it succeeds exactly if the signature has a fully masked byte. */
  lemma ParsePrinted(sig: Signature, out: Signature, r: Result<nat, SignatureError>)
    requires sig != [] && Parses(Tokens.Joined(PrintElements(sig)), out, r)
    ensures out == PrintableSignature(sig)
    ensures r == if Scannable(sig) then Ok(|sig|) else Err(MissingMaskedByte)
  {
    var words := PrintElements(sig);
    forall k | 0 <= k < |sig|
      ensures Tokens.Word(words[k]) && ElementOfWord(words[k]) == Ok(Printable(sig[k]))
      ensures Printable(sig[k]).All() <==> sig[k].All()
    {
      PrintedParses(sig[k]);
      PrintableWeakens(sig[k]);
    }
    Tokens.WordsOfJoined(words);
    assert |out| == |sig|;
    forall k | 0 <= k < |sig|
      ensures out[k] == Printable(sig[k])
    {
      assert ElementOfWord(words[k]) == Ok(out[k]);
    }
    assert Scannable(out) <==> Scannable(sig);
  }

  /** The round trip returns the signature itself exactly if every element is printed faithfully. */
  lemma RoundTripIffFaithful(sig: Signature, out: Signature, r: Result<nat, SignatureError>)
    requires Scannable(sig) && Parses(Tokens.Joined(PrintElements(sig)), out, r)
    ensures r == Ok(|sig|) && |out| == |sig|
    ensures out == sig <==> forall k :: 0 <= k < |sig| ==> Faithful(sig[k])
    ensures forall k :: 0 <= k < |sig| ==> forall b: bv8 :: sig[k].Matches(b) ==> out[k].Matches(b)
  {
    ParsePrinted(sig, out, r);
    forall k | 0 <= k < |sig|
      ensures out[k] == sig[k] <==> Faithful(sig[k])
      ensures forall b: bv8 :: sig[k].Matches(b) ==> out[k].Matches(b)
    {
      PrintableWeakens(sig[k]);
    }
  }

  /** Printing, parsing and printing again gives the same string. */
  lemma PrintParsePrint(sig: Signature, out: Signature, r: Result<nat, SignatureError>)
    requires sig != [] && Parses(Tokens.Joined(PrintElements(sig)), out, r)
    ensures out != [] && Tokens.Joined(PrintElements(out)) == Tokens.Joined(PrintElements(sig))
  {
    ParsePrinted(sig, out, r);
    forall k | 0 <= k < |sig|
      ensures PrintElement(out[k]) == PrintElement(sig[k])
    {
      PrintedAgain(sig[k]);
    }
    assert PrintElements(out) == PrintElements(sig);
  }

  /** A signature that is not given back: the high nibble of its first element is fixed, and so is one
      bit of the low nibble. */
  const LOSSY: Signature := [Masked(0xA8, 0xF8), Exact(0x12)]

  lemma RoundTripCanLose(out: Signature, r: Result<nat, SignatureError>)
    requires Parses(Tokens.Joined(PrintElements(LOSSY)), out, r)
    ensures PrintElements(LOSSY) == ["A?", "12"]
    ensures Scannable(LOSSY) && r == Ok(2) && out == [Masked(0xA0, 0xF0), Exact(0x12)] && out != LOSSY
  {
    assert LOSSY[1].All();
    assert PrintElement(LOSSY[0]) == "A?" && PrintElement(LOSSY[1]) == "12";
    ParsePrinted(LOSSY, out, r);
    assert out[0] == Printable(LOSSY[0]) && out[1] == Printable(LOSSY[1]);
  }
}
