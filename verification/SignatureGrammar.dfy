/** The documented signature syntax, stated without reference to the parser, and the proof that the
    parser accepts exactly this syntax with exactly this meaning. */
module SignatureGrammar {
  import opened Results
  import opened Signatures
  import opened StringConversion
  import opened SignatureParser
  import Tokens

  predicate HexOrWildcard(ch: char) {
    ch == '?' || '0' <= ch <= '9' || 'A' <= ch <= 'F' || 'a' <= ch <= 'f'
  }

  predicate BinaryOrWildcard(ch: char) { ch == '?' || ch == '0' || ch == '1' }

  /** One wildcard, two hexadecimal digits, or eight binary digits; any digit may be a wildcard. */
  predicate WordFits(w: string) {
    || w == "?"
    || (|w| == 2 && forall k :: 0 <= k < 2 ==> HexOrWildcard(w[k]))
    || (|w| == 8 && forall k :: 0 <= k < 8 ==> BinaryOrWildcard(w[k]))
  }

  /** A word that fixes every bit. */
  predicate WordIsExact(w: string) { |w| > 1 && '?' !in w }

  function HexValue(ch: char): bv8 {
    if '0' <= ch <= '9' then (ch as int - '0' as int) as bv8
    else if 'A' <= ch <= 'F' then (ch as int - 'A' as int + 10) as bv8
    else if 'a' <= ch <= 'f' then (ch as int - 'a' as int + 10) as bv8
    else 0
  }

  /** The bit of a byte that the k-th binary digit from the left stands for. */
  function Place(k: nat): bv8
    requires k < 8
  {
    if k < 4 then
      if k < 2 then if k == 0 then 0x80 else 0x40 else if k == 2 then 0x20 else 0x10
    else
      if k < 6 then if k == 4 then 0x08 else 0x04 else if k == 6 then 0x02 else 0x01
  }

  /** Each digit that is no wildcard equals the byte's digit at that place. */
  predicate WordMatches(w: string, b: bv8) {
    if |w| == 2 then
      && (w[0] == '?' || HexValue(w[0]) == b >> 4)
      && (w[1] == '?' || HexValue(w[1]) == b & 0xF)
    else if |w| == 8 then
      forall k :: 0 <= k < 8 ==> w[k] == '?' || ((w[k] == '1') == (b & Place(k) != 0))
    else
      true
  }

  // ----- two hexadecimal digits

  lemma HexDigitValue(ch: char)
    ensures DigitValue(ch, 16).Some? <==> HexOrWildcard(ch) && ch != '?'
    ensures DigitValue(ch, 16).Some? ==> DigitValue(ch, 16).value as bv8 == HexValue(ch) && HexValue(ch) < 16
  {
  }

  lemma HexFields(w: string)
    requires |w| == 2
    ensures FieldsOf(w, 16).Some? <==> HexOrWildcard(w[0]) && HexOrWildcard(w[1])
    ensures FieldsOf(w, 16).Some? ==>
              var h, l := if w[0] == '?' then 0 else HexValue(w[0]), if w[1] == '?' then 0 else HexValue(w[1]);
              var m, n := if w[0] == '?' then 0 else 15, if w[1] == '?' then 0 else 15;
              h < 16 && l < 16 && FieldsOf(w, 16).value == Element(h * 16 + l, m * 16 + n)
  {
    HexDigitValue(w[0]);
    HexDigitValue(w[1]);
    assert w[..2] == w && w[..0] == [];
    AppendToFields(w, 16, 0);
    AppendToFields(w, 16, 1);
  }

  // ----- eight binary digits

  function BinaryDigit(ch: char): bv8 { if ch == '1' then 1 else 0 }

  function BinaryMask(ch: char): bv8 { if ch == '?' then 0 else 1 }

  function Shifted(f: ElementFields, d: bv8, m: bv8): ElementFields { Element(f.value * 2 + d, f.mask * 2 + m) }

  function BinaryFields(w: string, k: nat): ElementFields
    requires k <= |w|
  {
    if k == 0 then Element(0, 0) else Shifted(BinaryFields(w, k - 1), BinaryDigit(w[k - 1]), BinaryMask(w[k - 1]))
  }

  lemma BinaryAppend(w: string, k: nat)
    requires k < |w|
    ensures var before, after := FieldsOf(w[..k], 2), FieldsOf(w[..k + 1], 2);
            && (after.Some? <==> before.Some? && BinaryOrWildcard(w[k]))
            && (after.Some? ==> after.value == Shifted(before.value, BinaryDigit(w[k]), BinaryMask(w[k])))
  {
    AppendToFields(w, 2, k);
  }

  lemma {:induction false} BinaryPrefix(w: string, k: nat)
    requires k <= |w|
    ensures FieldsOf(w[..k], 2).Some? <==> forall i :: 0 <= i < k ==> BinaryOrWildcard(w[i])
    ensures FieldsOf(w[..k], 2).Some? ==> FieldsOf(w[..k], 2).value == BinaryFields(w, k)
  {
    if k == 0 {
      assert w[..0] == [];
    } else {
      BinaryPrefix(w, k - 1);
      BinaryAppend(w, k - 1);
    }
  }

  /** A digit agrees with the bit at its place, unless it is free. */
  predicate DigitFits(ch: char, b: bv8, place: bv8) { ch == '?' || ((ch == '1') == (b & place != 0)) }

  function Appended(f: ElementFields, ch: char): ElementFields { Shifted(f, BinaryDigit(ch), BinaryMask(ch)) }

  function FourAppended(f: ElementFields, c0: char, c1: char, c2: char, c3: char): ElementFields {
    Appended(Appended(Appended(Appended(f, c0), c1), c2), c3)
  }

  /** Four digits appended make a nibble, and it matches a nibble exactly if each fixed digit agrees. */
  lemma FourDigits(f: ElementFields, c0: char, c1: char, c2: char, c3: char, b: bv8)
    ensures var f4 := FourAppended(f, c0, c1, c2, c3);
            && f4.value & 0xF0 == f.value * 16 && f4.mask & 0xF0 == f.mask * 16
            && f4.value & f4.mask & 0xF == f4.value & 0xF
            && ((b & f4.mask & 0xF) == f4.value & 0xF <==>
                  DigitFits(c0, b, 0x08) && DigitFits(c1, b, 0x04) && DigitFits(c2, b, 0x02) && DigitFits(c3, b, 0x01))
            && (f4.mask & 0xF == 0xF <==> c0 != '?' && c1 != '?' && c2 != '?' && c3 != '?')
  {
  }

  /** The four digits of w from k on agree with the low nibble of x. */
  predicate NibbleAgrees(w: string, k: nat, x: bv8)
    requires k + 4 <= |w|
  {
    && DigitFits(w[k], x, 0x08) && DigitFits(w[k + 1], x, 0x04)
    && DigitFits(w[k + 2], x, 0x02) && DigitFits(w[k + 3], x, 0x01)
  }

  predicate NibbleFixed(w: string, k: nat)
    requires k + 4 <= |w|
  {
    w[k] != '?' && w[k + 1] != '?' && w[k + 2] != '?' && w[k + 3] != '?'
  }

  lemma FieldsOfHalf(w: string, k: nat)
    requires k + 4 <= |w|
    ensures BinaryFields(w, k + 4) == FourAppended(BinaryFields(w, k), w[k], w[k + 1], w[k + 2], w[k + 3])
  {
    assert BinaryFields(w, k + 1) == Appended(BinaryFields(w, k), w[k]);
    assert BinaryFields(w, k + 2) == Appended(BinaryFields(w, k + 1), w[k + 1]);
    assert BinaryFields(w, k + 3) == Appended(BinaryFields(w, k + 2), w[k + 2]);
  }

  lemma HalfWord(w: string, k: nat, x: bv8)
    requires k + 4 <= |w|
    ensures var f, f4 := BinaryFields(w, k), BinaryFields(w, k + 4);
            && f4.value & 0xF0 == f.value * 16 && f4.mask & 0xF0 == f.mask * 16
            && f4.value & f4.mask & 0xF == f4.value & 0xF
            && ((x & f4.mask & 0xF) == f4.value & 0xF <==> NibbleAgrees(w, k, x))
            && (f4.mask & 0xF == 0xF <==> NibbleFixed(w, k))
  {
    FieldsOfHalf(w, k);
    FourDigits(BinaryFields(w, k), w[k], w[k + 1], w[k + 2], w[k + 3], x);
  }

  lemma HighPlaces(b: bv8)
    ensures (b >> 4) & 0x08 != 0 <==> b & 0x80 != 0
    ensures (b >> 4) & 0x04 != 0 <==> b & 0x40 != 0
    ensures (b >> 4) & 0x02 != 0 <==> b & 0x20 != 0
    ensures (b >> 4) & 0x01 != 0 <==> b & 0x10 != 0
  {
  }

  /** A byte matches exactly if its two nibbles do. */
  lemma Nibbles(f4: ElementFields, f8: ElementFields, b: bv8, high: bool, low: bool, highFixed: bool, lowFixed: bool)
    requires f4.value & 0xF0 == 0 && f4.mask & 0xF0 == 0 && f4.value & f4.mask & 0xF == f4.value & 0xF
    requires f8.value & 0xF0 == f4.value * 16 && f8.mask & 0xF0 == f4.mask * 16
    requires f8.value & f8.mask & 0xF == f8.value & 0xF
    requires ((b >> 4) & f4.mask & 0xF) == f4.value & 0xF <==> high
    requires (b & f8.mask & 0xF) == f8.value & 0xF <==> low
    requires f4.mask & 0xF == 0xF <==> highFixed
    requires f8.mask & 0xF == 0xF <==> lowFixed
    ensures Masked(f8.value, f8.mask).Matches(b) <==> high && low
    ensures Masked(f8.value, f8.mask).All() <==> highFixed && lowFixed
  {
  }

  lemma EachPlace(w: string, b: bv8)
    requires |w| == 8
    ensures WordMatches(w, b) <==>
              && DigitFits(w[0], b, 0x80) && DigitFits(w[1], b, 0x40)
              && DigitFits(w[2], b, 0x20) && DigitFits(w[3], b, 0x10)
              && DigitFits(w[4], b, 0x08) && DigitFits(w[5], b, 0x04)
              && DigitFits(w[6], b, 0x02) && DigitFits(w[7], b, 0x01)
  {
  }

  lemma EachDigit(w: string, b: bv8)
    requires |w| == 8
    ensures WordMatches(w, b) <==> NibbleAgrees(w, 0, b >> 4) && NibbleAgrees(w, 4, b)
  {
    EachPlace(w, b);
    HighPlaces(b);
  }

  lemma EachDigitFixed(w: string)
    requires |w| == 8
    ensures WordIsExact(w) <==> NibbleFixed(w, 0) && NibbleFixed(w, 4)
  {
  }

  lemma BinaryWord(w: string, b: bv8)
    requires |w| == 8
    ensures var f := BinaryFields(w, 8);
            && (Masked(f.value, f.mask).Matches(b) <==> NibbleAgrees(w, 0, b >> 4) && NibbleAgrees(w, 4, b))
            && (Masked(f.value, f.mask).All() <==> NibbleFixed(w, 0) && NibbleFixed(w, 4))
  {
    assert BinaryFields(w, 0) == Element(0, 0);
    HalfWord(w, 0, b >> 4);
    HalfWord(w, 4, b);
    Nibbles(
      BinaryFields(w, 4), BinaryFields(w, 8), b,
      NibbleAgrees(w, 0, b >> 4), NibbleAgrees(w, 4, b), NibbleFixed(w, 0), NibbleFixed(w, 4));
  }

  // ----- words and signatures

  lemma HexElement(w: string, f: ElementFields)
    requires |w| == 2
    requires var h, l := if w[0] == '?' then 0 else HexValue(w[0]), if w[1] == '?' then 0 else HexValue(w[1]);
             var m, n := if w[0] == '?' then 0 else 15, if w[1] == '?' then 0 else 15;
             h < 16 && l < 16 && f == Element(h * 16 + l, m * 16 + n)
    ensures forall b: bv8 :: Masked(f.value, f.mask).Matches(b) <==> WordMatches(w, b)
    ensures Masked(f.value, f.mask).All() <==> WordIsExact(w)
  {
  }

  lemma HexWord(w: string)
    requires |w| == 2
    ensures FieldsOf(w, 16).Some? <==> HexOrWildcard(w[0]) && HexOrWildcard(w[1])
    ensures ElementOf(w, 16).Some? ==>
              && (forall b: bv8 :: ElementOf(w, 16).value.Matches(b) <==> WordMatches(w, b))
              && (ElementOf(w, 16).value.All() <==> WordIsExact(w))
  {
    HexFields(w);
    if FieldsOf(w, 16).Some? {
      HexElement(w, FieldsOf(w, 16).value);
    }
  }

  lemma EightDigits(w: string)
    requires |w| == 8
    ensures FieldsOf(w, 2).Some? <==> forall k :: 0 <= k < 8 ==> BinaryOrWildcard(w[k])
    ensures ElementOf(w, 2).Some? ==>
              && (forall b: bv8 :: ElementOf(w, 2).value.Matches(b) <==> WordMatches(w, b))
              && (ElementOf(w, 2).value.All() <==> WordIsExact(w))
  {
    assert w[..8] == w;
    BinaryPrefix(w, 8);
    if FieldsOf(w, 2).Some? {
      forall b: bv8
        ensures ElementOf(w, 2).value.Matches(b) <==> WordMatches(w, b)
      {
        BinaryWord(w, b);
        EachDigit(w, b);
      }
      BinaryWord(w, 0);
      EachDigitFixed(w);
    }
  }

  /** A word is an element exactly if it fits the syntax, and then matches exactly the bytes that
      agree with its digits. Otherwise its length decides the error. */
  lemma WordMeaning(w: string)
    requires w != []
    ensures ElementOfWord(w).Ok? <==> WordFits(w)
    ensures ElementOfWord(w).Ok? ==>
              && (forall b: bv8 :: ElementOfWord(w).value.Matches(b) <==> WordMatches(w, b))
              && (ElementOfWord(w).value.All() <==> WordIsExact(w))
    ensures ElementOfWord(w).Err? ==>
              ElementOfWord(w).error ==
                if |w| == 1 then ExpectedWildcard
                else if |w| == 2 || |w| == 8 then ElementParseError
                else InvalidTokenLength
  {
    if |w| == 2 {
      HexWord(w);
    } else if |w| == 8 {
      EightDigits(w);
    }
  }

  /** The parser succeeds exactly on the strings whose words all fit the syntax, at least one of them
      without a wildcard, and the k-th element then matches the bytes the k-th word describes. */
  lemma ParseMeaning(str: string, out: Signature, r: Result<nat, SignatureError>)
    requires Parses(str, out, r)
    ensures var words := Tokens.WordsIn(str);
            && (r.Ok? <==> (forall k :: 0 <= k < |words| ==> WordFits(words[k]))
                           && exists k :: 0 <= k < |words| && WordIsExact(words[k]))
            && (r.Ok? ==> r.value == |out| == |words|)
            && (forall k :: 0 <= k < |out| ==> forall b: bv8 :: out[k].Matches(b) <==> WordMatches(words[k], b))
  {
    var words := Tokens.WordsIn(str);
    forall k | 0 <= k < |words|
      ensures ElementOfWord(words[k]).Ok? <==> WordFits(words[k])
      ensures k < |out| ==> (out[k].All() <==> WordIsExact(words[k]))
      ensures k < |out| ==> forall b: bv8 :: out[k].Matches(b) <==> WordMatches(words[k], b)
    {
      WordMeaning(words[k]);
      if k < |out| { assert ElementOfWord(words[k]) == Ok(out[k]); }
    }
    if Scannable(out) {
      var k :| 0 <= k < |out| && out[k].All();
      assert WordIsExact(words[k]);
    }
    if exists k :: 0 <= k < |out| && WordIsExact(words[k]) {
      var k :| 0 <= k < |out| && WordIsExact(words[k]);
      assert out[k].All();
    }
  }

  /** The first word that does not fit decides the error. If all fit, the string is empty of words or
      has no word without a wildcard. */
  lemma ParseErrors(str: string, out: Signature, r: Result<nat, SignatureError>, first: nat)
    requires Parses(str, out, r)
    requires var words := Tokens.WordsIn(str);
             first <= |words| && (forall k :: 0 <= k < first ==> WordFits(words[k]))
             && (first < |words| ==> !WordFits(words[first]))
    ensures var words := Tokens.WordsIn(str);
            && |out| == first
            && (first < |words| ==>
                  r == Err(if |words[first]| == 1 then ExpectedWildcard
                           else if |words[first]| == 2 || |words[first]| == 8 then ElementParseError
                           else InvalidTokenLength))
            && (first == |words| && words == [] ==> r == Err(EmptySignature))
            && (first == |words| > 0 && (forall k :: 0 <= k < first ==> !WordIsExact(words[k])) ==>
                  r == Err(MissingMaskedByte))
  {
    var words := Tokens.WordsIn(str);
    forall k | 0 <= k < |words|
      ensures ElementOfWord(words[k]).Ok? <==> WordFits(words[k])
    {
      WordMeaning(words[k]);
    }
    assert |out| == first;
    if first < |words| {
      WordMeaning(words[first]);
    } else {
      ParseMeaning(str, out, r);
    }
  }
}
