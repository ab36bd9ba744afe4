/** Parsing signatures from their string form. */
module SignatureParser {
  import opened Results
  import opened Signatures
  import opened StringConversion
  import opened Tokens
  import Words

  datatype SignatureError =
    | MissingMaskedByte
    | ElementParseError
    | EmptySignature
    | ExpectedWildcard
    | InvalidTokenLength

  const UINT8 := IntType(8, false)

  // ----- one element

  /** A base as a byte. */
  function ByteOf(base: nat): bv8
    requires base == 2 || base == 16
  {
    if base == 2 then 2 else 16
  }

  /** Value and mask after one more digit. A wildcard digit adds zeros to both. */
  function AppendDigit(fields: Option<ElementFields>, ch: char, base: nat): Option<ElementFields>
    requires base == 2 || base == 16
  {
    if fields.None? then None else
    var value, mask := fields.value.value * ByteOf(base), fields.value.mask * ByteOf(base);
    if ch == '?' then Some(Element(value, mask)) else
    match DigitValue(ch, base)
    case None => None
    case Some(digit) => Some(Element(value + digit as bv8, mask + (ByteOf(base) - 1)))
  }

  function FieldsOf(s: string, base: nat): Option<ElementFields>
    requires base == 2 || base == 16
  {
    if s == [] then Some(Element(0, 0)) else AppendDigit(FieldsOf(s[..|s| - 1], base), s[|s| - 1], base)
  }

  function ElementOf(s: string, base: nat): Option<SignatureElement>
    requires base == 2 || base == 16
  {
    match FieldsOf(s, base)
    case None => None
    case Some(fields) => Some(Masked(fields.value, fields.mask))
  }

  lemma OneDigit(ch: char, base: nat)
    requires base == 2 || base == 16
    ensures Parsed(UINT8, [ch], base) == match DigitValue(ch, base) case None => Err(IllegalChar) case Some(d) => Ok(d)
  {
    var s := [ch];
    assert Digits(UINT8, s) == s;
    if DigitValue(ch, base).Some? {
      assert LegalDigits(s, base);
      assert s[..0] == [];
      assert Positional(s, base) == DigitValue(ch, base).value;
      UINT8.ConvertExact(DigitValue(ch, base).value);
      assert Words.Pow2(8) == 256;
    } else {
      assert DigitValue(s[0], base).None?;
    }
  }

  lemma {:induction false} IllegalPrefix(s: string, base: nat, k: nat)
    requires base == 2 || base == 16
    requires k <= |s| && FieldsOf(s[..k], base).None?
    ensures FieldsOf(s, base).None?
    decreases |s|
  {
    if k < |s| {
      assert s[..|s| - 1][..k] == s[..k];
      IllegalPrefix(s[..|s| - 1], base, k);
    } else {
      assert s[..k] == s;
    }
  }

  lemma AppendToFields(s: string, base: nat, k: nat)
    requires base == 2 || base == 16
    requires k < |s|
    ensures FieldsOf(s[..k + 1], base) == AppendDigit(FieldsOf(s[..k], base), s[k], base)
  {
    assert s[..k + 1][..k] == s[..k];
  }

  method ParseSignatureElement(str: string, base: nat) returns (r: Option<SignatureElement>)
    requires base == 2 || base == 16
    ensures r == ElementOf(str, base)
  {
    var value: bv8, mask: bv8 := 0, 0;
    for i := 0 to |str|
      invariant FieldsOf(str[..i], base) == Some(Element(value, mask))
    {
      var ch := str[i];
      AppendToFields(str, base, i);
      value := value * ByteOf(base);
      mask := mask * ByteOf(base);
      if ch != '?' {
        OneDigit(ch, base);
        var digit := ParseInt(UINT8, [ch], base);
        if digit.Err? {
          IllegalPrefix(str, base, i + 1);
          return None;
        }
        value := value + digit.value as bv8;
        mask := mask + (ByteOf(base) - 1);
      }
    }
    assert str[..|str|] == str;
    return Some(Masked(value, mask));
  }

  // ----- one word

  function ElementOfWord(w: string): Result<SignatureElement, SignatureError>
    requires w != []
  {
    if |w| == 1 then
      if w[0] != '?' then Err(ExpectedWildcard) else Ok(WILDCARD)
    else if |w| == 2 || |w| == 8 then
      match ElementOf(w, if |w| == 2 then 16 else 2)
      case None => Err(ElementParseError)
      case Some(e) => Ok(e)
    else
      Err(InvalidTokenLength)
  }

  // ----- a whole signature

  /** out are the elements of the leading words up to the first that is no element. */
  ghost predicate Reads(words: seq<string>, out: Signature) {
    && |out| <= |words|
    && (forall i :: 0 <= i < |words| ==> words[i] != [])
    && (forall i :: 0 <= i < |out| ==> ElementOfWord(words[i]) == Ok(out[i]))
    && (|out| < |words| ==> ElementOfWord(words[|out|]).Err?)
  }

  function Verdict(words: seq<string>, out: Signature): Result<nat, SignatureError>
    requires |out| < |words| ==> words[|out|] != []
  {
    if |out| < |words| && ElementOfWord(words[|out|]).Err? then Err(ElementOfWord(words[|out|]).error)
    else if out == [] then Err(EmptySignature)
    else if !Scannable(out) then Err(MissingMaskedByte)
    else Ok(|out|)
  }

  /** The elements written and the result returned for a string. */
  ghost predicate Parses(str: string, out: Signature, r: Result<nat, SignatureError>) {
    var words := Tokens.WordsIn(str);
    Reads(words, out) && r == Verdict(words, out)
  }

  lemma ParsesIsFunction(str: string, out: Signature, r: Result<nat, SignatureError>,
                         out': Signature, r': Result<nat, SignatureError>)
    requires Parses(str, out, r) && Parses(str, out', r')
    ensures out == out' && r == r'
  {
  }

  /** The switch on the length of a word. */
  method ParseWord(word: string) returns (r: Result<SignatureElement, SignatureError>)
    requires word != []
    ensures r == ElementOfWord(word)
  {
    if |word| == 1 {
      if word[0] != '?' {
        return Err(ExpectedWildcard);
      }
      return Ok(WILDCARD);
    } else if |word| == 2 || |word| == 8 {
      var element := ParseSignatureElement(word, if |word| == 2 then 16 else 2);
      if element.None? {
        return Err(ElementParseError);
      }
      return Ok(element.value);
    } else {
      return Err(InvalidTokenLength);
    }
  }

  /** All words below position i are read. */
  ghost predicate ReadUpTo(words: seq<string>, i: nat, out: Signature)
    requires i <= |words|
  {
    var before := NonEmpty(words[..i]);
    && NonEmpty(words) == before + NonEmpty(words[i..])
    && |out| == |before|
    && forall k :: 0 <= k < |out| ==> before[k] != [] && ElementOfWord(before[k]) == Ok(out[k])
  }

  lemma SplitAt(words: seq<string>, i: nat)
    requires i < |words|
    ensures var next := if words[i] == [] then [] else [words[i]];
            && NonEmpty(words[..i + 1]) == NonEmpty(words[..i]) + next
            && NonEmpty(words[i..]) == next + NonEmpty(words[i + 1..])
  {
    assert words[..i + 1] == words[..i] + [words[i]];
    NonEmptyOfPrefix(words[..i], words[i]);
    assert words[i..][1..] == words[i + 1..];
  }

  lemma ReadNext(words: seq<string>, i: nat, out: Signature)
    requires i < |words| && words[i] != [] && ReadUpTo(words, i, out)
    ensures ElementOfWord(words[i]).Ok? ==> ReadUpTo(words, i + 1, out + [ElementOfWord(words[i]).value])
    ensures |out| < |NonEmpty(words)| && NonEmpty(words)[|out|] == words[i]
  {
    SplitAt(words, i);
    var before, w, after := NonEmpty(words[..i]), words[i], NonEmpty(words[i + 1..]);
    assert before + ([w] + after) == (before + [w]) + after;
  }

  lemma ReadNothing(words: seq<string>, i: nat, out: Signature)
    requires i < |words| && words[i] == [] && ReadUpTo(words, i, out)
    ensures ReadUpTo(words, i + 1, out)
  {
    SplitAt(words, i);
    assert [] + NonEmpty(words[i + 1..]) == NonEmpty(words[i + 1..]);
  }

  lemma ReadUpToError(words: seq<string>, i: nat, out: Signature)
    requires i < |words| && words[i] != [] && ReadUpTo(words, i, out)
    requires ElementOfWord(words[i]).Err?
    requires forall k :: 0 <= k < |NonEmpty(words)| ==> NonEmpty(words)[k] != []
    ensures Reads(NonEmpty(words), out)
    ensures Verdict(NonEmpty(words), out) == Err(ElementOfWord(words[i]).error)
  {
  }

  lemma ReadToEnd(words: seq<string>, out: Signature)
    requires ReadUpTo(words, |words|, out)
    requires forall k :: 0 <= k < |NonEmpty(words)| ==> NonEmpty(words)[k] != []
    ensures Reads(NonEmpty(words), out) && |out| == |NonEmpty(words)|
  {
  }

  lemma ScannableAppend(sig: Signature, e: SignatureElement)
    ensures Scannable(sig + [e]) <==> Scannable(sig) || e.All()
  {
    var both := sig + [e];
    if Scannable(sig) {
      var k :| 0 <= k < |sig| && sig[k].All();
      assert both[k].All();
    }
    if e.All() { assert both[|sig|].All(); }
    if Scannable(both) {
      var k :| 0 <= k < |both| && both[k].All();
      if k < |sig| { assert sig[k].All(); }
    }
  }

  method ParseSignatureTo(str: string) returns (out: Signature, r: Result<nat, SignatureError>)
    ensures Parses(str, out, r)
    ensures |out| <= (|str| + 1) / 2
  {
    var words := Split(str);
    WordsAreWords(str);
    WordCountBound(str);
    assert words[..0] == [] && words[0..] == words;
    out := [];
    var written, containsByte := 0, false;
    for i := 0 to |words|
      invariant written == |out| <= |Tokens.WordsIn(str)|
      invariant ReadUpTo(words, i, out)
      invariant containsByte <==> Scannable(out)
    {
      var word := words[i];
      if word == [] {
        ReadNothing(words, i, out);
        continue;
      }
      var element := ParseWord(word);
      if element.Err? {
        ReadUpToError(words, i, out);
        return out, Err(element.error);
      }
      ReadNext(words, i, out);
      ScannableAppend(out, element.value);
      out := out + [element.value];
      written := written + 1;
      containsByte := containsByte || element.value.All();
    }
    ReadToEnd(words, out);
    if written == 0 {
      return out, Err(EmptySignature);
    }
    if !containsByte {
      return out, Err(MissingMaskedByte);
    }
    return out, Ok(written);
  }

  method ParseSignature(str: string) returns (r: Result<Signature, SignatureError>)
    ensures match r
            case Ok(sig) => Parses(str, sig, Ok(|sig|))
            case Err(e) => exists out: Signature :: Parses(str, out, Err(e))
  {
    var sig, result := ParseSignatureTo(str);
    if result.Ok? {
      return Ok(sig);
    }
    return Err(result.error);
  }

  /** compile_signature: the written elements go to the front of a fixed array. The precondition is
      the length the program gives the array, and no write falls outside it. */
  method CompileSignature(str: string, storage: array<SignatureElement>) returns (r: Result<nat, SignatureError>)
    requires storage.Length == |str| / 2 + 1
    modifies storage
    ensures exists out: Signature ::
              && Parses(str, out, r) && |out| <= storage.Length && storage[..|out|] == out
              && storage[|out|..] == old(storage[..])[|out|..]
  {
    var out;
    out, r := ParseSignatureTo(str);
    for i := 0 to |out|
      invariant storage[..i] == out[..i] && storage[i..] == old(storage[..])[i..]
    {
      storage[i] := out[i];
    }
    assert out[..|out|] == out;
  }
}
