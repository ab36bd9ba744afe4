/** What a scan for a signature written as text finds, in terms of the text. */
module PatternStrings {
  import opened Signatures
  import opened Results
  import opened Matching
  import opened SignatureParser
  import opened SignatureGrammar
  import Tokens

  /** The memory at a lies in the span and is, byte by byte, as the words describe. */
  predicate Described(words: seq<string>, span: Span, a: nat) {
    && span.base <= a && a + |words| <= span.End()
    && forall k :: 0 <= k < |words| ==> WordMatches(words[k], span.At(a + k))
  }

  /** r is the leftmost address that the alignment allows and the words describe. */
  ghost predicate FirstDescribed(words: seq<string>, span: Span, stride: nat, r: Option<nat>)
    requires stride > 0
  {
    match r
    case None => forall a: nat :: Described(words, span, a) ==> a % stride != 0
    case Some(p) =>
      && p % stride == 0 && Described(words, span, p)
      && forall a: nat :: a < p && Described(words, span, a) ==> a % stride != 0
  }

  lemma MatchIsDescribed(str: string, sig: Signature, span: Span, a: nat)
    requires Parses(str, sig, Ok(|sig|))
    ensures MatchAt(span, sig, a) <==> Described(Tokens.WordsIn(str), span, a)
  {
    ParseMeaning(str, sig, Ok(|sig|));
    var words := Tokens.WordsIn(str);
    if span.base <= a && a + |sig| <= span.End() {
      assert forall k :: 0 <= k < |sig| ==> (sig[k].Matches(span.At(a + k)) <==> WordMatches(words[k], span.At(a + k)));
    }
  }

  /** A signature that parses meets what the scanner asks of one, and the scan for it finds the
      leftmost aligned address whose bytes agree with every digit of the text. */
  lemma ScanFindsDescribed(str: string, sig: Signature, span: Span, stride: nat, r: Option<nat>)
    requires stride > 0 && Parses(str, sig, Ok(|sig|))
    ensures Scannable(sig)
    ensures FirstHit(span, sig, stride, r) <==> FirstDescribed(Tokens.WordsIn(str), span, stride, r)
  {
    forall a: nat
      ensures Hit(span, sig, stride, a) <==> a % stride == 0 && Described(Tokens.WordsIn(str), span, a)
    {
      MatchIsDescribed(str, sig, span, a);
    }
  }
}
