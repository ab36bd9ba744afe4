/** parse_int: digits in any base up to 36, in integers of any width. */
module StringConversion {
  import opened Words
  import opened Results

  datatype ParseIntError = InvalidBase | IllegalChar

  lemma Distribute(x: int, k: int, p: int, scale: int)
    ensures (x + k * p) * scale == x * scale + (k * scale) * p
  {
  }

  /** An integral type. Arithmetic on it is computed exactly and then converted to it. */
  datatype IntType = IntType(bits: nat, signed: bool) {

    /** The value of the type congruent to x modulo 2^bits. */
    function Convert(x: int): int
      requires bits > 0
    {
      if signed then (x + Pow2(bits - 1)) % Pow2(bits) - Pow2(bits - 1) else x % Pow2(bits)
    }

    predicate Holds(x: int)
      requires bits > 0
    {
      if signed then x < Pow2(bits - 1) && -x <= Pow2(bits - 1) else 0 <= x < Pow2(bits)
    }

    lemma ConvertExact(x: int)
      requires bits > 0
      ensures Holds(Convert(x))
      ensures Convert(x) == x <==> Holds(x)
    {
      assert Pow2(bits) == 2 * Pow2(bits - 1);
      if Holds(x) {
        var shifted := if signed then x + Pow2(bits - 1) else x;
        DivisionIsUnique(shifted, Pow2(bits), 0, shifted);
      }
    }

    /** Conversion depends only on the residue modulo 2^bits. */
    lemma ConvertCongruent(x: int, k: int)
      requires bits > 0
      ensures Convert(x + k * Pow2(bits)) == Convert(x)
    {
      var p, h := Pow2(bits), if signed then Pow2(bits - 1) else 0;
      var q, r := (x + h) / p, (x + h) % p;
      assert x + h == q * p + r;
      assert (q + k) * p == q * p + k * p;
      DivisionIsUnique(x + k * p + h, p, q + k, r);
    }

    lemma ConvertDifference(x: int) returns (k: int)
      requires bits > 0
      ensures Convert(x) == x + k * Pow2(bits)
    {
      var p, h := Pow2(bits), if signed then Pow2(bits - 1) else 0;
      k := -((x + h) / p);
      assert x + h == ((x + h) / p) * p + (x + h) % p;
      assert k * p == -(((x + h) / p) * p);
    }

    /** Converting an operand first does not change a converted scaled sum. */
    lemma ConvertScaled(x: int, scale: int, d: int)
      requires bits > 0
      ensures Convert(Convert(x) * scale + d) == Convert(x * scale + d)
    {
      var k := ConvertDifference(x);
      Distribute(x, k, Pow2(bits), scale);
      ConvertCongruent(x * scale + d, k * scale);
    }
  }

  predicate ValidBase(base: nat) { 2 <= base <= 36 }

  /** The value of a character as a digit of the base. */
  function DigitValue(ch: char, base: nat): (r: Option<nat>)
    ensures ValidBase(base) && r.Some? ==> r.value < base
  {
    var digits := if base < 10 then base else 10;
    var letters := if base > 10 then base - 10 else 0;
    if '0' <= ch && ch as int < '0' as int + digits then Some(ch as int - '0' as int)
    else if 'A' <= ch && ch as int < 'A' as int + letters then Some(ch as int - 'A' as int + 10)
    else if 'a' <= ch && ch as int < 'a' as int + letters then Some(ch as int - 'a' as int + 10)
    else None
  }

  /** The digits of a base are the first ten numerals, then letters of either case, and no other
      character is one. */
  lemma DigitMeaning(ch: char, base: nat, d: nat)
    requires ValidBase(base)
    ensures DigitValue(ch, base) == Some(d) <==>
              && d < base
              && if d < 10 then ch as int == '0' as int + d
                 else ch as int - 'a' as int == d - 10 || ch as int - 'A' as int == d - 10
  {
  }

  predicate LegalDigits(s: string, base: nat) {
    forall i :: 0 <= i < |s| ==> DigitValue(s[i], base).Some?
  }

  /** The unbounded value of the digits. */
  function Positional(s: string, base: nat): nat
    requires LegalDigits(s, base)
  {
    if s == [] then 0 else Positional(s[..|s| - 1], base) * base + DigitValue(s[|s| - 1], base).value
  }

  /** A sign is read for signed types only. */
  predicate HasSign(t: IntType, s: string) {
    t.signed && s != [] && (s[0] == '+' || s[0] == '-')
  }

  function Digits(t: IntType, s: string): string { if HasSign(t, s) then s[1..] else s }

  function Sign(t: IntType, s: string): int { if HasSign(t, s) && s[0] == '-' then -1 else 1 }

  /** The result in terms of the unbounded value. */
  function Parsed(t: IntType, s: string, base: nat): Result<int, ParseIntError>
    requires t.bits > 0
  {
    if !ValidBase(base) then Err(InvalidBase)
    else if !LegalDigits(Digits(t, s), base) then Err(IllegalChar)
    else Ok(t.Convert(Sign(t, s) * Positional(Digits(t, s), base)))
  }

  lemma ConvertSum(t: IntType, x: int, d: int)
    requires t.bits > 0
    ensures t.Convert(t.Convert(x) + d) == t.Convert(x + d)
  {
    t.ConvertScaled(x, 1, d);
    assert t.Convert(x) * 1 == t.Convert(x) && x * 1 == x;
  }

  lemma OneStep(t: IntType, p: nat, base: nat, d: nat)
    requires t.bits > 0
    ensures t.Convert(t.Convert(t.Convert(p) * base) + d) == t.Convert(p * base + d)
  {
    t.ConvertScaled(p, base, 0);
    var scaled, product := t.Convert(p) * base, p * base;
    assert t.Convert(scaled) == t.Convert(product);
    ConvertSum(t, product, d);
  }

  /** The two conversions of one step add up to one conversion of the unbounded step. */
  lemma ConvertStep(t: IntType, s: string, ch: char, base: nat)
    requires t.bits > 0 && LegalDigits(s, base) && DigitValue(ch, base).Some?
    ensures LegalDigits(s + [ch], base)
    ensures t.Convert(t.Convert(t.Convert(Positional(s, base)) * base) + DigitValue(ch, base).value)
            == t.Convert(Positional(s + [ch], base))
  {
    assert (s + [ch])[..|s|] == s;
    OneStep(t, Positional(s, base), base, DigitValue(ch, base).value);
  }

  method ParseInt(t: IntType, s: string, base: nat) returns (r: Result<int, ParseIntError>)
    requires t.bits > 0
    ensures r == Parsed(t, s, base)
    ensures r == Err(InvalidBase) <==> base < 2 || base > 36
  {
    if base < 2 || base > 36 {
      return Err(InvalidBase);
    }
    var sign: int, value: int := 1, 0;
    var iter := 0;
    if t.signed {
      if iter != |s| {
        if s[iter] == '+' {
          iter := iter + 1;
        } else if s[iter] == '-' {
          sign := -1;
          iter := iter + 1;
        }
      }
    }
    ghost var start := iter;
    ghost var body := Digits(t, s);
    assert body == s[start..] && sign == Sign(t, s);
    t.ConvertExact(0);

    while iter != |s|
      invariant start <= iter <= |s|
      invariant LegalDigits(body[..iter - start], base)
      invariant value == t.Convert(Positional(body[..iter - start], base))
    {
      var ch := s[iter];
      assert body[..iter + 1 - start] == body[..iter - start] + [ch];
      value := t.Convert(value * base);
      var digit := DigitValue(ch, base);
      if digit.None? {
        assert body[iter - start] == ch;
        return Err(IllegalChar);
      }
      value := t.Convert(value + digit.value);
      ConvertStep(t, body[..iter - start], ch, base);
      iter := iter + 1;
    }
    assert body[..iter - start] == body;
    t.ConvertScaled(Positional(body, base), sign, 0);
    return Ok(t.Convert(sign * value));
  }

  // ----- signs, values and errors

  function Power(base: nat, n: nat): nat {
    if n == 0 then 1 else base * Power(base, n - 1)
  }

  lemma ShiftedSum(v: nat, power: nat, p: nat, base: nat)
    ensures (v * power + p) * base == v * (base * power) + p * base
  {
    assert (v * power) * base == v * (base * power);
  }

  /** Each digit counts as its value times the base to the number of digits behind it. */
  lemma {:induction false} LeadingDigit(ch: char, s: string, base: nat)
    requires LegalDigits([ch] + s, base)
    ensures DigitValue(ch, base).Some? && LegalDigits(s, base)
    ensures Positional([ch] + s, base) == DigitValue(ch, base).value * Power(base, |s|) + Positional(s, base)
    decreases |s|
  {
    var whole, power := [ch] + s, Power(base, |s|);
    assert whole[0] == ch && whole[1..] == s;
    forall i | 0 <= i < |s| ensures DigitValue(s[i], base).Some? { assert whole[i + 1] == s[i]; }
    if s == [] {
      assert whole[..0] == [];
    } else {
      var front, last := s[..|s| - 1], DigitValue(s[|s| - 1], base).value;
      assert whole[..|whole| - 1] == [ch] + front;
      LeadingDigit(ch, front, base);
      ShiftedSum(DigitValue(ch, base).value, Power(base, |front|), Positional(front, base), base);
    }
  }

  lemma SignsOf(t: IntType, digits: string, base: nat)
    requires t.signed && LegalDigits(digits, base)
    ensures Digits(t, digits) == Digits(t, "+" + digits) == Digits(t, "-" + digits) == digits
    ensures Sign(t, digits) == Sign(t, "+" + digits) == 1 && Sign(t, "-" + digits) == -1
  {
    assert ("+" + digits)[1..] == digits && ("-" + digits)[1..] == digits;
    if digits != [] { assert DigitValue(digits[0], base).Some?; }
  }

  lemma SignedRange(t: IntType, x: int)
    requires t.signed && t.bits > 0
    ensures var limit: int := Pow2(t.bits - 1);
            t.Convert(x) == x <==> -limit <= x < limit
  {
    t.ConvertExact(x);
  }

  /** A signed type gives the value of the digits alone and behind a plus, and the negative value behind
      a minus, exactly if that value is in the range of the type. */
  lemma SignedParse(t: IntType, digits: string, base: nat)
    requires t.signed && t.bits > 0 && 2 <= base <= 36 && LegalDigits(digits, base)
    ensures var n: int, limit := Positional(digits, base), Pow2(t.bits - 1);
            && (Parsed(t, "+" + digits, base) == Ok(n) <==> n < limit)
            && (Parsed(t, digits, base) == Ok(n) <==> n < limit)
            && (Parsed(t, "-" + digits, base) == Ok(-n) <==> n <= limit)
  {
    SignsOf(t, digits, base);
    var n: int := Positional(digits, base);
    SignedRange(t, n);
    SignedRange(t, -n);
  }

  /** An unsigned type gives the value of the digits modulo two to the width. */
  lemma UnsignedParse(t: IntType, digits: string, base: nat)
    requires !t.signed && t.bits > 0 && 2 <= base <= 36 && LegalDigits(digits, base)
    ensures Parsed(t, digits, base) == Ok(Positional(digits, base) % Pow2(t.bits))
  {
  }

  /** The base is looked at first. Then every character must be a digit, but for a sign in front of a signed type. */
  lemma ParseFails(t: IntType, s: string, base: nat)
    requires t.bits > 0
    ensures Parsed(t, s, base) == Err(InvalidBase) <==> base < 2 || base > 36
    ensures Parsed(t, s, base) == Err(IllegalChar) <==>
              && 2 <= base <= 36
              && exists i :: 0 <= i < |s| && DigitValue(s[i], base).None?
                             && !(i == 0 && t.signed && (s[0] == '+' || s[0] == '-'))
  {
    var digits := Digits(t, s);
    var first := if HasSign(t, s) then 1 else 0;
    assert forall i :: 0 <= i < |digits| ==> digits[i] == s[first + i];
    if i :| 0 <= i < |digits| && DigitValue(digits[i], base).None? {
      assert DigitValue(s[first + i], base).None?;
    }
    if i :| first <= i < |s| && DigitValue(s[i], base).None? {
      assert DigitValue(digits[i - first], base).None?;
    }
  }

  // ----- exactness

  /** The signed value of the digits. */
  function SignedValue(t: IntType, s: string, base: nat): int
    requires LegalDigits(Digits(t, s), base)
  {
    Sign(t, s) * Positional(Digits(t, s), base)
  }

  /** Legal digits give their signed value exactly if the type holds it. That includes the least value
      of a signed type, although its magnitude does not fit. */
  lemma ExactIffValueFits(t: IntType, s: string, base: nat)
    requires t.bits > 0 && ValidBase(base) && LegalDigits(Digits(t, s), base)
    ensures Parsed(t, s, base) == Ok(SignedValue(t, s, base)) <==> t.Holds(SignedValue(t, s, base))
  {
    t.ConvertExact(SignedValue(t, s, base));
  }

  lemma AtMostScaled(p: nat, base: nat)
    requires base > 0
    ensures p <= p * base
  {
  }

  lemma {:induction false} PrefixIsSmaller(s: string, base: nat, k: nat)
    requires ValidBase(base) && LegalDigits(s, base) && k < |s|
    ensures Positional(s[..k], base) <= Positional(s[..k], base) * base <= Positional(s, base)
  {
    var front := s[..|s| - 1];
    var p := Positional(front, base);
    AtMostScaled(p, base);
    if k < |front| {
      PrefixIsSmaller(front, base, k);
      assert front[..k] == s[..k];
    } else {
      assert s[..k] == front;
    }
  }

  /** Every intermediate value is at most the final one, so nothing overflows on the way if the
      magnitude fits; and then the result is the exact signed value. For signed types of 32 bits
      and more the program has no other meaning, since overflow is undefined there. */
  lemma ExactIfMagnitudeFits(t: IntType, s: string, base: nat)
    requires t.bits > 0 && ValidBase(base) && LegalDigits(Digits(t, s), base)
    requires t.Holds(Positional(Digits(t, s), base))
    ensures Parsed(t, s, base) == Ok(SignedValue(t, s, base))
    ensures forall k :: 0 <= k < |Digits(t, s)| ==>
              && t.Holds(Positional(Digits(t, s)[..k], base))
              && t.Holds(Positional(Digits(t, s)[..k], base) * base)
  {
    t.ConvertExact(SignedValue(t, s, base));
    forall k | 0 <= k < |Digits(t, s)|
      ensures t.Holds(Positional(Digits(t, s)[..k], base))
      ensures t.Holds(Positional(Digits(t, s)[..k], base) * base)
    {
      PrefixIsSmaller(Digits(t, s), base, k);
    }
  }
}
