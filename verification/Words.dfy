/** Unsigned machine words.

    A word of width w is a natural number below 2^w. The bitwise operators of the source
    are given by recursion over binary digits; shifts to the left and rotations truncate
    to the width explicitly. Each operator comes with one lemma that says what it does to
    a single bit, and proofs elsewhere use only those lemmas.
 */
module Words {

  function Pow2(n: nat): (p: nat)
    ensures p > 0
  {
    if n == 0 then 1 else 2 * Pow2(n - 1)
  }

  /** 2^64 */
  const LIMIT64: nat := 0x1_0000_0000_0000_0000

  lemma {:induction false} Pow2Sum(a: nat, b: nat)
    ensures Pow2(a + b) == Pow2(a) * Pow2(b)
  {
    if a > 0 {
      Pow2Sum(a - 1, b);
      assert Pow2(a) * Pow2(b) == 2 * (Pow2(a - 1) * Pow2(b));
    }
  }

  /** The width of the words below LIMIT64. */
  lemma Width64() returns (w: nat)
    ensures w == 64 && Pow2(w) == LIMIT64
  {
    assert Pow2(4) == 16;
    Pow2Sum(4, 4);
    var w16, w32 := 8 + 8, 16 + 16;
    Pow2Sum(8, 8);
    Pow2Sum(w16, w16);
    Pow2Sum(w32, w32);
    w := w32 + w32;
  }

  /** Bit i of m, counted from the least significant one. */
  predicate Bit(m: nat, i: nat) {
    if i == 0 then m % 2 == 1 else Bit(m / 2, i - 1)
  }

  // ----- and, or, xor

  function And(a: nat, b: nat): (r: nat)
    ensures r <= a && r <= b
  {
    if a == 0 || b == 0 then 0
    else 2 * And(a / 2, b / 2) + if a % 2 == 1 && b % 2 == 1 then 1 else 0
  }

  function Or(a: nat, b: nat): nat {
    if a == 0 && b == 0 then 0
    else 2 * Or(a / 2, b / 2) + if a % 2 == 1 || b % 2 == 1 then 1 else 0
  }

  function Xor(a: nat, b: nat): nat
    decreases a + b
  {
    if a == 0 && b == 0 then 0
    else 2 * Xor(a / 2, b / 2) + if a % 2 != b % 2 then 1 else 0
  }

  lemma {:induction false} ZeroHasNoBits(i: nat)
    ensures !Bit(0, i)
  {
    if i > 0 { ZeroHasNoBits(i - 1); }
  }

  lemma {:induction false} AndBit(a: nat, b: nat, i: nat)
    ensures Bit(And(a, b), i) <==> Bit(a, i) && Bit(b, i)
  {
    if a == 0 || b == 0 {
      ZeroHasNoBits(i);
    } else if i > 0 {
      AndBit(a / 2, b / 2, i - 1);
    }
  }

  lemma {:induction false} OrBit(a: nat, b: nat, i: nat)
    ensures Bit(Or(a, b), i) <==> Bit(a, i) || Bit(b, i)
  {
    if a == 0 && b == 0 {
      ZeroHasNoBits(i);
    } else if i > 0 {
      OrBit(a / 2, b / 2, i - 1);
    }
  }

  lemma {:induction false} OrZero(a: nat)
    ensures Or(a, 0) == a && Or(0, a) == a
  {
    if a > 0 { OrZero(a / 2); }
  }

  lemma {:induction false} XorBit(a: nat, b: nat, i: nat)
    ensures Bit(Xor(a, b), i) <==> (Bit(a, i) != Bit(b, i))
  {
    if a == 0 && b == 0 {
      ZeroHasNoBits(i);
    } else if i > 0 {
      XorBit(a / 2, b / 2, i - 1);
    }
  }

  // ----- quotients and multiples

  lemma DivisionIsUnique(x: int, p: int, q: int, r: int)
    requires p > 0 && x == q * p + r && 0 <= r < p
    ensures x / p == q && x % p == r
  {
    var d := x / p - q;
    assert x == (x / p) * p + x % p;
    assert d * p == r - x % p;
    assert d >= 1 ==> d * p >= p;
    assert d <= -1 ==> d * p <= -p;
  }

  function Quotient(x: nat, p: nat): (q: nat)
    requires p > 0
    ensures q == x / p && x == q * p + x % p
  {
    var q := x / p;
    assert x == q * p + x % p;
    assert q <= -1 ==> q * p + p <= 0;
    q
  }

  lemma NextMultiple(p: nat, stride: nat)
    requires stride > 0 && p % stride == 0
    ensures (p + stride) % stride == 0
  {
    assert (p / stride + 1) * stride == p / stride * stride + stride;
    DivisionIsUnique(p + stride, stride, p / stride + 1, 0);
  }

  lemma NoMultipleBetween(p: nat, stride: nat, a: nat)
    requires stride > 0 && p % stride == 0 && p < a < p + stride
    ensures a % stride != 0
  {
    assert p == (p / stride) * stride;
    DivisionIsUnique(a, stride, p / stride, a - p);
  }

  // ----- shifts and truncation

  lemma HalfOfTruncated(m: nat, p: nat)
    requires p > 0
    ensures (m % (2 * p)) / 2 == (m / 2) % p
    ensures (m % (2 * p)) % 2 == m % 2
  {
    var q, r := m / (2 * p), m % (2 * p);
    assert m == 2 * (q * p) + r;
    assert m / 2 == q * p + r / 2;
    DivisionIsUnique(m / 2, p, q, r / 2);
  }

  lemma {:induction false} TruncateBit(m: nat, w: nat, i: nat)
    ensures Bit(m % Pow2(w), i) <==> i < w && Bit(m, i)
  {
    if w == 0 {
      ZeroHasNoBits(i);
    } else {
      HalfOfTruncated(m, Pow2(w - 1));
      if i > 0 { TruncateBit(m / 2, w - 1, i - 1); }
    }
  }

  /** m << k on words of width w. */
  function ShiftLeft(w: nat, m: nat, k: nat): nat { (m * Pow2(k)) % Pow2(w) }

  /** m >> k */
  function ShiftRight(m: nat, k: nat): nat { if k == 0 then m else ShiftRight(m / 2, k - 1) }

  lemma {:induction false} ScaledBit(m: nat, k: nat, i: nat)
    ensures Bit(m * Pow2(k), i) <==> i >= k && Bit(m, i - k)
  {
    if k > 0 {
      var h := m * Pow2(k - 1);
      assert m * Pow2(k) == 2 * h;
      if i > 0 { ScaledBit(m, k - 1, i - 1); }
    }
  }

  lemma ShiftLeftBit(w: nat, m: nat, k: nat, i: nat)
    ensures Bit(ShiftLeft(w, m, k), i) <==> k <= i < w && Bit(m, i - k)
  {
    TruncateBit(m * Pow2(k), w, i);
    ScaledBit(m, k, i);
  }

  lemma {:induction false} ShiftRightBit(m: nat, k: nat, i: nat)
    ensures Bit(ShiftRight(m, k), i) <==> Bit(m, i + k)
  {
    if k > 0 { ShiftRightBit(m / 2, k - 1, i); }
  }

  lemma DoubleProduct(p: nat, m: nat)
    ensures 2 * p * m == 2 * (p * m)
  {
  }

  /** Two fields side by side: a in the low w bits and m above them. */
  lemma {:induction false} FieldBit(a: nat, m: nat, w: nat, i: nat)
    requires a < Pow2(w)
    ensures Bit(a + Pow2(w) * m, i) <==> if i < w then Bit(a, i) else Bit(m, i - w)
  {
    if w > 0 {
      var h := Pow2(w - 1) * m;
      DoubleProduct(Pow2(w - 1), m);
      var f := a + Pow2(w) * m;
      assert f == a + 2 * h;
      assert f % 2 == a % 2 && f / 2 == a / 2 + h;
      if i > 0 { FieldBit(a / 2, m, w - 1, i - 1); }
    }
  }

  // ----- rotation

  /** static_cast<int>: the residue modulo 2^32 in the range of a 32-bit int. */
  function ToInt32(n: nat): (r: int)
    ensures -0x8000_0000 <= r < 0x8000_0000
  {
    (n + 0x8000_0000) % 0x1_0000_0000 - 0x8000_0000
  }

  /** The remainder of C++, which takes the sign of the dividend. */
  function TruncatedRemainder(s: int, w: nat): (r: int)
    requires w > 0
    ensures r < w && -r < w
  {
    if s >= 0 then s % w else -((-s) % w)
  }

  /** std::rotl on words of width w. A negative count rotates to the right. */
  function RotateLeft(w: nat, m: nat, s: int): nat
    requires w > 0
  {
    var r := TruncatedRemainder(s, w);
    if r == 0 then m
    else if r > 0 then Or(ShiftLeft(w, m, r), ShiftRight(m, w - r))
    else Or(ShiftRight(m, -r), ShiftLeft(w, m, w + r))
  }

  /** The places a rotation moves a bit upwards: the count modulo the width. */
  lemma UpwardTurn(s: int, w: nat)
    requires w > 0
    ensures var r := TruncatedRemainder(s, w);
            (if r >= 0 then r else w + r) == s % w
  {
    var r := TruncatedRemainder(s, w);
    if s < 0 {
      var q := (-s) / w;
      assert -s == q * w - r;
      if r == 0 {
        assert (-q) * w == -(q * w);
        DivisionIsUnique(s, w, -q, 0);
      } else {
        assert (-q - 1) * w == -(q * w) - w;
        DivisionIsUnique(s, w, -q - 1, w + r);
      }
    }
  }

  lemma RemainderShift(s: int, w: nat, i: nat)
    requires 0 <= i < w
    ensures (i - s) % w == if i >= s % w then i - s % w else i + w - s % w
  {
    var q, up := s / w, s % w;
    assert s == q * w + up;
    if i >= up {
      assert (-q) * w == -(q * w);
      DivisionIsUnique(i - s, w, -q, i - up);
    } else {
      assert (-q - 1) * w == -(q * w) - w;
      DivisionIsUnique(i - s, w, -q - 1, i + w - up);
    }
  }

  lemma {:induction false} HighBitsAreZero(m: nat, w: nat, i: nat)
    requires m < Pow2(w) && i >= w
    ensures !Bit(m, i)
  {
    if w == 0 { ZeroHasNoBits(i); } else { HighBitsAreZero(m / 2, w - 1, i - 1); }
  }

  /** Bit i of the rotated word is the bit s places below it, counted around the word. */
  lemma RotateLeftBit(w: nat, m: nat, s: int, i: nat)
    requires w > 0 && i < w && m < Pow2(w)
    ensures Bit(RotateLeft(w, m, s), i) <==> Bit(m, (i - s) % w)
  {
    var r := TruncatedRemainder(s, w);
    UpwardTurn(s, w);
    RemainderShift(s, w, i);
    var up := s % w;
    if up != 0 {
      OrBit(ShiftLeft(w, m, up), ShiftRight(m, w - up), i);
      OrBit(ShiftRight(m, w - up), ShiftLeft(w, m, up), i);
      ShiftLeftBit(w, m, up, i);
      ShiftRightBit(m, w - up, i);
      if i >= up { HighBitsAreZero(m, w, i + w - up); }
    }
  }

  /** r is m turned to the left by s places in a word of width w. */
  ghost predicate IsRotation(w: nat, m: nat, s: int, r: nat)
    requires w > 0
  {
    forall i: nat :: i < w ==> (Bit(r, i) <==> Bit(m, (i - s) % w))
  }

  lemma RotateLeftRotates(w: nat, m: nat, s: int)
    requires w > 0 && m < Pow2(w)
    ensures IsRotation(w, m, s, RotateLeft(w, m, s))
  {
    forall i: nat | i < w
      ensures Bit(RotateLeft(w, m, s), i) <==> Bit(m, (i - s) % w)
    {
      RotateLeftBit(w, m, s, i);
    }
  }

  /** Removing set bits with xor is subtraction. */
  lemma {:induction false} XorOfSubset(a: nat, b: nat)
    requires forall i: nat :: Bit(b, i) ==> Bit(a, i)
    ensures Xor(a, b) == a - b
  {
    if a != 0 || b != 0 {
      forall i: nat | Bit(b / 2, i)
        ensures Bit(a / 2, i)
      {
        assert Bit(b, i + 1);
      }
      XorOfSubset(a / 2, b / 2);
      assert Bit(b, 0) ==> Bit(a, 0);
    }
  }

  // ----- the lowest set bit

  /** tzcnt, bsf and ctz of a non-zero word. */
  function TrailingZeros(m: nat): (r: nat)
    requires m > 0
    ensures Bit(m, r)
    ensures forall i :: 0 <= i < r ==> !Bit(m, i)
  {
    if m % 2 == 1 then 0 else
    var r := 1 + TrailingZeros(m / 2);
    assert forall i :: 0 < i < r ==> Bit(m, i) == Bit(m / 2, i - 1);
    r
  }

  /** m & (m - 1), which is also blsr, clears the lowest set bit and no other. */
  lemma {:induction false} ClearLowestBit(m: nat, i: nat)
    requires m > 0
    ensures Bit(And(m, m - 1), i) <==> Bit(m, i) && i != TrailingZeros(m)
  {
    AndBit(m, m - 1, i);
    if m % 2 == 1 {
      assert (m - 1) / 2 == m / 2;
    } else {
      assert (m - 1) / 2 == m / 2 - 1;
      if i > 0 {
        ClearLowestBit(m / 2, i - 1);
        AndBit(m / 2, m / 2 - 1, i - 1);
      }
    }
  }
}
