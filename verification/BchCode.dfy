/** The BCH check bits of QR format and version information: long division of polynomials over
    GF(2), held in 32-bit words. Bit i of a number is the coefficient of x^i. */
module BchCode {
  import opened BinaryDigits
  import opened Wrappers

  datatype BchError = ZeroPolynomial

  const WORD: nat := 0x1_0000_0000

  // ---------------------------------------------------------------- bit lengths

  /** One more than the degree. */
  function BitLength(n: nat): nat {
    if n == 0 then 0 else 1 + BitLength(n / 2)
  }

  lemma {:induction false} LengthBound(n: nat, k: nat)
    ensures n < Pow2(k) <==> BitLength(n) <= k
    decreases k
  {
    if n > 0 && k > 0 {
      LengthBound(n / 2, k - 1);
    }
  }

  lemma {:induction false} LengthShifted(n: nat, k: nat)
    requires n > 0
    ensures n * Pow2(k) > 0 && BitLength(n * Pow2(k)) == BitLength(n) + k
    decreases k
  {
    hide Pow2, BitLength;
    if k == 0 {
      ShiftByZero(n);
    } else {
      LengthShifted(n, k - 1);
      ShiftOneMore(n, k);
      DoubledLength(n * Pow2(k - 1));
    }
  }

  lemma DoubledLength(m: nat)
    requires m > 0
    ensures BitLength(2 * m) == BitLength(m) + 1
  {
    assert 2 * m / 2 == m;
  }

  /** Equal leading bits cancel. */
  lemma {:induction false} XorLengthEqual(a: nat, b: nat)
    requires BitLength(a) == BitLength(b) > 0
    ensures BitLength(Xor(a, b)) < BitLength(a)
    decreases a
  {
    hide Xor;
    XorHalf(a, b);
    if BitLength(a) == 1 {
      XorSelf(0);
      assert a == 1 && b == 1;
      XorSelf(1);
    } else {
      XorLengthEqual(a / 2, b / 2);
    }
  }

  /** A longer operand keeps its leading bit. */
  lemma {:induction false} XorLengthLonger(a: nat, b: nat)
    requires BitLength(a) < BitLength(b)
    ensures BitLength(Xor(a, b)) == BitLength(b)
    decreases b
  {
    hide Xor;
    XorHalf(a, b);
    if a == 0 {
      XorZero(b);
    } else {
      XorLengthLonger(a / 2, b / 2);
    }
  }

  // ---------------------------------------------------------------- multiples over GF(2)

  /** The product of two polynomials over GF(2). */
  function CarrylessProduct(q: nat, e: nat): nat {
    if q == 0 then 0 else Xor(if q % 2 == 1 then e else 0, 2 * CarrylessProduct(q / 2, e))
  }

  lemma ProductUnfold(q: nat, e: nat)
    ensures CarrylessProduct(q, e) == Xor(if q % 2 == 1 then e else 0, 2 * CarrylessProduct(q / 2, e))
  {
    if q == 0 {
      XorZero(0);
    }
  }

  lemma {:induction false} ProductDistributes(p: nat, q: nat, e: nat)
    ensures CarrylessProduct(Xor(p, q), e) == Xor(CarrylessProduct(p, e), CarrylessProduct(q, e))
    decreases p + q
  {
    hide Xor;
    if p == 0 {
      XorZero(q);
      XorZero(CarrylessProduct(q, e));
    } else if q == 0 {
      XorZero(p);
      XorZero(CarrylessProduct(p, e));
    } else {
      ProductDistributes(p / 2, q / 2, e);
      ProductUnfold(p, e);
      ProductUnfold(q, e);
      ProductUnfold(Xor(p, q), e);
      XorHalf(p, q);
      hide CarrylessProduct;
      var a, b := if p % 2 == 1 then e else 0, if q % 2 == 1 then e else 0;
      XorSwap(a, 2 * CarrylessProduct(p / 2, e), b, 2 * CarrylessProduct(q / 2, e));
      XorDoubled(CarrylessProduct(p / 2, e), CarrylessProduct(q / 2, e));
      XorSelf(e);
      XorZero(e);
      XorZero(0);
    }
  }

  lemma {:induction false} ProductShift(k: nat, e: nat)
    ensures CarrylessProduct(Pow2(k), e) == e * Pow2(k)
    decreases k
  {
    hide Xor;
    ProductUnfold(Pow2(k), e);
    XorZero(e);
    if k == 0 {
      XorZero(0);
    } else {
      ProductShift(k - 1, e);
      XorZero(2 * (e * Pow2(k - 1)));
      assert 2 * Pow2(k - 1) / 2 == Pow2(k - 1) && 2 * Pow2(k - 1) % 2 == 0;
      ShiftOneMore(e, k);
    }
  }

  /** Degrees add up. */
  lemma {:induction false} ProductLength(q: nat, e: nat)
    requires q > 0 && e > 0
    ensures BitLength(CarrylessProduct(q, e)) == BitLength(q) + BitLength(e) - 1
    decreases q
  {
    hide Xor;
    if q == 1 {
      XorZero(e);
      assert CarrylessProduct(1 / 2, e) == 0;
    } else {
      ProductLength(q / 2, e);
      var m := 2 * CarrylessProduct(q / 2, e);
      assert m / 2 == CarrylessProduct(q / 2, e);
      assert BitLength(m) == BitLength(q / 2) + BitLength(e);
      XorLengthLonger(if q % 2 == 1 then e else 0, m);
    }
  }

  // ---------------------------------------------------------------- the division loop

  /** Dividing v by e over GF(2) leaves r. */
  ghost predicate IsRemainder(v: nat, e: nat, r: nat)
    requires e > 0
  {
    BitLength(r) < BitLength(e) && exists q :: Xor(v, r) == CarrylessProduct(q, e)
  }

  /** There is only one such remainder. */
  lemma RemainderUnique(v: nat, e: nat, r: nat, s: nat)
    requires e > 0 && IsRemainder(v, e, r) && IsRemainder(v, e, s)
    ensures r == s
  {
    hide Xor, CarrylessProduct, BitLength;
    var p :| Xor(v, r) == CarrylessProduct(p, e);
    var q :| Xor(v, s) == CarrylessProduct(q, e);
    ProductDistributes(p, q, e);
    XorSwap(v, r, v, s);
    XorSelf(v);
    XorZero(Xor(r, s));
    assert Xor(r, s) == CarrylessProduct(Xor(p, q), e);
    XorLengthMax(r, s);
    if Xor(p, q) != 0 {
      ProductLength(Xor(p, q), e);
      LengthPositive(Xor(p, q));
    } else {
      NoProduct(e);
      XorCancel(r, s);
      XorZero(r);
    }
  }

  lemma NoProduct(e: nat)
    ensures CarrylessProduct(0, e) == 0
  {
  }

  lemma LengthPositive(n: nat)
    ensures n > 0 <==> BitLength(n) > 0
  {
  }

  lemma XorLengthMax(a: nat, b: nat)
    ensures BitLength(Xor(a, b)) <= BitLength(a) || BitLength(Xor(a, b)) <= BitLength(b)
  {
    hide Xor, BitLength;
    XorComm(a, b);
    if BitLength(a) < BitLength(b) {
      XorLengthLonger(a, b);
    } else if BitLength(b) < BitLength(a) {
      XorLengthLonger(b, a);
    } else if BitLength(a) > 0 {
      XorLengthEqual(a, b);
    } else {
      LengthPositive(a);
      LengthPositive(b);
      XorZero(0);
    }
  }

  /** One step of the search: the top k bits of t are clear, where p is 2^k. */
  lemma SearchStep(t: nat, k: nat, p: nat, top: nat)
    requires 0 < t < top && p == Pow2(k) && top * p == WORD
    ensures t * p < WORD && BitLength(t * p) == BitLength(t) + k
  {
    hide Pow2, BitLength;
    LengthShifted(t, k);
    assert (top - t) * p > 0;
  }

  /** The bits of t from the one of weight c up. */
  function Top(t: nat, c: nat): nat
    requires c > 0
  {
    t / c
  }

  lemma TopIs(t: nat, c: nat)
    requires c > 0
    ensures Top(t, c) == 0 <==> t < c
    ensures c <= t < 2 * c ==> Top(t, c) == 1
  {
    if c <= t < 2 * c {
      DivModIs(t, c, 1, t - c);
    }
  }

  /** The library's leading-zero count: a binary search that shifts the word up as it goes. */
  method NumberOfLeadingZeros(word: nat) returns (e: nat)
    requires word < WORD
    ensures e + BitLength(word) == 32
  {
    hide Pow2, BitLength, Top;
    Powers();
    LengthPositive(word);
    if word == 0 {
      return 32;
    }
    var t := word;
    e := 1;
    TopIs(t, 0x1_0000);
    if Top(t, 0x1_0000) == 0 {
      SearchStep(t, 16, 0x1_0000, 0x1_0000);
      e, t := e + 16, t * 0x1_0000;
    }
    assert 0x1_0000 <= t < WORD;
    TopIs(t, 0x100_0000);
    if Top(t, 0x100_0000) == 0 {
      SearchStep(t, 8, 0x100, 0x100_0000);
      e, t := e + 8, t * 0x100;
    }
    assert 0x100_0000 <= t < WORD;
    TopIs(t, 0x1000_0000);
    if Top(t, 0x1000_0000) == 0 {
      SearchStep(t, 4, 0x10, 0x1000_0000);
      e, t := e + 4, t * 0x10;
    }
    assert 0x1000_0000 <= t < WORD;
    TopIs(t, 0x4000_0000);
    if Top(t, 0x4000_0000) == 0 {
      SearchStep(t, 2, 4, 0x4000_0000);
      e, t := e + 2, t * 4;
    }
    LengthBound(t, 32);
    LengthBound(t, 31);
    LengthBound(t, 30);
    TopIs(t, 0x8000_0000);
    e := e - Top(t, 0x8000_0000);
  }

  lemma Powers()
    ensures Pow2(2) == 4 && Pow2(4) == 0x10 && Pow2(8) == 0x100 && Pow2(16) == 0x1_0000
    ensures Pow2(30) == 0x4000_0000 && Pow2(31) == 0x8000_0000 && Pow2(32) == WORD
  {
    assert Pow2(2) == 4 && Pow2(4) == 0x10 && Pow2(6) == 0x40 && Pow2(8) == 0x100;
    assert Pow2(10) == 0x400 && Pow2(12) == 0x1000 && Pow2(14) == 0x4000 && Pow2(16) == 0x1_0000;
    assert Pow2(18) == 0x4_0000 && Pow2(20) == 0x10_0000 && Pow2(22) == 0x40_0000 && Pow2(24) == 0x100_0000;
    assert Pow2(26) == 0x400_0000 && Pow2(28) == 0x1000_0000 && Pow2(30) == 0x4000_0000;
  }

  method FindMSBSet(word: nat) returns (r: nat)
    requires word < WORD
    ensures r == BitLength(word)
  {
    var zeros := NumberOfLeadingZeros(word);
    return 32 - zeros;
  }

  /** A shift of a 32-bit word; bits shifted out are lost. */
  function Shifted(v: nat, k: nat): (r: nat)
    ensures r < WORD
  {
    v * Pow2(k) % WORD
  }

  /** The loop ends with the one remainder of the shifted value. */
  method CalculateBCHCode(value: nat, poly: nat) returns (r: Result<nat, BchError>)
    requires value < WORD && poly < WORD
    ensures poly == 0 <==> r == Err(ZeroPolynomial)
    ensures poly != 0 ==> r.Ok? && IsRemainder(Shifted(value, BitLength(poly) - 1), poly, r.value)
  {
    hide Xor, CarrylessProduct, BitLength, Pow2;
    if poly == 0 {
      return Err(ZeroPolynomial);
    }
    var msb := FindMSBSet(poly);
    LengthPositive(poly);
    var t: nat := Shifted(value, msb - 1);
    ghost var v, q: nat := t, 0;
    XorSelf(v);
    NoProduct(poly);
    var length := FindMSBSet(t);
    while length >= msb
      invariant t < WORD && length == BitLength(t)
      invariant Xor(v, t) == CarrylessProduct(q, poly)
      decreases length
    {
      ghost var t0 := t;
      DivisionStep(v, t, poly, q, length - msb);
      t := Xor(t, poly * Pow2(length - msb));
      q := Xor(q, Pow2(length - msb));
      StillWord(t0, t);
      length := FindMSBSet(t);
    }
    return Ok(t);
  }

  lemma StillWord(t: nat, t': nat)
    requires t < WORD && BitLength(t') < BitLength(t)
    ensures t' < WORD
  {
    hide Pow2, BitLength;
    Powers();
    LengthBound(t, 32);
    LengthBound(t', 32);
  }

  lemma DivisionStep(v: nat, t: nat, e: nat, q: nat, k: nat)
    requires e > 0 && BitLength(t) == BitLength(e) + k && Xor(v, t) == CarrylessProduct(q, e)
    ensures BitLength(Xor(t, e * Pow2(k))) < BitLength(t)
    ensures Xor(v, Xor(t, e * Pow2(k))) == CarrylessProduct(Xor(q, Pow2(k)), e)
  {
    hide Xor, CarrylessProduct, BitLength, Pow2;
    LengthShifted(e, k);
    LengthPositive(e);
    XorLengthEqual(t, e * Pow2(k));
    XorAssoc(v, t, e * Pow2(k));
    ProductShift(k, e);
    ProductDistributes(q, Pow2(k), e);
  }

  /** The value with its check bits behind it is a multiple of the generator, whenever the shift loses no bit. */
  lemma CodewordIsMultiple(value: nat, e: nat, r: nat)
    requires e > 0 && BitLength(value) + BitLength(e) <= 33
    requires IsRemainder(Shifted(value, BitLength(e) - 1), e, r)
    ensures exists q :: value * Pow2(BitLength(e) - 1) + r == CarrylessProduct(q, e)
  {
    hide Xor, CarrylessProduct, BitLength, Pow2;
    LengthPositive(e);
    var k := BitLength(e) - 1;
    NothingLost(value, k);
    LengthBound(r, k);
    XorZero(r);
    XorZero(value);
    XorJoin(k, 0, value, r, 0);
    assert Xor(value * Pow2(k), r) == value * Pow2(k) + r;
  }

  lemma NothingLost(value: nat, k: nat)
    requires BitLength(value) + k <= 32
    ensures Shifted(value, k) == value * Pow2(k)
  {
    hide BitLength, Pow2;
    Powers();
    LengthPositive(value);
    if value > 0 {
      LengthShifted(value, k);
      LengthBound(value * Pow2(k), 32);
    }
  }
}
