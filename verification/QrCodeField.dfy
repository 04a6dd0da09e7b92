/** The field the library uses for QR codewords: 256 elements, primitive polynomial 285, base 0. */
module QrCodeField {
  import opened BinaryDigits
  import opened GaloisField
  import opened GaloisFieldTables

  /** A byte as its bits, the high one first. */
  datatype Byte = Byte(a: bool, b: bool, c: bool, d: bool, e: bool, f: bool, g: bool, h: bool)

  function One(b: bool): nat {
    if b then 1 else 0
  }

  function Push(n: nat, b: bool): nat {
    2 * n + One(b)
  }

  function Value(x: Byte): nat {
    Push(Push(Push(Push(Push(Push(Push(One(x.a), x.b), x.c), x.d), x.e), x.f), x.g), x.h)
  }

  function Of(n: nat): Byte {
    Byte(IsOdd(n / 128), IsOdd(n / 64), IsOdd(n / 32), IsOdd(n / 16), IsOdd(n / 8), IsOdd(n / 4), IsOdd(n / 2), IsOdd(n))
  }

  predicate IsOdd(n: nat) {
    n % 2 == 1
  }

  /** Multiplication by x modulo x^8 + x^4 + x^3 + x^2 + 1. */
  function TimesX(x: Byte): Byte {
    Byte(x.b, x.c, x.d, x.e != x.a, x.f != x.a, x.g != x.a, x.h, x.a)
  }

  /** The square, which is linear in the bits: bit i contributes x^(2 * i). */
  function Square(x: Byte): Byte {
    Byte(x.b, (x.b != x.c) != x.e, x.c, ((x.a != x.c) != x.d) != x.f,
         x.b != x.d, ((x.b != x.c) != x.d) != x.g, x.a, ((x.a != x.b) != x.d) != x.h)
  }

  lemma SquareTimesX(x: Byte)
    ensures Square(TimesX(x)) == TimesX(TimesX(Square(x)))
  {
  }

  lemma Popped(n: nat)
    ensures n == Push(n / 2, IsOdd(n))
  {
  }

  lemma Pushed(n: nat, b: bool)
    ensures Push(n, b) / 2 == n && IsOdd(Push(n, b)) == b
  {
  }

  lemma Halved(n: nat, m: nat)
    requires m > 0
    ensures n / m / 2 == n / (2 * m)
  {
    var q, r := n / m, n % m;
    assert n == m * q + r;
    assert n == 2 * m * (q / 2) + (m * (q % 2) + r) by {
      assert q == 2 * (q / 2) + q % 2;
      assert m * (2 * (q / 2) + q % 2) == 2 * m * (q / 2) + m * (q % 2);
    }
    DivModIs(n, 2 * m, q / 2, m * (q % 2) + r);
  }

  lemma Halvings(n: nat)
    ensures n / 2 / 2 == n / 4 && n / 4 / 2 == n / 8 && n / 8 / 2 == n / 16 && n / 16 / 2 == n / 32
    ensures n / 32 / 2 == n / 64 && n / 64 / 2 == n / 128
  {
    Halved(n, 2);
    Halved(n, 4);
    Halved(n, 8);
    Halved(n, 16);
    Halved(n, 32);
    Halved(n, 64);
  }

  lemma ValueOf(n: nat)
    requires n < 256
    ensures Value(Of(n)) == n
  {
    hide IsOdd, Push;
    Halvings(n);
    Popped(n);
    Popped(n / 2);
    Popped(n / 4);
    Popped(n / 8);
    Popped(n / 16);
    Popped(n / 32);
    Popped(n / 64);
    TopBit(n);
  }

  lemma TopBit(n: nat)
    requires n < 256
    ensures n / 128 == One(IsOdd(n / 128))
  {
  }

  lemma OfValue(x: Byte)
    ensures Of(Value(x)) == x
  {
    hide IsOdd, Push;
    var v1 := Push(One(x.a), x.b);
    var v2 := Push(v1, x.c);
    var v3 := Push(v2, x.d);
    var v4 := Push(v3, x.e);
    var v5 := Push(v4, x.f);
    var v6 := Push(v5, x.g);
    Halvings(Value(x));
    Pushed(v6, x.h);
    Pushed(v5, x.g);
    Pushed(v4, x.f);
    Pushed(v3, x.e);
    Pushed(v2, x.d);
    Pushed(v1, x.c);
    Pushed(One(x.a), x.b);
    OddOne(x.a);
  }

  lemma OddOne(b: bool)
    ensures IsOdd(One(b)) == b
  {
  }

  lemma XorBit(a: nat, x: bool, b: nat, y: bool)
    ensures Xor(Push(a, x), Push(b, y)) == Push(Xor(a, b), x != y)
  {
    hide Xor;
    XorHalf(Push(a, x), Push(b, y));
    Pushed(a, x);
    Pushed(b, y);
  }

  lemma Xor29(w: nat, e: bool, f: bool, g: bool, h: bool)
    ensures Xor(Push(Push(Push(Push(Push(w, e), f), g), h), false), 29) ==
            Push(Push(Push(Push(Push(w, !e), !f), !g), h), true)
  {
    hide Xor;
    var w1 := Push(w, e);
    var w2 := Push(w1, f);
    var w3 := Push(w2, g);
    XorBit(Push(w3, h), false, 14, true);
    XorBit(w3, h, 7, false);
    XorBit(w2, g, 3, true);
    XorBit(w1, f, 1, true);
    XorBit(w, e, 0, true);
    XorZero(w);
  }

  lemma ShiftedClear(x: Byte)
    requires !x.a
    ensures 2 * Value(x) < 256 && Value(TimesX(x)) == 2 * Value(x)
  {
  }

  lemma ShiftedSet(x: Byte)
    requires x.a
    ensures Value(x) < 256
    ensures 2 * Value(x) - 256 == Push(Push(Push(Push(Push(Low(x), x.e), x.f), x.g), x.h), false)
    ensures Value(TimesX(x)) == Push(Push(Push(Push(Push(Low(x), !x.e), !x.f), !x.g), x.h), true)
  {
  }

  function Low(x: Byte): nat {
    Push(Push(One(x.b), x.c), x.d)
  }

  /** TimesX is the doubling step of the table-building loop. */
  lemma DoubleIsTimesX(f: GenericGF, x: Byte)
    requires f.size == 256 && f.primitive == 285
    ensures Double(f, Value(x)) == Value(TimesX(x))
  {
    hide Xor, Value, TimesX, Push, Low;
    TwoPower256();
    if !x.a {
      ShiftedClear(x);
      DoubleCases(f, Value(x));
    } else {
      ShiftedSet(x);
      DoubleCases(f, Value(x));
      assert f.primitive % f.size == 29;
      Xor29(Low(x), x.e, x.f, x.g, x.h);
    }
  }

  lemma TwoPower256()
    ensures IsTwoPower(256)
  {
    TwoPower(8);
    assert Pow2(8) == 2 * Pow2(7) && Pow2(7) == 2 * Pow2(6) && Pow2(6) == 2 * Pow2(5) && Pow2(5) == 2 * Pow2(4);
  }

  lemma {:induction false} PowerIs(f: GenericGF, k: nat) returns (x: Byte)
    requires f.size == 256 && f.primitive == 285
    ensures Value(x) == Power(f, k) && Value(Square(x)) == Power(f, 2 * k)
  {
    hide Double, Value, TimesX, Square;
    StepsUnfold(f, 0);
    if k == 0 {
      x := Of(1);
      ValueOf(1);
      SquareOfOne();
    } else {
      var y := PowerIs(f, k - 1);
      x := TimesX(y);
      DoubleIsTimesX(f, y);
      StepsUnfold(f, k - 1);
      SquareTimesX(y);
      DoubleIsTimesX(f, Square(y));
      StepsUnfold(f, 2 * k - 2);
      DoubleIsTimesX(f, TimesX(Square(y)));
      StepsUnfold(f, 2 * k - 1);
    }
  }

  lemma SquareOfOne()
    ensures Square(Of(1)) == Of(1)
  {
  }

  lemma Twice(f: GenericGF, k: nat, v: nat, w: nat)
    requires f.size == 256 && f.primitive == 285 && Power(f, k) == v < 256 && w < 256 && Of(w) == Square(Of(v))
    ensures Power(f, 2 * k) == w
  {
    hide *;
    var x := PowerIs(f, k);
    OfValue(x);
    ValueOf(w);
  }

  lemma TwiceAndOne(f: GenericGF, k: nat, v: nat, w: nat)
    requires f.size == 256 && f.primitive == 285 && Power(f, k) == v < 256 && w < 256 && Of(w) == TimesX(Square(Of(v)))
    ensures Power(f, 2 * k + 1) == w
  {
    hide *;
    var x := PowerIs(f, k);
    OfValue(x);
    ValueOf(w);
    DoubleIsTimesX(f, Square(x));
    StepsUnfold(f, 2 * k);
  }

  // ---------------------------------------------------------------- the order of x

  lemma Power255(f: GenericGF)
    requires f.size == 256 && f.primitive == 285
    ensures Power(f, 15) == 38 && Power(f, 255) == 1
  {
    hide Power;
    StepsUnfold(f, 0);
    TwiceAndOne(f, 0, 1, 2);
    TwiceAndOne(f, 1, 2, 8);
    TwiceAndOne(f, 3, 8, 128);
    TwiceAndOne(f, 7, 128, 38);
    TwiceAndOne(f, 15, 38, 192);
    TwiceAndOne(f, 31, 192, 161);
    TwiceAndOne(f, 63, 161, 204);
    TwiceAndOne(f, 127, 204, 1);
  }

  lemma Power51(f: GenericGF)
    requires f.size == 256 && f.primitive == 285
    ensures Power(f, 51) == 10
  {
    hide Power;
    StepsUnfold(f, 0);
    TwiceAndOne(f, 0, 1, 2);
    TwiceAndOne(f, 1, 2, 8);
    Twice(f, 3, 8, 64);
    Twice(f, 6, 64, 205);
    TwiceAndOne(f, 12, 205, 3);
    TwiceAndOne(f, 25, 3, 10);
  }

  lemma Power85(f: GenericGF)
    requires f.size == 256 && f.primitive == 285
    ensures Power(f, 85) == 214
  {
    hide Power;
    StepsUnfold(f, 0);
    TwiceAndOne(f, 0, 1, 2);
    Twice(f, 1, 2, 4);
    TwiceAndOne(f, 2, 4, 32);
    Twice(f, 5, 32, 116);
    TwiceAndOne(f, 10, 116, 117);
    Twice(f, 21, 117, 181);
    TwiceAndOne(f, 42, 181, 214);
  }

  lemma {:induction false} PowerMultiple(f: GenericGF, k: nat, q: nat)
    requires f.size == 256 && Power(f, k) == 1
    ensures Power(f, q * k) == 1
    decreases q
  {
    hide Steps, Double;
    StepsUnfold(f, 0);
    if q > 0 {
      PowerMultiple(f, k, q - 1);
      StepsAdd(f, k, (q - 1) * k, 1);
      assert k + (q - 1) * k == q * k;
    }
  }

  /** A period gives a period that divides 255. */
  lemma PeriodDividing255(f: GenericGF, k: nat) returns (d: nat)
    requires f.size == 256 && Power(f, k) == 1 && Power(f, 255) == 1 && 0 < k < 255
    ensures 0 < d < 255 && Power(f, d) == 1 && 255 % d == 0
    decreases k
  {
    hide Steps, Double;
    if 255 % k == 0 {
      d := k;
    } else {
      var q, r := 255 / k, 255 % k;
      PowerMultiple(f, k, q);
      StepsAdd(f, r, q * k, 1);
      assert 255 == k * q + r;
      d := PeriodDividing255(f, r);
    }
  }

  lemma ProperDivisors(d: nat)
    requires 0 < d < 255 && 255 % d == 0
    ensures d in {1, 3, 5, 15, 17, 51, 85}
  {
    var q := 255 / d;
    assert d * q == 255;
    if d >= 16 {
      QuotientCases(d, q);
    }
  }

  lemma SmallQuotient(d: nat, q: nat)
    requires d * q < 256 && 16 <= d
    ensures q < 16
  {
  }

  lemma QuotientCases(d: nat, q: nat)
    requires d * q == 255 && 16 <= d < 255
    ensures d in {17, 51, 85}
  {
    SmallQuotient(d, q);
    if q == 0 {} else if q == 1 {} else if q == 2 {} else if q == 3 {} else if q == 4 {} else if q == 5 {}
    else if q == 6 {} else if q == 7 {} else if q == 8 {} else if q == 9 {} else if q == 10 {} else if q == 11 {}
    else if q == 12 {} else if q == 13 {} else if q == 14 {} else {}
  }

  lemma Order255(f: GenericGF)
    requires f.size == 256 && f.primitive == 285
    ensures HasFullOrder(f)
  {
    hide Power;
    Power255(f);
    Power51(f);
    Power85(f);
    forall k | 0 < k < 255 ensures Power(f, k) != 1 {
      if Power(f, k) == 1 {
        var d := PeriodDividing255(f, k);
        ProperDivisors(d);
        NoShortPeriod(f, d);
      }
    }
  }

  lemma NoShortPeriod(f: GenericGF, d: nat)
    requires f.size == 256 && d in {1, 3, 5, 15, 17, 51, 85}
    requires Power(f, 15) == 38 && Power(f, 51) == 10 && Power(f, 85) == 214
    ensures Power(f, d) != 1
  {
    hide Power;
    if Power(f, d) == 1 {
      PowerMultiple(f, d, if d <= 15 then 15 / d else if d == 85 then 1 else 51 / d);
    }
  }

  /** The constructor, called as the library calls it, gives a lawful field of bytes. */
  method QrCodeField256() returns (f: GenericGF)
    ensures ByteField(f) && f.generatorBase == 0 && f.primitive == 285
  {
    TwoPower256();
    f := Build(285, 256, 0);
    Order255(f);
  }
}
