/** The Euclidean loop of the decoder: its invariant, and why its result is the error locator and
    evaluator whenever at most half as many errors as check symbols occurred. */
module EuclideanKeySolver {
  import opened BinaryDigits
  import opened GaloisField
  import opened Polynomials
  import opened GenericGFPoly
  import opened KeyEquation
  import opened Wrappers

  datatype DecodeError =
    | EmptyWord | RemainderWasZero | DivisionFailed | SigmaTildeZero | RootCountMismatch | BadErrorLocation

  /** rem is congruent to t*s modulo x^r. */
  ghost predicate Congruent(f: GenericGF, s: Poly, t: Poly, rem: Poly, r: nat) {
    LowZero(Add(Mul(f, t, s), rem), r)
  }

  /** x^r. */
  function PowerOfX(r: nat): Poly {
    ShiftBy(UNIT, r)
  }

  /** What the loop keeps: the Bezout-like identity, both congruences, and the degree balance. */
  ghost predicate EuclidInvariant(f: GenericGF, s: Poly, r: nat, rLast: Poly, rem: Poly, tLast: Poly, t: Poly) {
    && Over(f, s) && Over(f, rLast) && Over(f, rem) && Over(f, tLast) && Over(f, t)
    && Add(Mul(f, t, rLast), Mul(f, tLast, rem)) == PowerOfX(r)
    && Congruent(f, s, t, rem, r)
    && Congruent(f, s, tLast, rLast, r)
    && |t| + |rLast| == r + 2
    && |tLast| < |t|
    && |rem| < |rLast|
    && |rLast| > r / 2
  }

  lemma EuclidStart(f: GenericGF, s: Poly, r: nat)
    requires f.Lawful() && Over(f, s) && |s| <= r
    ensures EuclidInvariant(f, s, r, PowerOfX(r), s, [], UNIT)
  {
    hide Times, Xor, GenericGF.Lawful;
    FieldFacts(f);
    ShiftByLen(f, UNIT, r);
    MulOne(f, PowerOfX(r));
    MulOne(f, s);
    AddZero(PowerOfX(r));
    AddZero(s);
  }

  /** One division step rLast == q*rem + m turns (rLast, rem, tLast, t) into (rem, m, t, q*t + tLast). */
  lemma EuclidStep(f: GenericGF, s: Poly, r: nat, rLast: Poly, rem: Poly, tLast: Poly, t: Poly, q: Poly, m: Poly)
    requires f.Lawful() && EuclidInvariant(f, s, r, rLast, rem, tLast, t)
    requires Over(f, q) && Over(f, m) && |rem| > r / 2
    requires rLast == Add(Mul(f, q, rem), m) && |m| < |rem|
    ensures EuclidInvariant(f, s, r, rem, m, t, Add(Mul(f, q, t), tLast))
  {
    hide Times, Xor, Mul, Add, GenericGF.Lawful;
    FieldFacts(f);
    var t' := Add(Mul(f, q, t), tLast);
    MulOver(f, q, t);
    AddOver(f, Mul(f, q, t), tLast);
    StepIdentity(f, rLast, rem, tLast, t, q, m);
    StepCongruence(f, s, r, rLast, rem, tLast, t, q, m);
    StepDegrees(f, r, rLast, rem, tLast, t, q, m);
  }

  lemma StepIdentity(f: GenericGF, rLast: Poly, rem: Poly, tLast: Poly, t: Poly, q: Poly, m: Poly)
    requires f.Lawful() && Over(f, rem) && Over(f, tLast) && Over(f, t) && Over(f, q) && Over(f, m)
    requires rLast == Add(Mul(f, q, rem), m)
    ensures Add(Mul(f, Add(Mul(f, q, t), tLast), rem), Mul(f, t, m)) == Add(Mul(f, t, rLast), Mul(f, tLast, rem))
  {
    hide Times, Xor, Mul, Add, GenericGF.Lawful;
    FieldFacts(f);
    var qt, qr := Mul(f, q, t), Mul(f, q, rem);
    MulOver(f, q, t);
    MulOver(f, q, rem);
    MulAddLeft(f, qt, tLast, rem);
    MulAddRight(f, t, qr, m);
    // (q*t)*rem == t*(q*rem)
    MulComm(f, q, t);
    MulAssoc(f, t, q, rem);
    var a, b, c := Mul(f, t, qr), Mul(f, tLast, rem), Mul(f, t, m);
    AddAssoc(a, b, c);
    AddComm(b, c);
    AddAssoc(a, c, b);
  }

  lemma StepCongruence(f: GenericGF, s: Poly, r: nat, rLast: Poly, rem: Poly, tLast: Poly, t: Poly, q: Poly, m: Poly)
    requires f.Lawful() && Over(f, s) && Over(f, rem) && Over(f, tLast) && Over(f, t) && Over(f, q) && Over(f, m)
    requires rLast == Add(Mul(f, q, rem), m)
    requires Congruent(f, s, t, rem, r) && Congruent(f, s, tLast, rLast, r)
    ensures Congruent(f, s, Add(Mul(f, q, t), tLast), m, r)
  {
    hide Times, Xor, Mul, Add, LowZero, GenericGF.Lawful;
    FieldFacts(f);
    var qt, qr, ts, ls := Mul(f, q, t), Mul(f, q, rem), Mul(f, t, s), Mul(f, tLast, s);
    MulOver(f, q, t);
    MulOver(f, q, rem);
    MulOver(f, t, s);
    MulOver(f, tLast, s);
    AddOver(f, ts, rem);
    AddOver(f, qr, m);
    AddOver(f, ls, rLast);
    // (q*t + tLast)*s + m == q*(t*s + rem) + (tLast*s + (q*rem + m))
    MulAddLeft(f, qt, tLast, s);
    MulAssoc(f, q, t, s);
    MulAddRight(f, q, ts, rem);
    var a := Mul(f, q, ts);
    MulOver(f, q, ts);
    Shuffle(f, a, qr, ls, m);
    LowZeroMul(f, q, Add(ts, rem), r);
    LowZeroAdd(Mul(f, q, Add(ts, rem)), Add(ls, rLast), r);
  }

  lemma Shuffle(f: GenericGF, a: Poly, b: Poly, c: Poly, d: Poly)
    requires Norm(a) && Norm(b) && Norm(c) && Norm(d)
    ensures Add(Add(a, c), d) == Add(Add(a, b), Add(c, Add(b, d)))
  {
    AddAt(a, c);
    AddAt(b, d);
    AddAt(c, d);
    hide Add;
    AddAssoc(c, b, d);
    AddComm(c, b);
    AddAssoc(b, c, d);
    AddAssoc(a, b, Add(b, Add(c, d)));
    AddCancel(b, Add(c, d));
    AddAssoc(a, c, d);
  }

  lemma StepDegrees(f: GenericGF, r: nat, rLast: Poly, rem: Poly, tLast: Poly, t: Poly, q: Poly, m: Poly)
    requires f.Lawful() && Over(f, rem) && Over(f, tLast) && Over(f, t) && Over(f, q) && Over(f, m)
    requires rLast == Add(Mul(f, q, rem), m) && |m| < |rem| < |rLast|
    requires |t| + |rLast| == r + 2 && |tLast| < |t|
    ensures var t' := Add(Mul(f, q, t), tLast); |t'| + |rem| == r + 2 && |t| < |t'|
  {
    hide Times, Xor, Mul, Add, GenericGF.Lawful;
    FieldFacts(f);
    var qr, qt := Mul(f, q, rem), Mul(f, q, t);
    MulOver(f, q, rem);
    MulOver(f, q, t);
    AddAt(qr, m);
    if q == [] {
      EmptyProduct(f, rem);
    } else {
      MulDegree(f, q, rem);
      MulDegree(f, q, t);
      AddLonger(qr, m);
      AddLonger(qt, tLast);
    }
  }

  /** Cross-multiplying two solutions of the key equation leaves a multiple of x^r. */
  lemma CrossLowZero(f: GenericGF, s: Poly, r: nat, t: Poly, rem: Poly, l: Poly, w: Poly)
    requires f.Lawful() && Over(f, s) && Over(f, t) && Over(f, rem) && Over(f, l) && Over(f, w)
    requires Congruent(f, s, t, rem, r) && LowZero(Add(Mul(f, s, l), w), r)
    ensures LowZero(Add(Mul(f, rem, l), Mul(f, t, w)), r)
  {
    hide Times, Xor, Mul, Add, LowZero, GenericGF.Lawful;
    FieldFacts(f);
    var ts, sl := Mul(f, t, s), Mul(f, s, l);
    MulOver(f, t, s);
    MulOver(f, s, l);
    AddOver(f, ts, rem);
    AddOver(f, sl, w);
    // t*(s*l + w) + l*(t*s + rem) == rem*l + t*w
    LowZeroMul(f, t, Add(sl, w), r);
    LowZeroMul(f, l, Add(ts, rem), r);
    LowZeroAdd(Mul(f, l, Add(ts, rem)), Mul(f, t, Add(sl, w)), r);
    MulAddRight(f, t, sl, w);
    MulAddRight(f, l, ts, rem);
    MulAssoc(f, t, s, l);
    MulComm(f, ts, l);
    MulComm(f, l, rem);
    var a, b, c := Mul(f, l, ts), Mul(f, rem, l), Mul(f, t, w);
    MulOver(f, l, ts);
    MulOver(f, rem, l);
    MulOver(f, t, w);
    AddComm(a, b);
    AddAssoc(b, a, Add(a, c));
    AddCancel(a, c);
  }

  /** All error values differ from zero. */
  predicate Nonzero(vs: seq<nat>) {
    forall i :: 0 <= i < |vs| ==> vs[i] != 0
  }

  lemma ShortCross(f: GenericGF, r: nat, t: Poly, rem: Poly, l: Poly, w: Poly, e: nat)
    requires f.Lawful() && Over(f, t) && Over(f, rem) && Over(f, l) && Over(f, w)
    requires |l| == e + 1 && |w| <= e <= r / 2 && |rem| <= r / 2 && |t| <= r - r / 2 + 1
    requires LowZero(Add(Mul(f, rem, l), Mul(f, t, w)), r)
    ensures Mul(f, rem, l) == Mul(f, t, w)
  {
    hide Times, Xor, Mul, Add, LowZero, GenericGF.Lawful;
    FieldFacts(f);
    var a, b := Mul(f, rem, l), Mul(f, t, w);
    MulOver(f, rem, l);
    MulOver(f, t, w);
    EmptyProduct(f, l);
    EmptyProduct(f, w);
    if rem != [] {
      MulDegree(f, rem, l);
    }
    if t != [] && w != [] {
      MulDegree(f, t, w);
    }
    AddAt(a, b);
    LowZeroShort(Add(a, b), r);
    AddEqualsZero(a, b);
  }

  /** The loop's result is a constant multiple of locator and evaluator. */
  lemma KeySolution(f: GenericGF, xs: seq<nat>, vs: seq<nat>, r: nat,
                    rLast: Poly, rem: Poly, tLast: Poly, t: Poly) returns (c0: nat)
    requires f.Lawful() && Locations(f, xs) && |xs| == |vs| && Below(f.size, vs) && Nonzero(vs)
    requires |xs| <= r / 2 && |rem| <= r / 2
    requires EuclidInvariant(f, Syndrome(f, xs, vs, r), r, rLast, rem, tLast, t)
    ensures 0 < c0 < f.size && t == Scale(f, c0, Locator(f, xs)) && rem == Scale(f, c0, Evaluator(f, xs, vs))
  {
    hide Times, Xor, Mul, Add, LowZero, Scale, GenericGF.Lawful;
    FieldFacts(f);
    var s, l, w := Syndrome(f, xs, vs, r), Locator(f, xs), Evaluator(f, xs, vs);
    LocatorShape(f, xs);
    EvaluatorShape(f, xs, vs);
    KeyEquationHolds(f, xs, vs, r);
    hide Syndrome, Evaluator;
    CrossLowZero(f, s, r, t, rem, l, w);
    ShortCross(f, r, t, rem, l, w, |xs|);
    forall i | 0 <= i < |xs| ensures Eval(f, t, f.Inverse(xs[i])) == 0 {
      RootOfT(f, xs, vs, i, t, rem);
    }
    var c := RootsDivide(f, t, xs);
    SameMultiple(f, rem, t, c, l, w);
    CrossLowZero(f, s, r, tLast, rLast, l, w);
    ConstantFactor(f, r, rLast, tLast, c, l, w);
    c0 := c[0];
    assert c == [c0];
    MulConstant(f, c0, l);
    MulConstant(f, c0, w);
  }

  /** rem*l == t*w == c*l*w, so rem == c*w. */
  lemma SameMultiple(f: GenericGF, rem: Poly, t: Poly, c: Poly, l: Poly, w: Poly)
    requires f.Lawful() && Over(f, rem) && Over(f, c) && Over(f, l) && Over(f, w) && l != []
    requires t == Mul(f, c, l) && Mul(f, rem, l) == Mul(f, t, w)
    ensures rem == Mul(f, c, w)
  {
    hide Times, Xor, Mul, GenericGF.Lawful;
    FieldFacts(f);
    MulAssoc(f, c, l, w);
    MulComm(f, rem, l);
    MulComm(f, l, w);
    MulAssoc(f, c, w, l);
    MulOver(f, c, w);
    MulComm(f, Mul(f, c, w), l);
    MulCancel(f, l, rem, Mul(f, c, w));
  }

  lemma RootOfT(f: GenericGF, xs: seq<nat>, vs: seq<nat>, i: nat, t: Poly, rem: Poly)
    requires f.Lawful() && Locations(f, xs) && |xs| == |vs| && Below(f.size, vs) && Nonzero(vs) && i < |xs|
    requires Over(f, t) && Over(f, rem)
    requires Mul(f, rem, Locator(f, xs)) == Mul(f, t, Evaluator(f, xs, vs))
    ensures Eval(f, t, f.Inverse(xs[i])) == 0
  {
    hide Times, Xor, Mul, Add, Eval, GenericGF.Lawful;
    FieldFacts(f);
    var a, l, w := f.Inverse(xs[i]), Locator(f, xs), Evaluator(f, xs, vs);
    LocatorShape(f, xs);
    EvaluatorShape(f, xs, vs);
    LocatorRoots(f, xs, xs[i]);
    hide Locator, Evaluator;
    EvalMul(f, rem, l, a);
    EvalMul(f, t, w, a);
    EvalInField(f, rem, a);
    TimesZero(f, Eval(f, rem, a));
    Forney(f, xs, vs, i);
    DenominatorInField(f, xs, i, |xs|);
    TimesInField(f, vs[i], Denominator(f, xs, a, i, |xs|));
    EvalInField(f, t, a);
    TimesInField(f, Eval(f, t, a), Eval(f, w, a));
  }

  /** The common factor divides x^r and its cofactor is a multiple of x^r, so it is a constant. */
  lemma ConstantFactor(f: GenericGF, r: nat, rLast: Poly, tLast: Poly, c: Poly, l: Poly, w: Poly)
    requires f.Lawful() && Over(f, rLast) && Over(f, tLast) && Over(f, c) && Over(f, l) && Over(f, w)
    requires Add(Mul(f, Mul(f, c, l), rLast), Mul(f, tLast, Mul(f, c, w))) == PowerOfX(r)
    requires LowZero(Add(Mul(f, rLast, l), Mul(f, tLast, w)), r)
    ensures |c| == 1 && 0 < c[0] < f.size
  {
    hide Times, Xor, Mul, Add, LowZero, GenericGF.Lawful;
    FieldFacts(f);
    var a, b := Mul(f, rLast, l), Mul(f, tLast, w);
    MulOver(f, rLast, l);
    MulOver(f, tLast, w);
    AddOver(f, a, b);
    MulComm(f, rLast, l);
    MulAssoc(f, c, l, rLast);
    // tLast*(c*w) == c*(tLast*w)
    MulAssoc(f, tLast, c, w);
    MulComm(f, tLast, c);
    MulAssoc(f, c, tLast, w);
    MulAddRight(f, c, a, b);
    ShiftByLen(f, UNIT, r);
    EmptyProduct(f, Add(a, b));
    MulOver(f, c, Add(a, b));
    if c != [] && Add(a, b) != [] {
      MulDegree(f, c, Add(a, b));
      if |Add(a, b)| <= r {
        LowZeroShort(Add(a, b), r);
      }
    }
  }

  lemma MulConstant(f: GenericGF, c: nat, p: Poly)
    requires f.Lawful() && 0 < c < f.size && Over(f, p)
    ensures Mul(f, [c], p) == Scale(f, c, p)
  {
    hide Times, Xor, GenericGF.Lawful;
    FieldFacts(f);
    assert Init([c]) == [] && Last([c]) == c;
    ScaleAt(f, c, p);
    AddZero(Scale(f, c, p));
  }
}
