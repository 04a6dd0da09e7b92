/** The algebra behind Reed-Solomon decoding: error locator and evaluator polynomials, the key
    equation, the uniqueness of its small solution, and the formula for the error magnitudes. */
module KeyEquation {
  import opened BinaryDigits
  import opened GaloisField
  import opened Polynomials

  /** The factor X*x + 1, whose root is the inverse of X. */
  function Factor(x: nat): Poly {
    [x, 1]
  }

  predicate Locations(f: GenericGF, xs: seq<nat>) {
    && (forall i :: 0 <= i < |xs| ==> 0 < xs[i] < f.size)
    && (forall i, j :: 0 <= i < j < |xs| ==> xs[i] != xs[j])
  }

  /** The error locator: the product of the factors of all locations. */
  function Locator(f: GenericGF, xs: seq<nat>): Poly {
    if xs == [] then UNIT else Mul(f, Factor(Last(xs)), Locator(f, Init(xs)))
  }

  /** The error evaluator: over all i, vs[i] times the factors of the other locations. */
  function Evaluator(f: GenericGF, xs: seq<nat>, vs: seq<nat>): Poly
    requires |xs| == |vs|
  {
    if xs == [] then []
    else Add(Mul(f, Factor(Last(xs)), Evaluator(f, Init(xs), Init(vs))),
             Scale(f, Last(vs), Locator(f, Init(xs))))
  }

  /** The first r terms 1 + X*x + X^2*x^2 + ... */
  function Geometric(f: GenericGF, x: nat, r: nat): Poly {
    if r == 0 then [] else Add(Shift(Scale(f, x, Geometric(f, x, r - 1))), UNIT)
  }

  /** The syndrome polynomial: the sum over all i of vs[i] times the geometric series of xs[i]. */
  function Syndrome(f: GenericGF, xs: seq<nat>, vs: seq<nat>, r: nat): Poly
    requires |xs| == |vs|
  {
    if xs == [] then []
    else Add(Syndrome(f, Init(xs), Init(vs), r), Scale(f, Last(vs), Geometric(f, Last(xs), r)))
  }

  /** The product over t < n, t != s, of 1 + xs[t]/xs[s], in the order the decoder multiplies. */
  function Denominator(f: GenericGF, xs: seq<nat>, inv: nat, s: nat, n: nat): nat
    requires n <= |xs|
  {
    if n == 0 then 1
    else if n - 1 == s then Denominator(f, xs, inv, s, n - 1)
    else Times(f, Denominator(f, xs, inv, s, n - 1), Xor(Times(f, xs[n - 1], inv), 1))
  }

  // ---------------------------------------------------------------- factors and roots

  lemma FactorOver(f: GenericGF, x: nat)
    requires f.Lawful() && 0 < x < f.size
    ensures Over(f, Factor(x))
  {
  }

  lemma EvalFactor(f: GenericGF, x: nat, a: nat)
    requires f.Lawful() && x < f.size && a < f.size
    ensures Eval(f, Factor(x), a) == Xor(Times(f, x, a), 1) < f.size
  {
    hide Times, Xor, GenericGF.Lawful;
    FieldFacts(f);
    assert Init(Factor(x)) == [x] && Last(Factor(x)) == 1;
    assert Init([x]) == [] && Last([x]) == x;
    TimesZero(f, a);
    XorZero(x);
    assert Eval(f, [x], a) == x;
    TimesComm(f, x, a);
    TimesInField(f, x, a);
    XorInField(f, Times(f, x, a), 1);
  }

  lemma XorIsZero(a: nat, b: nat)
    ensures Xor(a, b) == 0 <==> a == b
  {
    XorCancel(a, b);
    XorSelf(a);
    XorZero(a);
  }

  /** The inverse is unique, so X*x + 1 vanishes exactly at the inverse of X. */
  lemma FactorRoot(f: GenericGF, x: nat, y: nat)
    requires f.Lawful() && 0 < x < f.size && 0 < y < f.size
    ensures Eval(f, Factor(x), f.Inverse(y)) == 0 <==> x == y
  {
    hide Times, Xor, GenericGF.Lawful;
    FieldFacts(f);
    var a := f.Inverse(y);
    EvalFactor(f, x, a);
    XorIsZero(Times(f, x, a), 1);
    if Times(f, x, a) == 1 {
      TimesAssoc(f, x, a, y);
      TimesOne(f, x);
      TimesOne(f, y);
    }
  }

  /** Synthetic division by x + a. */
  function Quotient(f: GenericGF, p: Poly, a: nat): Poly {
    if p == [] then [] else Add(Shift(Quotient(f, Init(p), a)), Scale(f, Eval(f, Init(p), a), UNIT))
  }

  lemma {:induction false} Ruffini(f: GenericGF, p: Poly, a: nat)
    requires f.Lawful() && Over(f, p) && 0 < a < f.size
    ensures Over(f, Quotient(f, p, a)) && Eval(f, p, a) < f.size
    ensures p == Add(Mul(f, Quotient(f, p, a), [1, a]), Scale(f, Eval(f, p, a), UNIT))
    decreases |p|
  {
    hide Times, Xor, GenericGF.Lawful;
    FieldFacts(f);
    EvalInField(f, p, a);
    ScaleAt(f, 0, UNIT);
    ScaleOneZero(f, UNIT);
    AddZero([]);
    if p != [] {
      SplitLast(f, p);
      var i, c := Init(p), Last(p);
      var q, e := Quotient(f, i, a), Eval(f, i, a);
      var lin: Poly := [1, a];
      Ruffini(f, i, a);
      ShiftAt(f, q);
      ScaleAt(f, e, UNIT);
      AddOver(f, Shift(q), Scale(f, e, UNIT));
      RuffiniStep(f, i, c, q, e, a);
    }
  }

  lemma RuffiniStep(f: GenericGF, i: Poly, c: nat, q: Poly, e: nat, a: nat)
    requires f.Lawful() && Over(f, i) && c < f.size && Over(f, q) && e < f.size && 0 < a < f.size
    requires i == Add(Mul(f, q, [1, a]), Scale(f, e, UNIT))
    ensures var q' := Add(Shift(q), Scale(f, e, UNIT));
            Times(f, a, e) < f.size && Xor(Times(f, a, e), c) < f.size &&
            Add(Shift(i), Scale(f, c, UNIT)) == Add(Mul(f, q', [1, a]), Scale(f, Xor(Times(f, a, e), c), UNIT))
  {
    hide Times, Xor, GenericGF.Lawful;
    FieldFacts(f);
    var lin: Poly := [1, a];
    var m := Mul(f, q, lin);
    MulOver(f, q, lin);
    ScaleAt(f, e, UNIT);
    ScaleAt(f, c, UNIT);
    ShiftAt(f, q);
    ShiftAt(f, m);
    ShiftAt(f, Scale(f, e, UNIT));
    // (x*q + e) * (x + a) == x*(q*(x + a)) + e*(x + a)
    MulAddLeft(f, Shift(q), Scale(f, e, UNIT), lin);
    MulShiftLeft(f, q, lin);
    MulScaleLeft(f, e, UNIT, lin);
    MulOne(f, lin);
    // e*(x + a) == x*e + a*e
    ScaleLinear(f, e, a);
    TimesInField(f, a, e);
    ScaleXor(f, Times(f, a, e), c, UNIT);
    ScaleAt(f, Times(f, a, e), UNIT);
    // x*(m + e) + c == (x*m + (x*e + a*e)) + (a*e + c)
    ShiftAdd(f, m, Scale(f, e, UNIT));
    var xm, xe, ae, cc := Shift(m), Shift(Scale(f, e, UNIT)), Scale(f, Times(f, a, e), UNIT), Scale(f, c, UNIT);
    Regroup(xm, xe, ae, cc);
  }

  lemma Regroup(p: Poly, q: Poly, r: Poly, s: Poly)
    requires Norm(p) && Norm(q) && Norm(r) && Norm(s)
    ensures Add(Add(p, q), s) == Add(Add(p, Add(q, r)), Add(r, s))
  {
    AddAt(p, q);
    AddAssoc(p, q, r);
    AddAssoc(Add(p, q), r, Add(r, s));
    AddCancel(r, s);
  }

  lemma ScaleLinear(f: GenericGF, e: nat, a: nat)
    requires f.Lawful() && e < f.size && 0 < a < f.size
    ensures Times(f, a, e) < f.size
    ensures Scale(f, e, [1, a]) == Add(Shift(Scale(f, e, UNIT)), Scale(f, Times(f, a, e), UNIT))
  {
    hide Times, Xor, GenericGF.Lawful;
    FieldFacts(f);
    var lin: Poly := [1, a];
    SplitLast(f, lin);
    assert Init(lin) == UNIT && Last(lin) == a;
    ShiftAt(f, UNIT);
    ScaleAt(f, a, UNIT);
    ScaleAdd(f, e, Shift(UNIT), Scale(f, a, UNIT));
    ShiftScale(f, e, UNIT);
    ScaleScale(f, e, a, UNIT);
    TimesComm(f, a, e);
  }

  /** A polynomial vanishing at the inverse of X is a multiple of X*x + 1. */
  lemma FactorTheorem(f: GenericGF, p: Poly, x: nat) returns (q: Poly)
    requires f.Lawful() && Over(f, p) && 0 < x < f.size
    requires Eval(f, p, f.Inverse(x)) == 0
    ensures Over(f, q) && p == Mul(f, q, Factor(x))
  {
    hide Times, Xor, GenericGF.Lawful;
    FieldFacts(f);
    var a := f.Inverse(x);
    var lin: Poly := [1, a];
    var q0 := Quotient(f, p, a);
    Ruffini(f, p, a);
    MulOver(f, q0, lin);
    ScaleOneZero(f, UNIT);
    AddZero(Mul(f, q0, lin));
    // x + a == a * (X*x + 1)
    ScaleLinearFactor(f, x);
    MulScaleRight(f, q0, a, Factor(x));
    MulScaleLeft(f, a, q0, Factor(x));
    ScaleAt(f, a, q0);
    q := Scale(f, a, q0);
  }

  lemma ScaleLinearFactor(f: GenericGF, x: nat)
    requires f.Lawful() && 0 < x < f.size
    ensures Scale(f, f.Inverse(x), Factor(x)) == [1, f.Inverse(x)]
  {
    hide Times, Xor, GenericGF.Lawful;
    FieldFacts(f);
    var a := f.Inverse(x);
    TimesOne(f, a);
    assert RawScale(f, a, Factor(x)) == [1, a];
  }

  lemma {:induction false} LocatorShape(f: GenericGF, xs: seq<nat>)
    requires f.Lawful() && Locations(f, xs)
    ensures Over(f, Locator(f, xs)) && |Locator(f, xs)| == |xs| + 1
    ensures Last(Locator(f, xs)) == 1
  {
    hide Times, Xor, GenericGF.Lawful;
    FieldFacts(f);
    if xs != [] {
      var x, i := Last(xs), Init(xs);
      LocatorShape(f, i);
      FactorOver(f, x);
      MulOver(f, Factor(x), Locator(f, i));
      MulDegree(f, Factor(x), Locator(f, i));
      FactorMul(f, x, Locator(f, i));
      var p := Locator(f, i);
      ScaleAt(f, x, p);
      ShiftAt(f, Scale(f, x, p));
      AddAt(Shift(Scale(f, x, p)), p);
      XorZero(1);
      assert At(p, 0) == 1;
      assert At(Locator(f, xs), 0) == 1;
    }
  }

  lemma FactorMul(f: GenericGF, x: nat, p: Poly)
    requires f.Lawful() && 0 < x < f.size && Over(f, p)
    ensures Over(f, Scale(f, x, p))
    ensures Mul(f, Factor(x), p) == Add(Shift(Scale(f, x, p)), p)
  {
    hide Times, Xor, GenericGF.Lawful;
    FieldFacts(f);
    ScaleAt(f, x, p);
    assert Init(Factor(x)) == [x] && Last(Factor(x)) == 1;
    assert Init([x]) == [] && Last([x]) == x;
    AddZero(Scale(f, x, p));
    assert Mul(f, [x], p) == Scale(f, x, p);
    ScaleOneZero(f, p);
  }

  /** The roots of the locator are exactly the inverses of the locations. */
  lemma {:induction false} LocatorRoots(f: GenericGF, xs: seq<nat>, y: nat)
    requires f.Lawful() && Locations(f, xs) && 0 < y < f.size
    ensures Eval(f, Locator(f, xs), f.Inverse(y)) == 0 <==> y in xs
  {
    hide Times, Xor, GenericGF.Lawful;
    FieldFacts(f);
    var a := f.Inverse(y);
    if xs == [] {
      assert Init(UNIT) == [] && Last(UNIT) == 1;
      TimesZero(f, a);
      XorZero(1);
    } else {
      var x, i := Last(xs), Init(xs);
      LocatorRoots(f, i, y);
      LocatorShape(f, i);
      FactorOver(f, x);
      EvalMul(f, Factor(x), Locator(f, i), a);
      EvalInField(f, Factor(x), a);
      EvalInField(f, Locator(f, i), a);
      TimesInField(f, Eval(f, Factor(x), a), Eval(f, Locator(f, i), a));
      FactorRoot(f, x, y);
      assert xs == i + [x];
    }
  }

  /** A polynomial vanishing at the inverses of all locations is a multiple of the locator. */
  lemma {:induction false} RootsDivide(f: GenericGF, p: Poly, xs: seq<nat>) returns (c: Poly)
    requires f.Lawful() && Over(f, p) && Locations(f, xs)
    requires forall i :: 0 <= i < |xs| ==> Eval(f, p, f.Inverse(xs[i])) == 0
    ensures Over(f, c) && p == Mul(f, c, Locator(f, xs))
    decreases |xs|
  {
    hide Times, Xor, GenericGF.Lawful;
    FieldFacts(f);
    if xs == [] {
      c := p;
      MulOne(f, p);
    } else {
      var x, i := Last(xs), Init(xs);
      var q := FactorTheorem(f, p, x);
      FactorOver(f, x);
      forall k | 0 <= k < |i| ensures Eval(f, q, f.Inverse(i[k])) == 0 {
        var a := f.Inverse(i[k]);
        assert i[k] == xs[k];
        EvalMul(f, q, Factor(x), a);
        EvalInField(f, q, a);
        EvalInField(f, Factor(x), a);
        TimesInField(f, Eval(f, q, a), Eval(f, Factor(x), a));
        FactorRoot(f, x, i[k]);
      }
      c := RootsDivide(f, q, i);
      LocatorShape(f, i);
      MulAssoc(f, c, Locator(f, i), Factor(x));
      MulComm(f, Locator(f, i), Factor(x));
    }
  }

  // ---------------------------------------------------------------- the key equation

  lemma {:induction false} EvaluatorShape(f: GenericGF, xs: seq<nat>, vs: seq<nat>)
    requires f.Lawful() && Locations(f, xs) && |xs| == |vs| && Below(f.size, vs)
    ensures Over(f, Evaluator(f, xs, vs)) && |Evaluator(f, xs, vs)| <= |xs|
  {
    hide Times, Xor, GenericGF.Lawful;
    FieldFacts(f);
    if xs != [] {
      var x, i := Last(xs), Init(xs);
      EvaluatorShape(f, i, Init(vs));
      LocatorShape(f, i);
      FactorOver(f, x);
      var w := Evaluator(f, i, Init(vs));
      MulOver(f, Factor(x), w);
      if w != [] {
        MulDegree(f, Factor(x), w);
      }
      ScaleAt(f, Last(vs), Locator(f, i));
      AddOver(f, Mul(f, Factor(x), w), Scale(f, Last(vs), Locator(f, i)));
      AddAt(Mul(f, Factor(x), w), Scale(f, Last(vs), Locator(f, i)));
    }
  }

  /** (X*x + 1) times the first r terms of its geometric series is 1 modulo x^r. */
  lemma {:induction false} GeometricSum(f: GenericGF, x: nat, r: nat)
    requires f.Lawful() && 0 < x < f.size
    ensures Over(f, Geometric(f, x, r)) && |Geometric(f, x, r)| <= r
    ensures LowZero(Add(Mul(f, Factor(x), Geometric(f, x, r)), UNIT), r)
  {
    hide Times, Xor, Mul, GenericGF.Lawful;
    FieldFacts(f);
    if r > 0 {
      var g := Geometric(f, x, r - 1);
      GeometricSum(f, x, r - 1);
      var xg := Scale(f, x, g);
      ScaleAt(f, x, g);
      ShiftAt(f, xg);
      AddOver(f, Shift(xg), UNIT);
      AddAt(Shift(xg), UNIT);
      // (X*x + 1)*(x*X*g + 1) + 1 == x*X*((X*x + 1)*g + 1)
      GeometricStep(f, x, g);
      FactorOver(f, x);
      MulOver(f, Factor(x), g);
      AddOver(f, Mul(f, Factor(x), g), UNIT);
      LowZeroShiftScale(f, x, Add(Mul(f, Factor(x), g), UNIT), r - 1);
    }
  }

  lemma LowZeroShiftScale(f: GenericGF, c: nat, p: Poly, n: nat)
    requires f.Lawful() && c < f.size && Over(f, p) && LowZero(p, n)
    ensures LowZero(Shift(Scale(f, c, p)), n + 1)
  {
    hide Times, GenericGF.Lawful;
    FieldFacts(f);
    TimesZero(f, c);
    ScaleAt(f, c, p);
    ShiftAt(f, Scale(f, c, p));
  }

  lemma ScaleConst(f: GenericGF, x: nat)
    requires f.Lawful() && 0 < x < f.size
    ensures Scale(f, x, UNIT) == [x] && Over(f, [x])
    ensures Factor(x) == Add(Shift([x]), UNIT) && Over(f, Shift([x]))
    ensures Add(Factor(x), UNIT) == Shift([x])
  {
    hide Times, Xor, GenericGF.Lawful;
    FieldFacts(f);
    TimesOne(f, x);
    assert RawScale(f, x, UNIT) == [x];
    var l := Factor(x);
    FactorOver(f, x);
    SplitLast(f, l);
    assert Init(l) == [x] && Last(l) == 1;
    ScaleOneZero(f, UNIT);
    AddCancel(Shift([x]), UNIT);
  }

  lemma GeometricStep(f: GenericGF, x: nat, g: Poly)
    requires f.Lawful() && 0 < x < f.size && Over(f, g)
    ensures var g' := Add(Shift(Scale(f, x, g)), UNIT);
            var h := Add(Mul(f, Factor(x), g), UNIT);
            Add(Mul(f, Factor(x), g'), UNIT) == Shift(Scale(f, x, h))
  {
    hide Times, Xor, Add, Scale, Shift, GenericGF.Lawful;
    FieldFacts(f);
    var l, xg, lg := Factor(x), Scale(f, x, g), Mul(f, Factor(x), g);
    FactorOver(f, x);
    ScaleAt(f, x, g);
    ShiftAt(f, xg);
    MulOver(f, l, g);
    hide Mul, Factor;
    ScaleConst(f, x);
    // left: l*(x*X*g + 1) + 1 == x*X*(l*g) + (l + 1)
    MulAddRight(f, l, Shift(xg), UNIT);
    MulOne(f, l);
    MulShiftRight(f, l, xg);
    MulScaleRight(f, l, x, g);
    AddAssoc(Shift(Scale(f, x, lg)), l, UNIT);
    // right: x*X*(l*g + 1) == x*X*(l*g) + x*X
    ScaleAt(f, x, lg);
    ScaleAdd(f, x, lg, UNIT);
    ShiftAdd(f, Scale(f, x, lg), [x]);
  }

  lemma {:induction false} SyndromeShape(f: GenericGF, xs: seq<nat>, vs: seq<nat>, r: nat)
    requires f.Lawful() && Locations(f, xs) && |xs| == |vs| && Below(f.size, vs)
    ensures Over(f, Syndrome(f, xs, vs, r)) && |Syndrome(f, xs, vs, r)| <= r
  {
    hide Times, Xor, GenericGF.Lawful;
    FieldFacts(f);
    if xs != [] {
      SyndromeShape(f, Init(xs), Init(vs), r);
      GeometricSum(f, Last(xs), r);
      ScaleAt(f, Last(vs), Geometric(f, Last(xs), r));
      AddOver(f, Syndrome(f, Init(xs), Init(vs), r), Scale(f, Last(vs), Geometric(f, Last(xs), r)));
      AddAt(Syndrome(f, Init(xs), Init(vs), r), Scale(f, Last(vs), Geometric(f, Last(xs), r)));
    }
  }

  /** The key equation: syndrome times locator is the evaluator modulo x^r. */
  lemma {:induction false} KeyEquationHolds(f: GenericGF, xs: seq<nat>, vs: seq<nat>, r: nat)
    requires f.Lawful() && Locations(f, xs) && |xs| == |vs| && Below(f.size, vs)
    ensures LowZero(Add(Mul(f, Syndrome(f, xs, vs, r), Locator(f, xs)), Evaluator(f, xs, vs)), r)
  {
    hide Times, Xor, GenericGF.Lawful, Mul, Add, Scale, Geometric, LowZero, Factor;
    FieldFacts(f);
    if xs == [] {
      EmptyKeyEquation(f, r);
    } else {
      var x, v, i := Last(xs), Last(vs), Init(xs);
      var s, l, w, g := Syndrome(f, i, Init(vs), r), Locator(f, i), Evaluator(f, i, Init(vs)), Geometric(f, x, r);
      KeyEquationHolds(f, i, Init(vs), r);
      SyndromeShape(f, i, Init(vs), r);
      LocatorShape(f, i);
      EvaluatorShape(f, i, Init(vs));
      GeometricSum(f, x, r);
      FactorOver(f, x);
      var d := Add(Mul(f, s, l), w);
      var e := Add(Mul(f, Factor(x), g), UNIT);
      KeyEquationStep(f, Factor(x), s, l, w, g, v);
      MulOver(f, s, l);
      AddOver(f, Mul(f, s, l), w);
      MulOver(f, Factor(x), g);
      AddOver(f, Mul(f, Factor(x), g), UNIT);
      ScaleAt(f, v, l);
      LowZeroMul(f, Factor(x), d, r);
      LowZeroMul(f, Scale(f, v, l), e, r);
      LowZeroAdd(Mul(f, Factor(x), d), Mul(f, Scale(f, v, l), e), r);
    }
  }

  lemma EmptyKeyEquation(f: GenericGF, r: nat)
    ensures LowZero(Add(Mul(f, [], UNIT), []), r)
  {
    AddZero([]);
  }

  /** s*(F*l) == F*(s*l) */
  lemma FactorOut(f: GenericGF, fx: Poly, s: Poly, l: Poly)
    requires f.Lawful() && Over(f, fx) && Over(f, s) && Over(f, l)
    ensures Mul(f, s, Mul(f, fx, l)) == Mul(f, fx, Mul(f, s, l))
  {
    hide *;
    MulAssoc(f, s, fx, l);
    MulAssoc(f, fx, s, l);
    MulComm(f, s, fx);
  }

  /** (v*g)*(F*l) == (v*l)*(F*g) */
  lemma MoveFactor(f: GenericGF, fx: Poly, l: Poly, g: Poly, v: nat)
    requires f.Lawful() && Over(f, fx) && Over(f, l) && Over(f, g) && v < f.size
    ensures Mul(f, Scale(f, v, g), Mul(f, fx, l)) == Mul(f, Scale(f, v, l), Mul(f, fx, g))
  {
    hide *;
    var fl, fg := Mul(f, fx, l), Mul(f, fx, g);
    MulOver(f, fx, l);
    MulOver(f, fx, g);
    MulScaleLeft(f, v, g, fl);
    MulScaleLeft(f, v, l, fg);
    MulComm(f, l, fg);
    MulAssoc(f, fx, g, l);
    MulAssoc(f, fx, l, g);
    MulComm(f, g, l);
    MulComm(f, g, fl);
  }

  /** (s + v*g)*(F*l) + (F*w + v*l) == F*(s*l + w) + v*l*(F*g + 1) */
  lemma KeyEquationStep(f: GenericGF, fx: Poly, s: Poly, l: Poly, w: Poly, g: Poly, v: nat)
    requires f.Lawful() && Over(f, fx) && Over(f, s) && Over(f, l) && Over(f, w) && Over(f, g) && v < f.size
    ensures Add(Mul(f, Add(s, Scale(f, v, g)), Mul(f, fx, l)), Add(Mul(f, fx, w), Scale(f, v, l)))
         == Add(Mul(f, fx, Add(Mul(f, s, l), w)), Mul(f, Scale(f, v, l), Add(Mul(f, fx, g), UNIT)))
  {
    hide Times, Xor, Mul, Add, Scale, GenericGF.Lawful;
    FieldFacts(f);
    var fl, vg, vl, fg, sl := Mul(f, fx, l), Scale(f, v, g), Scale(f, v, l), Mul(f, fx, g), Mul(f, s, l);
    MulOver(f, fx, l);
    MulOver(f, fx, g);
    MulOver(f, s, l);
    ScaleAt(f, v, g);
    ScaleAt(f, v, l);
    MulAddLeft(f, s, vg, fl);
    MulAddRight(f, fx, sl, w);
    MulAddRight(f, vl, fg, UNIT);
    MulOne(f, vl);
    FactorOut(f, fx, s, l);
    MoveFactor(f, fx, l, g, v);
    AddSwap(Mul(f, s, fl), Mul(f, vg, fl), Mul(f, fx, w), vl);
  }

  // ---------------------------------------------------------------- the magnitudes

  lemma {:induction false} DenominatorPrefix(f: GenericGF, xs: seq<nat>, ys: seq<nat>, inv: nat, s: nat, n: nat)
    requires n <= |xs| && n <= |ys| && xs[..n] == ys[..n]
    ensures Denominator(f, xs, inv, s, n) == Denominator(f, ys, inv, s, n)
  {
    hide Times, Xor;
    if n > 0 {
      assert xs[..n - 1] == xs[..n][..n - 1] && ys[..n - 1] == ys[..n][..n - 1];
      assert xs[n - 1] == xs[..n][n - 1] == ys[n - 1];
      DenominatorPrefix(f, xs, ys, inv, s, n - 1);
    }
  }

  lemma {:induction false} DenominatorInField(f: GenericGF, xs: seq<nat>, s: nat, n: nat)
    requires f.Lawful() && Locations(f, xs) && s < |xs| && n <= |xs|
    ensures 0 < Denominator(f, xs, f.Inverse(xs[s]), s, n) < f.size
  {
    hide Times, Xor, GenericGF.Lawful;
    FieldFacts(f);
    if n > 0 {
      DenominatorInField(f, xs, s, n - 1);
      var inv := f.Inverse(xs[s]);
      EvalFactor(f, xs[n - 1], inv);
      FactorRoot(f, xs[n - 1], xs[s]);
      if n - 1 != s {
        TimesInField(f, Denominator(f, xs, inv, s, n - 1), Xor(Times(f, xs[n - 1], inv), 1));
      }
    }
  }

  /** At the inverse of X, the locator is the full product over all its locations. */
  lemma {:induction false} LocatorValue(f: GenericGF, xs: seq<nat>, inv: nat, s: nat)
    requires f.Lawful() && Locations(f, xs) && inv < f.size && s >= |xs|
    ensures Eval(f, Locator(f, xs), inv) == Denominator(f, xs, inv, s, |xs|)
  {
    hide Times, Xor, GenericGF.Lawful;
    FieldFacts(f);
    if xs == [] {
      assert Init(UNIT) == [] && Last(UNIT) == 1;
      TimesZero(f, inv);
      XorZero(1);
    } else {
      var x, i := Last(xs), Init(xs);
      LocatorValue(f, i, inv, s);
      LocatorShape(f, i);
      FactorOver(f, x);
      EvalMul(f, Factor(x), Locator(f, i), inv);
      EvalFactor(f, x, inv);
      EvalInField(f, Locator(f, i), inv);
      TimesComm(f, Eval(f, Factor(x), inv), Eval(f, Locator(f, i), inv));
      assert xs[..|i|] == i[..|i|];
      DenominatorPrefix(f, xs, i, inv, s, |i|);
    }
  }

  /** Forney's formula: the evaluator at the inverse of xs[s] is vs[s] times the product over the others. */
  lemma {:induction false} Forney(f: GenericGF, xs: seq<nat>, vs: seq<nat>, s: nat)
    requires f.Lawful() && Locations(f, xs) && |xs| == |vs| && Below(f.size, vs) && s < |xs|
    ensures Eval(f, Evaluator(f, xs, vs), f.Inverse(xs[s]))
         == Times(f, vs[s], Denominator(f, xs, f.Inverse(xs[s]), s, |xs|))
  {
    hide Times, Xor, GenericGF.Lawful, Eval, Evaluator, Locator, Factor;
    FieldFacts(f);
    var x, v, i, inv := Last(xs), Last(vs), Init(xs), f.Inverse(xs[s]);
    var n := |i|;
    var w, l := Evaluator(f, i, Init(vs)), Locator(f, i);
    ForneySplit(f, xs, vs, inv);
    FactorRoot(f, x, xs[s]);
    assert xs[..n] == i[..n];
    DenominatorPrefix(f, xs, i, inv, s, n);
    EvaluatorShape(f, i, Init(vs));
    EvalInField(f, w, inv);
    EvalFactor(f, x, inv);
    var ew, ef := Eval(f, w, inv), Eval(f, Factor(x), inv);
    if s == n {
      TimesZero(f, ew);
      LocatorValue(f, i, inv, s);
      XorZero(Times(f, v, Eval(f, l, inv)));
    } else {
      Forney(f, i, Init(vs), s);
      LocatorRoots(f, i, xs[s]);
      assert i[s] == xs[s];
      TimesZero(f, v);
      XorZero(Times(f, ef, ew));
      DenominatorInField(f, i, s, n);
      TimesComm(f, ef, ew);
      TimesAssoc(f, vs[s], Denominator(f, i, inv, s, n), ef);
    }
  }

  lemma ForneySplit(f: GenericGF, xs: seq<nat>, vs: seq<nat>, inv: nat)
    requires f.Lawful() && Locations(f, xs) && |xs| == |vs| && Below(f.size, vs) && xs != [] && inv < f.size
    ensures Eval(f, Evaluator(f, xs, vs), inv)
         == Xor(Times(f, Eval(f, Factor(Last(xs)), inv), Eval(f, Evaluator(f, Init(xs), Init(vs)), inv)),
                Times(f, Last(vs), Eval(f, Locator(f, Init(xs)), inv)))
  {
    hide Times, Xor, GenericGF.Lawful;
    FieldFacts(f);
    var x, v, i := Last(xs), Last(vs), Init(xs);
    var w, l := Evaluator(f, i, Init(vs)), Locator(f, i);
    EvaluatorShape(f, i, Init(vs));
    LocatorShape(f, i);
    FactorOver(f, x);
    MulOver(f, Factor(x), w);
    ScaleAt(f, v, l);
    hide Eval;
    EvalAdd(f, Mul(f, Factor(x), w), Scale(f, v, l), inv);
    EvalMul(f, Factor(x), w, inv);
    EvalScale(f, v, l, inv);
  }
}
