/** The Reed-Solomon decoder: syndromes, Euclidean loop, root search, magnitudes, correction in
    place. Decode restores every codeword damaged in at most half as many places as it has check
    symbols. */
module ReedSolomonDecoder {
  import opened BinaryDigits
  import opened GaloisField
  import opened Polynomials
  import opened GenericGFPoly
  import opened KeyEquation
  import opened EuclideanKeySolver
  import opened ReedSolomonEncoder
  import opened ReceivedWord
  import opened Wrappers

  /** The inverses of the roots of p among 1 .. m-1, in that order. */
  ghost function RootsUpTo(f: GenericGF, p: Poly, m: nat): seq<nat>
    requires f.Lawful() && m <= f.size
  {
    if m <= 1 then []
    else RootsUpTo(f, p, m - 1) + if Eval(f, p, m - 1) == 0 then [f.Inverse(m - 1)] else []
  }

  /** The magnitude formula of the decoder. */
  ghost function Magnitude(f: GenericGF, omega: Poly, xs: seq<nat>, s: nat): nat
    requires f.Lawful() && Locations(f, xs) && s < |xs|
  {
    DenominatorInField(f, xs, s, |xs|);
    var o := f.Inverse(xs[s]);
    var m := Times(f, Eval(f, omega, o), f.Inverse(Denominator(f, xs, o, s, |xs|)));
    if f.generatorBase != 0 then Times(f, m, o) else m
  }

  // ---------------------------------------------------------------- the Euclidean loop

  /** Sigma and omega solve the key equation of these errors. */
  ghost predicate Solves(f: GenericGF, s: Poly, r: nat, xs: seq<nat>, vs: seq<nat>) {
    && |xs| == |vs| && Locations(f, xs) && Below(f.size, vs) && Nonzero(vs)
    && |xs| <= r / 2 && s == Syndrome(f, xs, vs, r)
  }

  method RunEuclideanAlgorithm(f: GenericGF, a: GFPoly, b: GFPoly, r: nat)
    returns (result: Result<(GFPoly, GFPoly), DecodeError>)
    requires f.Lawful() && a.Valid(f) && b.Valid(f) && r > 0
    requires a.Value() == PowerOfX(r) && |b.Value()| <= r
    ensures r >= 2 ==> result != Err(DivisionFailed) && result != Err(RemainderWasZero)
    ensures result.Err? ==> result.error in {DivisionFailed, RemainderWasZero, SigmaTildeZero}
    ensures result.Ok? ==>
              var (sigma, omega) := result.value;
              && sigma.Valid(f) && omega.Valid(f)
              && |sigma.Value()| <= r - r / 2 + 1 && |omega.Value()| <= r / 2
              && At(sigma.Value(), 0) == 1
              && Congruent(f, b.Value(), sigma.Value(), omega.Value(), r)
    ensures forall xs, vs :: Solves(f, b.Value(), r, xs, vs) && r >= 2 ==>
              result.Ok? && result.value.0.Value() == Locator(f, xs) && result.value.1.Value() == Evaluator(f, xs, vs)
    ensures 0 < |b.Value()| <= r / 2 ==> result.Ok? && result.value.0.Value() == UNIT
  {
    hide Times, Xor, Mul, Add, Scale, Congruent, Solves, Locator, Evaluator, PowerOfX, GenericGF.Lawful;
    var hi, lo := a, b;
    ValueFacts(f, a);
    ValueFacts(f, b);
    StartLengths(f, r);
    if hi.GetDegree() < lo.GetDegree() {
      hi, lo := lo, hi;
    }
    var rLast, rem, tLast, t := hi, lo, ZERO, ONE;
    EuclidStart(f, b.Value(), r);
    while rem.GetDegree() >= r / 2
      invariant rLast.Valid(f) && rem.Valid(f) && tLast.Valid(f) && t.Valid(f)
      invariant EuclidInvariant(f, b.Value(), r, rLast.Value(), rem.Value(), tLast.Value(), t.Value())
      invariant 0 < |b.Value()| <= r / 2 ==> rem == b && t == ONE
      decreases |rLast.Value()|
    {
      var rLastLast, tLastLast := rLast, tLast;
      rLast, tLast := rem, t;
      ValueFacts(f, rLast);
      if rLast.IsZero() {
        return Err(RemainderWasZero);
      }
      var q: GFPoly;
      var inverse := f.Inverse(rLast.GetCoefficient(rLast.GetDegree()));
      q, rem := LongDivision(f, ZERO, rLastLast, rLast, inverse);
      ValueFacts(f, q);
      ValueFacts(f, rem);
      EuclidStep(f, b.Value(), r, rLastLast.Value(), rLast.Value(), tLastLast.Value(), tLast.Value(), q.Value(), rem.Value());
      var product := GenericGFPoly.Multiply(f, q, tLast);
      t := AddOrSubtract(f, product, tLastLast);
      if rem.GetDegree() >= rLast.GetDegree() {
        return Err(DivisionFailed);
      }
    }
    result := Normalise(f, t, rem, b.Value(), r, rLast.Value(), tLast.Value());
  }

  /** Divides both results by the constant term of t. */
  method Normalise(f: GenericGF, t: GFPoly, rem: GFPoly, ghost s: Poly, ghost r: nat, ghost rLast: Poly, ghost tLast: Poly)
    returns (result: Result<(GFPoly, GFPoly), DecodeError>)
    requires f.Lawful() && t.Valid(f) && rem.Valid(f) && EuclidInvariant(f, s, r, rLast, rem.Value(), tLast, t.Value())
    requires |rem.Value()| <= r / 2
    ensures result.Err? ==> result.error == SigmaTildeZero
    ensures result.Ok? ==>
              var (sigma, omega) := result.value;
              && sigma.Valid(f) && omega.Valid(f)
              && |sigma.Value()| <= r - r / 2 + 1 && |omega.Value()| <= r / 2
              && At(sigma.Value(), 0) == 1
              && Congruent(f, s, sigma.Value(), omega.Value(), r)
    ensures forall xs, vs :: Solves(f, s, r, xs, vs) && r >= 2 ==>
              result.Ok? && result.value.0.Value() == Locator(f, xs) && result.value.1.Value() == Evaluator(f, xs, vs)
    ensures t == ONE ==> result.Ok? && result.value.0.Value() == UNIT
  {
    hide Times, Xor, Mul, Add, Scale, Congruent, Solves, Locator, Evaluator, PowerOfX, GenericGF.Lawful;
    ValueFacts(f, rem);
    ValueFacts(f, t);
    var sigmaTilde0 := t.GetCoefficient(0);
    assert sigmaTilde0 == At(t.Value(), 0);
    forall xs: seq<nat>, vs: seq<nat> | Solves(f, s, r, xs, vs) && r >= 2
      ensures |xs| == |vs| && sigmaTilde0 != 0
      ensures Scale(f, f.Inverse(sigmaTilde0), t.Value()) == Locator(f, xs)
      ensures Scale(f, f.Inverse(sigmaTilde0), rem.Value()) == Evaluator(f, xs, vs)
    {
      SolvesValues(f, s, r, xs, vs);
      Normalised(f, s, r, xs, vs, rLast, rem.Value(), tLast, t.Value());
    }
    if sigmaTilde0 == 0 {
      return Err(SigmaTildeZero);
    }
    var inverse := f.Inverse(sigmaTilde0);
    NormalisedShape(f, s, r, t.Value(), rem.Value(), inverse);
    var sigma := MultiplyScalar(f, t, inverse);
    var omega := MultiplyScalar(f, rem, inverse);
    return Ok((sigma, omega));
  }

  lemma StartLengths(f: GenericGF, r: nat)
    requires f.Lawful()
    ensures |PowerOfX(r)| == r + 1
  {
    ShiftByLen(f, UNIT, r);
  }

  lemma NormalisedShape(f: GenericGF, s: Poly, r: nat, t: Poly, rem: Poly, inverse: nat)
    requires f.Lawful() && Over(f, s) && Over(f, t) && Over(f, rem) && Congruent(f, s, t, rem, r)
    requires 0 < inverse < f.size && Times(f, inverse, At(t, 0)) == 1
    ensures var sigma, omega := Scale(f, inverse, t), Scale(f, inverse, rem);
            |sigma| == |t| && |omega| == |rem| && At(sigma, 0) == 1 && Congruent(f, s, sigma, omega, r)
  {
    hide Times, Xor, Mul, Add, GenericGF.Lawful;
    FieldFacts(f);
    ScaleAt(f, inverse, t);
    ScaleAt(f, inverse, rem);
    MulOver(f, t, s);
    MulScaleLeft(f, inverse, t, s);
    ScaleAdd(f, inverse, Mul(f, t, s), rem);
    AddOver(f, Mul(f, t, s), rem);
    ScaleAt(f, inverse, Add(Mul(f, t, s), rem));
    TimesZero(f, inverse);
  }

  lemma Normalised(f: GenericGF, s: Poly, r: nat, xs: seq<nat>, vs: seq<nat>, rLast: Poly, rem: Poly, tLast: Poly, t: Poly)
    requires f.Lawful() && Solves(f, s, r, xs, vs) && |rem| <= r / 2
    requires EuclidInvariant(f, s, r, rLast, rem, tLast, t)
    ensures 0 < At(t, 0) < f.size
    ensures Scale(f, f.Inverse(At(t, 0)), t) == Locator(f, xs)
    ensures Scale(f, f.Inverse(At(t, 0)), rem) == Evaluator(f, xs, vs)
  {
    hide Times, Xor, EuclidInvariant, Scale, Locator, Evaluator, GenericGF.Lawful;
    FieldFacts(f);
    var c := KeySolution(f, xs, vs, r, rLast, rem, tLast, t);
    var l, w := Locator(f, xs), Evaluator(f, xs, vs);
    LocatorShape(f, xs);
    EvaluatorShape(f, xs, vs);
    ScaleAt(f, c, l);
    assert At(l, 0) == 1;
    TimesOne(f, c);
    var i := f.Inverse(c);
    ScaleScale(f, i, c, l);
    ScaleScale(f, i, c, w);
    ScaleOneZero(f, l);
    ScaleOneZero(f, w);
  }

  // ---------------------------------------------------------------- the root search

  lemma {:induction false} RootsUpToOk(f: GenericGF, p: Poly, m: nat)
    requires f.Lawful() && m <= f.size
    ensures Locations(f, RootsUpTo(f, p, m))
    ensures forall x :: x in RootsUpTo(f, p, m) ==> 0 < x < f.size && f.Inverse(x) < m && Eval(f, p, f.Inverse(x)) == 0
  {
    hide Times, Xor, GenericGF.Inverse, Eval, GenericGF.Lawful;
    FieldFacts(f);
    if m > 1 {
      RootsUpToOk(f, p, m - 1);
      InverseTwice(f, m - 1);
    }
  }

  /** A polynomial has no more roots than its degree. */
  lemma RootCount(f: GenericGF, p: Poly, m: nat)
    requires f.Lawful() && Over(f, p) && p != [] && m <= f.size
    ensures |RootsUpTo(f, p, m)| < |p|
  {
    hide Times, Xor, Eval, Mul, GenericGF.Lawful;
    FieldFacts(f);
    var xs := RootsUpTo(f, p, m);
    RootsUpToOk(f, p, m);
    forall i | 0 <= i < |xs| ensures Eval(f, p, f.Inverse(xs[i])) == 0 {
      assert xs[i] in xs;
    }
    var c := RootsDivide(f, p, xs);
    LocatorShape(f, xs);
    if c != [] {
      MulDegree(f, c, Locator(f, xs));
    } else {
      EmptyProduct(f, Locator(f, xs));
    }
  }

  lemma {:induction false} RootsPrefix(f: GenericGF, p: Poly, m: nat, k: nat)
    requires f.Lawful() && m <= k <= f.size
    ensures RootsUpTo(f, p, m) <= RootsUpTo(f, p, k)
    decreases k - m
  {
    hide Eval;
    if m < k {
      RootsPrefix(f, p, m, k - 1);
    }
  }

  /** The shortcut for one error: the only root of X*x + 1 is the inverse of X. */
  lemma {:induction false} SingleRoot(f: GenericGF, x: nat, m: nat)
    requires f.Lawful() && 0 < x < f.size && m <= f.size
    ensures RootsUpTo(f, Factor(x), m) == if f.Inverse(x) < m then [x] else []
  {
    hide Times, Xor, Eval, GenericGF.Inverse, GenericGF.Lawful;
    FieldFacts(f);
    InverseTwice(f, x);
    if m > 1 {
      SingleRoot(f, x, m - 1);
      InverseTwice(f, m - 1);
      FactorRoot(f, x, f.Inverse(m - 1));
    }
  }

  method FindErrorLocations(f: GenericGF, sigma: GFPoly) returns (result: Result<seq<nat>, DecodeError>)
    requires f.Lawful() && sigma.Valid(f) && At(sigma.Value(), 0) == 1
    ensures result == if |RootsUpTo(f, sigma.Value(), f.size)| == sigma.GetDegree()
                      then Ok(RootsUpTo(f, sigma.Value(), f.size)) else Err(RootCountMismatch)
  {
    hide Times, Xor, Eval;
    ValueFacts(f, sigma);
    ghost var p := sigma.Value();
    var e := sigma.GetDegree();
    if e == 1 {
      var x := sigma.GetCoefficient(1);
      assert p == Factor(x) by {
        assert p[0] == At(p, 1) && p[1] == At(p, 0);
      }
      SingleRoot(f, x, f.size);
      return Ok([x]);
    }
    var n, locs := SearchRoots(f, sigma, e);
    if n != e {
      return Err(RootCountMismatch);
    }
    assert locs[..] == locs[..n];
    return Ok(locs[..]);
  }

  /** The search loop: it stops as soon as as many roots are found as the degree allows. */
  method SearchRoots(f: GenericGF, sigma: GFPoly, e: nat) returns (n: nat, locs: array<nat>)
    requires f.Lawful() && sigma.Valid(f) && !sigma.IsZero() && e == sigma.GetDegree()
    ensures fresh(locs) && locs.Length == e && n <= e
    ensures locs[..n] == RootsUpTo(f, sigma.Value(), f.size)
  {
    hide Times, Xor, Eval, GenericGF.Lawful, RootsUpTo;
    ghost var p := sigma.Value();
    ValueFacts(f, sigma);
    locs := new nat[e];
    n := 0;
    var s := 1;
    RootsUpToUnfold(f, p, 1);
    FieldSize(f);
    while s < f.size && n < e
      invariant 1 <= s <= f.size && n <= e
      invariant locs[..n] == RootsUpTo(f, p, s)
    {
      RootsUpToUnfold(f, p, s + 1);
      var v := EvaluateAt(f, sigma, s);
      if v == 0 {
        locs[n] := f.Inverse(s);
        n := n + 1;
      }
      s := s + 1;
    }
    RootsPrefix(f, p, s, f.size);
    RootCount(f, p, f.size);
  }

  lemma FieldSize(f: GenericGF)
    requires f.Lawful()
    ensures f.size >= 2
  {
  }

  lemma RootsUpToUnfold(f: GenericGF, p: Poly, m: nat)
    requires f.Lawful() && 0 < m <= f.size
    ensures RootsUpTo(f, p, m)
         == if m == 1 then [] else RootsUpTo(f, p, m - 1) + if Eval(f, p, m - 1) == 0 then [f.Inverse(m - 1)] else []
  {
  }

  // ---------------------------------------------------------------- the magnitudes

  method FindErrorMagnitudes(f: GenericGF, omega: GFPoly, xs: seq<nat>) returns (mags: array<nat>)
    requires f.Lawful() && omega.Valid(f) && Locations(f, xs)
    ensures fresh(mags) && mags.Length == |xs|
    ensures forall s :: 0 <= s < |xs| ==> mags[s] == Magnitude(f, omega.Value(), xs, s) < f.size
  {
    hide Times, Xor, Eval, Denominator;
    mags := new nat[|xs|];
    ValueFacts(f, omega);
    for s := 0 to |xs|
      invariant forall k :: 0 <= k < s ==> mags[k] == Magnitude(f, omega.Value(), xs, k) < f.size
    {
      var inv := f.Inverse(xs[s]);
      var a := DenominatorLoop(f, xs, inv, s);
      DenominatorInField(f, xs, s, |xs|);
      var v := EvaluateAt(f, omega, inv);
      EvalInField(f, omega.Value(), inv);
      var m := f.Multiply(v, f.Inverse(a));
      if f.generatorBase != 0 {
        m := f.Multiply(m, inv);
      }
      mags[s] := m;
    }
  }

  /** The inner product loop, with its bit trick for adding one. */
  method DenominatorLoop(f: GenericGF, xs: seq<nat>, inv: nat, s: nat) returns (a: nat)
    requires f.Lawful() && Locations(f, xs) && s < |xs| && inv == f.Inverse(xs[s])
    ensures a == Denominator(f, xs, inv, s, |xs|) && 0 < a < f.size
  {
    hide Times, Xor, GenericGF.Lawful;
    FieldFacts(f);
    a := 1;
    for t := 0 to |xs|
      invariant a == Denominator(f, xs, inv, s, t) && 0 < a < f.size
    {
      DenominatorInField(f, xs, s, t + 1);
      if s != t {
        var term := f.Multiply(xs[t], inv);
        var termPlus1 := if term % 2 == 1 then term - 1 else term + 1;
        XorOne(term);
        XorInField(f, term, 1);
        a := f.Multiply(a, termPlus1);
      }
    }
  }

  /** With base 0 or 1, the formula returns the error value itself. */
  lemma MagnitudeIsError(f: GenericGF, xs: seq<nat>, ys: seq<nat>, s: nat)
    requires f.Lawful() && Locations(f, xs) && |xs| == |ys| && Below(f.size, ys) && s < |xs| && f.generatorBase <= 1
    requires Below(f.size, Weighted(f, xs, ys))
    ensures Magnitude(f, Evaluator(f, xs, Weighted(f, xs, ys)), xs, s) == ys[s]
  {
    hide Times, Xor, Eval, Denominator, Evaluator, GenericGF.Lawful;
    FieldFacts(f);
    var vs, o, x, y := Weighted(f, xs, ys), f.Inverse(xs[s]), xs[s], ys[s];
    Forney(f, xs, vs, s);
    DenominatorInField(f, xs, s, |xs|);
    var d := Denominator(f, xs, o, s, |xs|);
    TimesAssoc(f, vs[s], d, f.Inverse(d));
    TimesOne(f, vs[s]);
    TimesOne(f, y);
    TimesOne(f, x);
    assert ElemPow(f, x, 0) == 1;
    assert ElemPow(f, x, 1) == Times(f, ElemPow(f, x, 0), x);
    TimesAssoc(f, y, x, o);
  }

  // ---------------------------------------------------------------- decoding

  /** The polynomial of the syndromes of a word. */
  ghost predicate SyndromesOf(f: GenericGF, w: seq<nat>, r: nat, s: Poly) {
    && Over(f, s) && |s| <= r
    && forall k :: 0 <= k < r ==> At(s, k) == Eval(f, w, Root(f, k))
  }

  method Syndromes(f: GenericGF, w: seq<nat>, r: nat) returns (s: array<nat>, noError: bool)
    requires f.Lawful() && Below(f.size, w) && w != [] && r + f.generatorBase <= f.size
    ensures fresh(s) && s.Length == r && SyndromesOf(f, w, r, Trim(s[..])) && Below(f.size, s[..])
    ensures noError <==> IsCodeword(f, w, r)
  {
    hide Times, Xor, Eval;
    s := new nat[r](_ => 0);
    noError := true;
    ghost var value := Trim(w);
    for t := 0 to r
      invariant forall k :: 0 <= k < t ==> s[r - 1 - k] == Eval(f, w, Root(f, k)) < f.size
      invariant forall k :: 0 <= k < r - t ==> s[k] == 0
      invariant noError <==> forall k :: 0 <= k < t ==> Eval(f, w, Root(f, k)) == 0
    {
      RootOk(f, t);
      var e := EvaluateWord(f, w, f.Exp(t + f.generatorBase));
      EvalInField(f, w, Root(f, t));
      s[s.Length - 1 - t] := e;
      if e != 0 {
        noError := false;
      }
    }
    SyndromeBuffer(f, w, r, s[..]);
  }

  lemma SyndromeBuffer(f: GenericGF, w: seq<nat>, r: nat, s: seq<nat>)
    requires f.Lawful() && |s| == r
    requires forall k :: 0 <= k < r ==> s[r - 1 - k] == Eval(f, w, Root(f, k)) < f.size
    ensures Below(f.size, s) && SyndromesOf(f, w, r, Trim(s))
  {
    forall k | 0 <= k < r ensures s[k] < f.size {
      var j := r - 1 - k;
      assert s[r - 1 - j] == Eval(f, w, Root(f, j));
    }
    TrimAt(s);
    forall k | 0 <= k < r ensures At(Trim(s), k) == Eval(f, w, Root(f, k)) {
      assert At(s, k) == s[r - 1 - k];
    }
  }

  /** The received array is wrapped in a polynomial before it is evaluated. */
  method EvaluateWord(f: GenericGF, w: seq<nat>, a: nat) returns (r: nat)
    requires f.Lawful() && Below(f.size, w) && w != [] && a < f.size
    ensures r == Eval(f, w, a)
  {
    var o := GenericGFPoly.New(f, w);
    EvalTrim(f, w, a);
    r := EvaluateAt(f, o.value, a);
  }

  /** Within half the number of check symbols, the syndromes are those of the damage. */
  lemma DamageSolves(f: GenericGF, c: seq<nat>, w: seq<nat>, r: nat, s: Poly)
    requires f.Lawful() && |c| == |w| < f.size && IsCodeword(f, c, r) && Below(f.size, w)
    requires Distance(c, w) <= r / 2 && SyndromesOf(f, w, r, s)
    ensures var xs, ys := ErrorLocations(f, c, w, f.size), Magnitudes(f, c, w);
            Solves(f, s, r, xs, Weighted(f, xs, ys))
  {
    hide Times, Xor, Eval, Root, Correct, ErrorLocations, Syndrome, PowerSum, GenericGF.Lawful;
    FieldFacts(f);
    var xs, ys := ErrorLocations(f, c, w, f.size), Magnitudes(f, c, w);
    var vs := Weighted(f, xs, ys);
    DamageFacts(f, c, w);
    ErrorCount(f, c, w);
    CorrectRestores(f, c, w);
    forall i | 0 <= i < |xs| ensures 0 < vs[i] < f.size {
      XorIsZero(c[Position(f, |c|, xs[i])], w[Position(f, |c|, xs[i])]);
      ElemPowInField(f, xs[i], f.generatorBase);
      TimesInField(f, ys[i], ElemPow(f, xs[i], f.generatorBase));
    }
    SyndromeShape(f, xs, vs, r);
    assert xs[..|xs|] == xs && vs[..|xs|] == vs;
    forall k: nat ensures At(s, k) == At(Syndrome(f, xs, vs, r), k) {
      if k < r {
        EvalDamaged(f, c, xs, ys, |xs|, k);
        XorZero(PowerSum(f, xs, vs, k));
        SyndromeAt(f, xs, vs, r, k);
      }
    }
    Ext(s, Syndrome(f, xs, vs, r));
  }

  /** A codeword near a codeword is that codeword. */
  lemma NearCodewords(f: GenericGF, c: seq<nat>, w: seq<nat>, r: nat)
    requires f.Lawful() && |c| == |w| < f.size && IsCodeword(f, c, r) && IsCodeword(f, w, r)
    requires Distance(c, w) <= r / 2
    ensures c == w
  {
    hide Times, Xor, Eval, Root, Correct, ErrorLocations, Syndrome, Locator, Evaluator, Mul, Add, GenericGF.Lawful;
    FieldFacts(f);
    var xs, ys := ErrorLocations(f, c, w, f.size), Magnitudes(f, c, w);
    var vs := Weighted(f, xs, ys);
    assert SyndromesOf(f, w, r, []);
    DamageSolves(f, c, w, r, []);
    CorrectRestores(f, c, w);
    if xs != [] {
      KeyEquationHolds(f, xs, vs, r);
      LocatorShape(f, xs);
      EvaluatorShape(f, xs, vs);
      EmptyProduct(f, Locator(f, xs));
      AddZero(Evaluator(f, xs, vs));
      LowZeroShort(Evaluator(f, xs, vs), r);
      Forney(f, xs, vs, 0);
      DenominatorInField(f, xs, 0, |xs|);
      EvalEmpty(f, f.Inverse(xs[0]));
      TimesInField(f, vs[0], Denominator(f, xs, f.Inverse(xs[0]), 0, |xs|));
    } else {
      CorrectNothing(f, c, xs, ys);
    }
  }

  lemma EvalEmpty(f: GenericGF, a: nat)
    ensures Eval(f, [], a) == 0
  {
  }

  lemma CorrectNothing(f: GenericGF, c: seq<nat>, xs: seq<nat>, ys: seq<nat>)
    requires xs == [] && ys == []
    ensures Correct(f, c, xs, ys, 0) == c
  {
  }

  /** The root search on the locator of the damage finds its locations, in order. */
  lemma {:induction false} RootsAreErrors(f: GenericGF, c: seq<nat>, w: seq<nat>, m: nat)
    requires f.Lawful() && |c| == |w| && m <= f.size
    ensures Locations(f, ErrorLocations(f, c, w, f.size))
    ensures RootsUpTo(f, Locator(f, ErrorLocations(f, c, w, f.size)), m) == ErrorLocations(f, c, w, m)
  {
    hide Times, Xor, Eval, Locator, GenericGF.Inverse, ErrorAt, GenericGF.Lawful;
    FieldFacts(f);
    var xs := ErrorLocations(f, c, w, f.size);
    ErrorLocationsOk(f, c, w, f.size);
    if m > 1 {
      RootsAreErrors(f, c, w, m - 1);
      InverseTwice(f, m - 1);
      LocatorRoots(f, xs, f.Inverse(m - 1));
      ErrorLocationsMembers(f, c, w, f.size, f.Inverse(m - 1));
    }
  }

  /** For damage within the bound, each later stage returns exactly the damage. */
  lemma StagesRestore(f: GenericGF, c: seq<nat>, w: seq<nat>, r: nat, sigma: Poly, omega: Poly)
    requires f.Lawful() && |c| == |w| < f.size && IsCodeword(f, c, r) && Below(f.size, w) && f.generatorBase <= 1
    requires var xs, ys := ErrorLocations(f, c, w, f.size), Magnitudes(f, c, w);
             Below(f.size, Weighted(f, xs, ys)) && sigma == Locator(f, xs) && omega == Evaluator(f, xs, Weighted(f, xs, ys))
    ensures |RootsUpTo(f, sigma, f.size)| == |sigma| - 1
    ensures Restores(f, c, w, omega, RootsUpTo(f, sigma, f.size))
  {
    hide Times, Xor, Eval, Locator, Evaluator, Correct, ErrorLocations, RootsUpTo, Magnitude, Weighted, GenericGF.Lawful;
    FieldFacts(f);
    var xs, ys := ErrorLocations(f, c, w, f.size), Magnitudes(f, c, w);
    DamageFacts(f, c, w);
    RootsAreErrors(f, c, w, f.size);
    LocatorShape(f, xs);
    CorrectRestores(f, c, w);
    forall s | 0 <= s < |xs| ensures Magnitude(f, omega, xs, s) == ys[s] {
      MagnitudeIsError(f, xs, ys, s);
    }
    forall mags: seq<nat> | |mags| == |xs| && (forall s :: 0 <= s < |xs| ==> mags[s] == Magnitude(f, omega, xs, s))
      ensures mags == ys
    {
    }
  }

  /** c is a codeword that the received word misses in at most half as many places as it has check symbols. */
  ghost predicate Correctable(f: GenericGF, c: seq<nat>, w: seq<nat>, r: nat) {
    && 0 < |c| == |w| < f.size && f.generatorBase <= 1
    && IsCodeword(f, c, r) && Distance(c, w) <= r / 2
  }

  lemma DistanceSelf(w: seq<nat>)
    ensures Distance(w, w) == 0
  {
    assert (set p | 0 <= p < |w| && w[p] != w[p]) == {};
  }

  lemma DistanceOneMore(w: seq<nat>, v: seq<nat>, p: nat, y: nat)
    requires |w| == |v| && p < |v|
    ensures Distance(w, v[p := y]) <= Distance(w, v) + 1
  {
    var before := set q | 0 <= q < |w| && w[q] != v[q];
    var after := set q | 0 <= q < |w| && w[q] != v[p := y][q];
    assert after <= before + {p};
    SmallerSet(after, before + {p});
  }

  lemma SmallerSet(s: set<int>, t: set<int>)
    requires s <= t
    ensures |s| <= |t|
  {
    assert t == s + (t - s);
  }

  /** One symbol changed to anything is within the bound for any two check symbols or more. */
  lemma OneSymbolCorrectable(f: GenericGF, c: seq<nat>, p: nat, y: nat, r: nat)
    requires f.generatorBase <= 1 && r >= 2 && |c| < f.size && p < |c| && IsCodeword(f, c, r)
    ensures Correctable(f, c, c[p := y], r)
  {
    hide IsCodeword;
    var w := c[p := y];
    var differing := set q | 0 <= q < |c| && c[q] != w[q];
    assert differing <= {p};
    SmallerSet(differing, {p});
  }

  // ---------------------------------------------------------------- what an answer means

  /** A polynomial with as many roots as its degree and constant term 1 is the locator of their inverses. */
  lemma SigmaIsLocator(f: GenericGF, sigma: Poly, xs: seq<nat>)
    requires f.Lawful() && Over(f, sigma) && At(sigma, 0) == 1 && Locations(f, xs) && |xs| + 1 == |sigma|
    requires forall i :: 0 <= i < |xs| ==> Eval(f, sigma, f.Inverse(xs[i])) == 0
    ensures sigma == Locator(f, xs)
  {
    hide Times, Xor, Eval, Mul, Scale, Locator, GenericGF.Lawful;
    FieldFacts(f);
    var l := Locator(f, xs);
    var c := RootsDivide(f, sigma, xs);
    LocatorShape(f, xs);
    if c == [] {
      EmptyProduct(f, l);
    } else {
      MulDegree(f, c, l);
      assert c == [c[0]];
      MulConstant(f, c[0], l);
      ScaleAt(f, c[0], l);
      TimesOne(f, c[0]);
      ScaleOneZero(f, l);
      assert At(l, 0) == Last(l);
    }
  }

  /** A polynomial with more roots than its degree is zero. */
  lemma VanishingShort(f: GenericGF, p: Poly, xs: seq<nat>)
    requires f.Lawful() && Over(f, p) && Locations(f, xs) && |p| <= |xs|
    requires forall i :: 0 <= i < |xs| ==> Eval(f, p, f.Inverse(xs[i])) == 0
    ensures p == []
  {
    hide Times, Xor, Eval, Mul, Locator, GenericGF.Lawful;
    var c := RootsDivide(f, p, xs);
    LocatorShape(f, xs);
    if c == [] {
      EmptyProduct(f, Locator(f, xs));
    } else {
      MulDegree(f, c, Locator(f, xs));
    }
  }

  /** The formula undone: magnitude, weight and denominator give the value of omega. */
  lemma MagnitudeValue(f: GenericGF, omega: Poly, xs: seq<nat>, ys: seq<nat>, s: nat)
    requires f.Lawful() && Over(f, omega) && Locations(f, xs) && |xs| == |ys| && s < |xs| && f.generatorBase <= 1
    requires ys[s] == Magnitude(f, omega, xs, s)
    ensures ys[s] < f.size && Weighted(f, xs, ys)[s] < f.size
    ensures Times(f, Weighted(f, xs, ys)[s], Denominator(f, xs, f.Inverse(xs[s]), s, |xs|)) == Eval(f, omega, f.Inverse(xs[s]))
  {
    hide Times, Xor, Eval, Denominator, GenericGF.Lawful;
    FieldFacts(f);
    var o, x := f.Inverse(xs[s]), xs[s];
    DenominatorInField(f, xs, s, |xs|);
    var d := Denominator(f, xs, o, s, |xs|);
    var e, m := Eval(f, omega, o), Times(f, Eval(f, omega, o), f.Inverse(d));
    EvalInField(f, omega, o);
    TimesInField(f, e, f.Inverse(d));
    TimesAssoc(f, e, f.Inverse(d), d);
    TimesOne(f, e);
    TimesOne(f, m);
    TimesOne(f, x);
    TimesInField(f, m, o);
    assert ElemPow(f, x, 0) == 1;
    assert ElemPow(f, x, 1) == Times(f, ElemPow(f, x, 0), x);
    TimesAssoc(f, m, o, x);
  }

  /** The magnitudes that the formula gives for omega. */
  ghost predicate FormulaValues(f: GenericGF, omega: Poly, xs: seq<nat>, ys: seq<nat>)
    requires f.Lawful() && Locations(f, xs)
  {
    |xs| == |ys| && forall s :: 0 <= s < |xs| ==> ys[s] == Magnitude(f, omega, xs, s)
  }

  lemma FormulaInField(f: GenericGF, omega: Poly, xs: seq<nat>, ys: seq<nat>)
    requires f.Lawful() && Over(f, omega) && Locations(f, xs) && FormulaValues(f, omega, xs, ys) && f.generatorBase <= 1
    ensures Below(f.size, ys) && Below(f.size, Weighted(f, xs, ys))
  {
    hide Magnitude, Weighted, GenericGF.Lawful;
    WeightedLength(f, xs, ys);
    forall s | 0 <= s < |xs| ensures ys[s] < f.size && Weighted(f, xs, ys)[s] < f.size {
      MagnitudeValue(f, omega, xs, ys, s);
    }
  }

  lemma WeightedLength(f: GenericGF, xs: seq<nat>, ys: seq<nat>)
    requires |xs| == |ys|
    ensures |Weighted(f, xs, ys)| == |xs|
  {
  }

  /** Omega is the evaluator of the magnitudes it gives exactly when it has fewer coefficients than sigma. */
  lemma OmegaIsEvaluator(f: GenericGF, omega: Poly, xs: seq<nat>, ys: seq<nat>)
    requires f.Lawful() && Over(f, omega) && Locations(f, xs) && FormulaValues(f, omega, xs, ys) && f.generatorBase <= 1
    ensures Below(f.size, ys) && |Weighted(f, xs, ys)| == |xs| && Below(f.size, Weighted(f, xs, ys))
    ensures omega == Evaluator(f, xs, Weighted(f, xs, ys)) <==> |omega| <= |xs|
  {
    hide Times, Xor, Eval, Magnitude, Weighted, Evaluator, Denominator, Add, GenericGF.Lawful;
    FieldFacts(f);
    FormulaInField(f, omega, xs, ys);
    WeightedLength(f, xs, ys);
    var vs := Weighted(f, xs, ys);
    var w := Evaluator(f, xs, vs);
    EvaluatorShape(f, xs, vs);
    if |omega| <= |xs| {
      AddOver(f, omega, w);
      AddAt(omega, w);
      forall s | 0 <= s < |xs| ensures Eval(f, Add(omega, w), f.Inverse(xs[s])) == 0 {
        MagnitudeValue(f, omega, xs, ys, s);
        Forney(f, xs, vs, s);
        EvalAdd(f, omega, w, f.Inverse(xs[s]));
        XorSelf(Eval(f, omega, f.Inverse(xs[s])));
      }
      VanishingShort(f, Add(omega, w), xs);
      AddEqualsZero(omega, w);
    }
  }

  /** A factor X*x + 1 can be cancelled modulo x^r. */
  lemma FactorCancels(f: GenericGF, x: nat, q: Poly, r: nat)
    requires f.Lawful() && 0 < x < f.size && Over(f, q) && LowZero(Mul(f, Factor(x), q), r)
    ensures LowZero(q, r)
  {
    hide Times, Xor, Mul, Add, Scale, Geometric, LowZero, Factor, GenericGF.Lawful;
    FieldFacts(f);
    var g, fx := Geometric(f, x, r), Factor(x);
    FactorOver(f, x);
    GeometricSum(f, x, r);
    var p := Mul(f, fx, g);
    MulOver(f, fx, g);
    MulOver(f, fx, q);
    AddOver(f, p, UNIT);
    LowZeroMul(f, g, Mul(f, fx, q), r);
    MulAssoc(f, g, fx, q);
    MulComm(f, g, fx);
    MulComm(f, Add(p, UNIT), q);
    LowZeroMul(f, q, Add(p, UNIT), r);
    MulAddLeft(f, p, UNIT, q);
    MulOne(f, q);
    MulOver(f, p, q);
    LowZeroAdd(Mul(f, p, q), Add(Mul(f, p, q), q), r);
    AddCancel(q, Mul(f, p, q));
    AddComm(Mul(f, p, q), q);
    AddComm(Mul(f, p, q), Add(q, Mul(f, p, q)));
  }

  lemma {:induction false} LocatorCancels(f: GenericGF, xs: seq<nat>, q: Poly, r: nat)
    requires f.Lawful() && Locations(f, xs) && Over(f, q) && LowZero(Mul(f, Locator(f, xs), q), r)
    ensures LowZero(q, r)
    decreases |xs|
  {
    hide Times, Xor, Mul, LowZero, Factor, GenericGF.Lawful;
    if xs == [] {
      MulOne(f, q);
    } else {
      var x, i := Last(xs), Init(xs);
      LocatorShape(f, i);
      FactorOver(f, x);
      MulAssoc(f, Factor(x), Locator(f, i), q);
      MulOver(f, Locator(f, i), q);
      FactorCancels(f, x, Mul(f, Locator(f, i), q), r);
      LocatorCancels(f, i, q, r);
    }
  }

  /** Two solutions of the key equation with the same locator have equal syndromes exactly when they have equal evaluators. */
  lemma SameSyndrome(f: GenericGF, xs: seq<nat>, s: Poly, s': Poly, w: Poly, w': Poly, r: nat)
    requires f.Lawful() && Locations(f, xs) && Over(f, s) && Over(f, s') && Over(f, w) && Over(f, w')
    requires |s| <= r && |s'| <= r && |w| <= r && |w'| <= r
    requires Congruent(f, s, Locator(f, xs), w, r) && Congruent(f, s', Locator(f, xs), w', r)
    ensures s == s' <==> w == w'
  {
    hide Times, Xor, Mul, Add, LowZero, Locator, GenericGF.Lawful;
    FieldFacts(f);
    var l := Locator(f, xs);
    LocatorShape(f, xs);
    var a, b := Mul(f, l, s), Mul(f, l, s');
    MulOver(f, l, s);
    MulOver(f, l, s');
    AddOver(f, a, w);
    AddOver(f, b, w');
    LowZeroAdd(Add(a, w), Add(b, w'), r);
    AddSwap(a, w, b, w');
    MulAddRight(f, l, s, s');
    AddZero(a);
    AddZero(w);
    AddOver(f, s, s');
    AddOver(f, w, w');
    AddAt(s, s');
    AddAt(w, w');
    if s == s' {
      AddZero(Add(w, w'));
      LowZeroShort(Add(w, w'), r);
      AddEqualsZero(w, w');
    }
    if w == w' {
      MulOver(f, l, Add(s, s'));
      AddZero(Mul(f, l, Add(s, s')));
      LocatorCancels(f, xs, Add(s, s'), r);
      LowZeroShort(Add(s, s'), r);
      AddEqualsZero(s, s');
    }
  }

  /** The corrected word is a codeword exactly when the syndromes were those of the corrections. */
  lemma CorrectedIsCodeword(f: GenericGF, w: seq<nat>, xs: seq<nat>, ys: seq<nat>, r: nat, s: Poly)
    requires Damage(f, |w|, xs, ys) && Below(f.size, w) && Below(f.size, Weighted(f, xs, ys)) && SyndromesOf(f, w, r, s)
    ensures IsCodeword(f, Correct(f, w, xs, ys, |xs|), r) <==> s == Syndrome(f, xs, Weighted(f, xs, ys), r)
  {
    hide Times, Xor, Eval, Root, Correct, Syndrome, PowerSum, Weighted, GenericGF.Lawful;
    FieldFacts(f);
    var vs := Weighted(f, xs, ys);
    WeightedLength(f, xs, ys);
    SyndromeShape(f, xs, vs, r);
    CorrectInField(f, w, xs, ys, |xs|);
    assert xs[..|xs|] == xs && vs[..|xs|] == vs;
    var c := Correct(f, w, xs, ys, |xs|);
    forall k | 0 <= k < r ensures Eval(f, c, Root(f, k)) == 0 <==> At(s, k) == At(Syndrome(f, xs, vs, r), k) {
      EvalDamaged(f, w, xs, ys, |xs|, k);
      SyndromeAt(f, xs, vs, r, k);
      XorIsZero(At(s, k), At(Syndrome(f, xs, vs, r), k));
    }
    if forall k :: 0 <= k < r ==> At(s, k) == At(Syndrome(f, xs, vs, r), k) {
      Ext(s, Syndrome(f, xs, vs, r));
    }
  }

  /** With sigma and omega solving the key equation and sigma's roots all found, the corrected word is a codeword if and
      only if the degree of omega is below that of sigma. */
  lemma AnswerMeans(f: GenericGF, w: seq<nat>, r: nat, s: Poly, sigma: Poly, omega: Poly, xs: seq<nat>, ys: seq<nat>)
    requires f.Lawful() && f.generatorBase <= 1 && Below(f.size, w) && SyndromesOf(f, w, r, s)
    requires Over(f, sigma) && Over(f, omega) && At(sigma, 0) == 1 && |sigma| <= r + 1 && |omega| <= r
    requires Congruent(f, s, sigma, omega, r)
    requires Locations(f, xs) && |xs| + 1 == |sigma| && FormulaValues(f, omega, xs, ys)
    requires forall i :: 0 <= i < |xs| ==> Eval(f, sigma, f.Inverse(xs[i])) == 0
    requires forall i :: 0 <= i < |xs| ==> Position(f, |w|, xs[i]) >= 0
    ensures IsCodeword(f, Correct(f, w, xs, ys, |xs|), r) <==> |omega| < |sigma|
  {
    hide Times, Xor, Eval, Root, Correct, Syndrome, Weighted, Evaluator, Magnitude, Congruent, IsCodeword, GenericGF.Lawful, Locator;
    SigmaIsLocator(f, sigma, xs);
    OmegaIsEvaluator(f, omega, xs, ys);
    var vs := Weighted(f, xs, ys);
    SyndromeShape(f, xs, vs, r);
    EvaluatorShape(f, xs, vs);
    EvaluatorSolves(f, xs, vs, r);
    SameSyndrome(f, xs, s, Syndrome(f, xs, vs, r), omega, Evaluator(f, xs, vs), r);
    CorrectedIsCodeword(f, w, xs, ys, r, s);
  }

  lemma EvaluatorSolves(f: GenericGF, xs: seq<nat>, vs: seq<nat>, r: nat)
    requires f.Lawful() && Locations(f, xs) && |xs| == |vs| && Below(f.size, vs)
    ensures Congruent(f, Syndrome(f, xs, vs, r), Locator(f, xs), Evaluator(f, xs, vs), r)
  {
    hide Times, Xor, Mul, Add, LowZero, Locator, Evaluator, Syndrome, GenericGF.Lawful;
    KeyEquationHolds(f, xs, vs, r);
    LocatorShape(f, xs);
    SyndromeShape(f, xs, vs, r);
    MulComm(f, Syndrome(f, xs, vs, r), Locator(f, xs));
  }

  /** What the ghost results of Decode are: the locator and evaluator that its answer rests on. */
  ghost predicate KeyPair(f: GenericGF, w: seq<nat>, r: nat, sigma: Poly, omega: Poly) {
    && Over(f, sigma) && Over(f, omega) && At(sigma, 0) == 1 && |sigma| <= r - r / 2 + 1 && |omega| <= r / 2
    && exists s :: SyndromesOf(f, w, r, s) && Congruent(f, s, sigma, omega, r)
  }

  /** Some codeword is within the correction bound. */
  ghost predicate Reachable(f: GenericGF, w: seq<nat>, r: nat) {
    exists c :: Correctable(f, c, w, r)
  }

  /** An answer that is a codeword was within the bound, for an even number of check symbols. */
  lemma AnswerReachable(f: GenericGF, w: seq<nat>, v: seq<nat>, r: nat)
    requires 0 < |v| == |w| < f.size && f.generatorBase <= 1 && r % 2 == 0
    requires IsCodeword(f, v, r) && Distance(w, v) <= r - r / 2
    ensures Reachable(f, w, r)
  {
    hide IsCodeword;
    assert (set p | 0 <= p < |v| && v[p] != w[p]) == (set p | 0 <= p < |w| && w[p] != v[p]);
    assert Distance(v, w) == Distance(w, v);
    assert Correctable(f, v, w, r);
  }

  /** A word whose syndromes from the half on are all zero. */
  ghost predicate ShortSyndromes(f: GenericGF, w: seq<nat>, r: nat) {
    forall k :: r / 2 <= k < r ==> Eval(f, w, Root(f, k)) == 0
  }

  /** Decoding in place. An answer of Ok means a codeword exactly when omega has a lower degree than sigma. */
  method Decode(f: GenericGF, received: array<nat>, twoS: nat)
    returns (result: Result<(), DecodeError>, ghost sigma: Poly, ghost omega: Poly)
    requires f.Lawful() && Below(f.size, received[..]) && twoS + f.generatorBase <= f.size
    modifies received
    ensures received.Length == 0 <==> result == Err(EmptyWord)
    ensures forall c :: Correctable(f, c, old(received[..]), twoS) ==> result.Ok? && received[..] == c
    ensures received.Length > 0 && IsCodeword(f, old(received[..]), twoS) ==> result.Ok? && received[..] == old(received[..])
    ensures twoS >= 2 ==> result != Err(DivisionFailed) && result != Err(RemainderWasZero)
    ensures Distance(old(received[..]), received[..]) <= twoS - twoS / 2
    ensures result.Ok? ==> KeyPair(f, old(received[..]), twoS, sigma, omega)
    ensures result.Ok? && f.generatorBase <= 1 ==> (IsCodeword(f, received[..], twoS) <==> |omega| < |sigma|)
    ensures received.Length > 0 && ShortSyndromes(f, old(received[..]), twoS) ==> result.Ok? && received[..] == old(received[..])
    ensures f.generatorBase <= 1 && twoS % 2 == 0 && 0 < received.Length < f.size ==>
              (result.Ok? && IsCodeword(f, received[..], twoS) <==> Reachable(f, old(received[..]), twoS))
  {
    hide Times, Xor, Eval, Locator, Evaluator, Correct, Weighted, ErrorLocations, Solves,
      RootsUpTo, Magnitude, Congruent, GenericGF.Lawful, Distance, Root, SyndromesOf, ShortSyndromes, KeyPair;
    ghost var w := received[..];
    DistanceSelf(w);
    sigma, omega := UNIT, [];
    if received.Length == 0 {
      result := Err(EmptyWord);
      return;
    }
    var s, noError := Syndromes(f, received[..], twoS);
    if noError {
      forall c | Correctable(f, c, w, twoS) ensures c == w {
        NearCodewords(f, c, w, twoS);
      }
      NoErrorPair(f, w, twoS);
      if f.generatorBase <= 1 && twoS % 2 == 0 && |w| < f.size {
        AnswerReachable(f, w, w, twoS);
      }
      result := Ok(());
      return;
    }
    ghost var synd := Trim(s[..]);
    SyndromesShape(f, w, twoS, synd);
    forall c | Correctable(f, c, w, twoS)
      ensures Solves(f, synd, twoS, ErrorLocations(f, c, w, f.size), Weighted(f, ErrorLocations(f, c, w, f.size), Magnitudes(f, c, w)))
      ensures twoS >= 2
    {
      DamageSolves(f, c, w, twoS, synd);
      DamageNeedsTwo(f, c, w, twoS);
    }
    SomeSyndrome(f, w, twoS, synd);
    var syndrome := GenericGFPoly.New(f, s[..]);
    FieldSize(f);
    var xr := BuildMonomial(f, twoS, 1);
    MonomialIsPowerOfX(f, twoS);
    var euclid := RunEuclideanAlgorithm(f, xr, syndrome.value, twoS);
    if euclid.Err? {
      result := Err(euclid.error);
      return;
    }
    var (sigmaPoly, omegaPoly) := euclid.value;
    sigma, omega := sigmaPoly.Value(), omegaPoly.Value();
    ValueFacts(f, sigmaPoly);
    ValueFacts(f, omegaPoly);
    PairIs(f, w, twoS, synd, sigma, omega);
    forall c | Correctable(f, c, w, twoS)
      ensures Below(f.size, Weighted(f, ErrorLocations(f, c, w, f.size), Magnitudes(f, c, w)))
    {
      SolvesValues(f, synd, twoS, ErrorLocations(f, c, w, f.size), Weighted(f, ErrorLocations(f, c, w, f.size), Magnitudes(f, c, w)));
    }
    result := CorrectWith(f, received, sigmaPoly, omegaPoly, twoS, synd);
    if f.generatorBase <= 1 && twoS % 2 == 0 && |w| < f.size && IsCodeword(f, received[..], twoS) {
      AnswerReachable(f, w, received[..], twoS);
    }
  }

  /** The stages behind the Euclidean loop: roots, magnitudes, correction. */
  method CorrectWith(f: GenericGF, received: array<nat>, sigma: GFPoly, omega: GFPoly, ghost twoS: nat, ghost synd: Poly)
    returns (result: Result<(), DecodeError>)
    requires f.Lawful() && Below(f.size, received[..]) && sigma.Valid(f) && omega.Valid(f) && At(sigma.Value(), 0) == 1
    requires SyndromesOf(f, received[..], twoS, synd) && Congruent(f, synd, sigma.Value(), omega.Value(), twoS)
    requires |sigma.Value()| <= twoS - twoS / 2 + 1 && |omega.Value()| <= twoS / 2
    requires forall c :: Correctable(f, c, received[..], twoS) ==>
               var xs := ErrorLocations(f, c, received[..], f.size);
               sigma.Value() == Locator(f, xs) && omega.Value() == Evaluator(f, xs, Weighted(f, xs, Magnitudes(f, c, received[..]))) &&
               Below(f.size, Weighted(f, xs, Magnitudes(f, c, received[..])))
    modifies received
    ensures result.Err? ==> result.error in {RootCountMismatch, BadErrorLocation}
    ensures forall c :: Correctable(f, c, old(received[..]), twoS) ==> result.Ok? && received[..] == c
    ensures Distance(old(received[..]), received[..]) <= twoS - twoS / 2
    ensures result.Ok? && f.generatorBase <= 1 ==> (IsCodeword(f, received[..], twoS) <==> |omega.Value()| < |sigma.Value()|)
    ensures sigma.Value() == UNIT ==> result.Ok? && received[..] == old(received[..])
  {
    hide Times, Xor, Eval, Locator, Evaluator, Correct, Weighted, ErrorLocations, RootsUpTo, Magnitude, Congruent,
      GenericGF.Lawful, Distance, Root, IsCodeword, SyndromesOf, Restores;
    ghost var w := received[..];
    DistanceSelf(w);
    var locations := FindErrorLocations(f, sigma);
    ValueFacts(f, sigma);
    ValueFacts(f, omega);
    NoRoots(f);
    forall c | Correctable(f, c, w, twoS)
      ensures locations.Ok? && Restores(f, c, w, omega.Value(), locations.value)
    {
      StagesRestore(f, c, w, twoS, sigma.Value(), omega.Value());
    }
    if locations.Err? {
      return Err(locations.error);
    }
    var locs := locations.value;
    RootsUpToOk(f, sigma.Value(), f.size);
    var mags := FindErrorMagnitudes(f, omega, locs);
    ghost var ys := mags[..];
    result := CorrectInPlace(f, received, locs, mags);
    forall c | Correctable(f, c, w, twoS) ensures result.Ok? && received[..] == c {
      RestoredIs(f, c, w, omega.Value(), locs, ys);
    }
    if result.Ok? && f.generatorBase <= 1 {
      AnswerMeans(f, w, twoS, synd, sigma.Value(), omega.Value(), locs, ys);
    }
    if locs == [] {
      CorrectNothing(f, w, locs, ys);
    }
  }

  lemma NoErrorPair(f: GenericGF, w: seq<nat>, r: nat)
    requires f.Lawful() && IsCodeword(f, w, r)
    ensures KeyPair(f, w, r, UNIT, [])
  {
    hide Times, Xor, Eval, Root, GenericGF.Lawful;
    FieldFacts(f);
    assert SyndromesOf(f, w, r, []);
    MulOne(f, []);
    AddZero([]);
    assert Congruent(f, [], UNIT, [], r);
  }

  lemma SyndromesShape(f: GenericGF, w: seq<nat>, r: nat, s: Poly)
    requires SyndromesOf(f, w, r, s)
    ensures Over(f, s) && |s| <= r && (ShortSyndromes(f, w, r) ==> |s| <= r / 2)
  {
    if |s| > r / 2 {
      assert At(s, |s| - 1) == s[0] != 0;
    }
  }

  lemma SomeSyndrome(f: GenericGF, w: seq<nat>, r: nat, s: Poly)
    requires Below(f.size, w) && !IsCodeword(f, w, r) && SyndromesOf(f, w, r, s)
    ensures r > 0 && s != []
  {
    var k :| 0 <= k < r && Eval(f, w, Root(f, k)) != 0;
    assert At(s, k) != 0;
  }

  lemma PairIs(f: GenericGF, w: seq<nat>, r: nat, s: Poly, sigma: Poly, omega: Poly)
    requires Over(f, sigma) && Over(f, omega) && At(sigma, 0) == 1 && |sigma| <= r - r / 2 + 1 && |omega| <= r / 2
    requires SyndromesOf(f, w, r, s) && Congruent(f, s, sigma, omega, r)
    ensures KeyPair(f, w, r, sigma, omega)
  {
    hide SyndromesOf, Congruent;
  }

  /** The constant 1 has no roots. */
  lemma NoRoots(f: GenericGF)
    requires f.Lawful()
    ensures RootsUpTo(f, UNIT, f.size) == [] && Over(f, UNIT) && At(UNIT, 0) == 1
  {
    hide Eval, GenericGF.Lawful;
    FieldFacts(f);
    RootCount(f, UNIT, f.size);
  }

  lemma MonomialIsPowerOfX(f: GenericGF, r: nat)
    requires f.Lawful()
    ensures ShiftBy(Scale(f, 1, UNIT), r) == PowerOfX(r)
  {
    ScaleOneZero(f, UNIT);
  }

  lemma SolvesValues(f: GenericGF, s: Poly, r: nat, xs: seq<nat>, vs: seq<nat>)
    requires Solves(f, s, r, xs, vs)
    ensures |xs| == |vs| && Below(f.size, vs)
  {
  }

  /** These locations, with the magnitudes the formula gives them, turn w into c. */
  ghost predicate Restores(f: GenericGF, c: seq<nat>, w: seq<nat>, omega: Poly, locs: seq<nat>) {
    && f.Lawful() && Locations(f, locs)
    && (forall s :: 0 <= s < |locs| ==> Position(f, |w|, locs[s]) >= 0)
    && forall mags: seq<nat> | |mags| == |locs| ::
         (forall s :: 0 <= s < |locs| ==> mags[s] == Magnitude(f, omega, locs, s)) ==>
         Correct(f, w, locs, mags, |locs|) == c
  }

  lemma RestoredIs(f: GenericGF, c: seq<nat>, w: seq<nat>, omega: Poly, locs: seq<nat>, mags: seq<nat>)
    requires Restores(f, c, w, omega, locs) && |mags| == |locs|
    requires forall s :: 0 <= s < |locs| ==> mags[s] == Magnitude(f, omega, locs, s)
    ensures forall s :: 0 <= s < |locs| ==> Position(f, |w|, locs[s]) >= 0
    ensures Correct(f, w, locs, mags, |locs|) == c
  {
  }

  /** With fewer than two check symbols no damage is within the bound. */
  lemma DamageNeedsTwo(f: GenericGF, c: seq<nat>, w: seq<nat>, r: nat)
    requires f.Lawful() && Correctable(f, c, w, r) && Below(f.size, w) && !IsCodeword(f, w, r)
    ensures r >= 2
  {
    hide Times, Xor, Eval, Root, Correct, ErrorLocations, GenericGF.Lawful;
    FieldFacts(f);
    var xs, ys := ErrorLocations(f, c, w, f.size), Magnitudes(f, c, w);
    ErrorCount(f, c, w);
    CorrectRestores(f, c, w);
    if xs == [] {
      CorrectNothing(f, c, xs, ys);
    }
  }

  method CorrectInPlace(f: GenericGF, received: array<nat>, locs: seq<nat>, mags: array<nat>) returns (result: Result<(), DecodeError>)
    requires f.Lawful() && Locations(f, locs) && mags.Length == |locs| && mags != received
    modifies received
    ensures result.Ok? || result == Err(BadErrorLocation)
    ensures result.Ok? <==> forall i :: 0 <= i < |locs| ==> Position(f, received.Length, locs[i]) >= 0
    ensures result.Ok? ==> received[..] == Correct(f, old(received[..]), locs, mags[..], |locs|)
    ensures Distance(old(received[..]), received[..]) <= |locs|
  {
    hide Xor, Distance;
    ghost var w := received[..];
    DistanceSelf(w);
    for e := 0 to |locs|
      invariant received[..] == Correct(f, w, locs, mags[..], e)
      invariant forall i :: 0 <= i < e ==> Position(f, received.Length, locs[i]) >= 0
      invariant mags[..] == old(mags[..])
      invariant Distance(w, received[..]) <= e
    {
      var position := received.Length - 1 - f.Log(locs[e]);
      if position < 0 {
        return Err(BadErrorLocation);
      }
      DistanceOneMore(w, received[..], position, Xor(received[position], mags[e]));
      received[position] := Xor(received[position], mags[e]);
    }
    return Ok(());
  }

  // ---------------------------------------------------------------- words accepted without being codewords

  /** The product of x + Root(k) for k from 1 to n: every root of the code but the first. */
  ghost function OtherRoots(f: GenericGF, n: nat): Poly {
    if n == 0 then UNIT else Mul(f, OtherRoots(f, n - 1), Linear(Root(f, n)))
  }

  lemma {:induction false} OtherRootsShape(f: GenericGF, n: nat)
    requires f.Lawful()
    ensures Over(f, OtherRoots(f, n)) && |OtherRoots(f, n)| == n + 1
  {
    hide Times, Xor, Root, Linear, Mul, GenericGF.Lawful;
    FieldFacts(f);
    if n > 0 {
      OtherRootsShape(f, n - 1);
      RootOk(f, n);
      MulOver(f, OtherRoots(f, n - 1), Linear(Root(f, n)));
      MulDegree(f, OtherRoots(f, n - 1), Linear(Root(f, n)));
    }
  }

  /** It vanishes at those roots and not at the first one. */
  lemma {:induction false} OtherRootsValues(f: GenericGF, n: nat, k: nat)
    requires f.Lawful() && k <= n < f.size - 1
    ensures Eval(f, OtherRoots(f, n), Root(f, k)) == 0 <==> k > 0
  {
    hide Times, Xor, Root, Linear, Mul, Eval, GenericGF.Lawful;
    FieldFacts(f);
    RootOk(f, k);
    if n == 0 {
      EvalOfOne(f, Root(f, k));
    } else {
      var a, p, lin := Root(f, k), OtherRoots(f, n - 1), Linear(Root(f, n));
      OtherRootsShape(f, n - 1);
      RootOk(f, n);
      EvalMul(f, p, lin, a);
      EvalLinearAt(f, Root(f, n), a);
      EvalInField(f, p, a);
      EvalInField(f, lin, a);
      TimesInField(f, Eval(f, p, a), Eval(f, lin, a));
      XorIsZero(a, Root(f, n));
      if k < n {
        OtherRootsValues(f, n - 1, k);
        RootsDiffer(f, k, n);
      }
    }
  }

  lemma EvalOfOne(f: GenericGF, a: nat)
    requires f.Lawful() && a < f.size
    ensures Eval(f, UNIT, a) == 1
  {
    hide Times, Xor, GenericGF.Lawful;
    assert Init(UNIT) == [] && Last(UNIT) == 1;
    TimesZero(f, a);
    XorZero(1);
  }

  lemma RootsDiffer(f: GenericGF, k: nat, n: nat)
    requires f.Lawful() && k < n < f.size - 1
    ensures Root(f, k) != Root(f, n)
  {
    PowersDistinct(f, k + f.generatorBase, n + f.generatorBase);
  }

  /** In every field and for every number of check symbols from two up, some word is no codeword and yet has all zero
      syndromes from the half on, so that decoding answers Ok and leaves it as it is. */
  lemma AcceptedNonCodeword(f: GenericGF, r: nat) returns (w: seq<nat>)
    requires f.Lawful() && 2 <= r < f.size
    ensures |w| == r && Below(f.size, w) && ShortSyndromes(f, w, r) && !IsCodeword(f, w, r)
  {
    hide Eval, Root, OtherRoots, GenericGF.Lawful;
    w := OtherRoots(f, r - 1);
    OtherRootsShape(f, r - 1);
    forall k | 0 <= k < r ensures Eval(f, w, Root(f, k)) == 0 <==> k > 0 {
      OtherRootsValues(f, r - 1, k);
    }
    assert Eval(f, w, Root(f, 0)) != 0;
  }
}
