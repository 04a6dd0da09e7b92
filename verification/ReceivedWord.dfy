/** A received word as a codeword plus errors: where the errors are, what they add to the
    syndromes, and that undoing them gives the codeword back. */
module ReceivedWord {
  import opened BinaryDigits
  import opened GaloisField
  import opened Polynomials
  import opened KeyEquation
  import opened ReedSolomonEncoder

  /** x^k for a field element x. */
  ghost function ElemPow(f: GenericGF, x: nat, k: nat): nat {
    if k == 0 then 1 else Times(f, ElemPow(f, x, k - 1), x)
  }

  /** The sum over all i of vs[i] * xs[i]^k. */
  ghost function PowerSum(f: GenericGF, xs: seq<nat>, vs: seq<nat>, k: nat): nat
    requires |xs| == |vs|
  {
    if xs == [] then 0
    else Xor(PowerSum(f, Init(xs), Init(vs), k), Times(f, Last(vs), ElemPow(f, Last(xs), k)))
  }

  /** The array index an error location stands for; negative when it lies outside the word. */
  function Position(f: GenericGF, n: nat, x: nat): int
    requires 0 < x < |f.logTable|
  {
    n - 1 - f.Log(x)
  }

  /** The word after the first m corrections. */
  function Correct(f: GenericGF, w: seq<nat>, locs: seq<nat>, mags: seq<nat>, m: nat): (r: seq<nat>)
    requires |locs| == |mags| && m <= |locs|
    requires forall i :: 0 <= i < |locs| ==> 0 < locs[i] < |f.logTable|
    ensures |r| == |w|
  {
    if m == 0 then w
    else
      var v := Correct(f, w, locs, mags, m - 1);
      var p := Position(f, |w|, locs[m - 1]);
      if 0 <= p then v[p := Xor(v[p], mags[m - 1])] else v
  }

  /** Location x names an index where the words differ. */
  ghost predicate ErrorAt(f: GenericGF, c: seq<nat>, w: seq<nat>, x: nat)
    requires f.Lawful() && |c| == |w| && 0 < x < f.size
  {
    var p := Position(f, |c|, x);
    0 <= p && c[p] != w[p]
  }

  /** The error locations, in the order in which the root search meets their inverses. */
  ghost function ErrorLocations(f: GenericGF, c: seq<nat>, w: seq<nat>, m: nat): seq<nat>
    requires f.Lawful() && |c| == |w| && m <= f.size
  {
    if m <= 1 then []
    else
      var x := f.Inverse(m - 1);
      ErrorLocations(f, c, w, m - 1) + if ErrorAt(f, c, w, x) then [x] else []
  }

  /** What was added at each location. */
  ghost function ErrorValues(f: GenericGF, c: seq<nat>, w: seq<nat>, xs: seq<nat>): (r: seq<nat>)
    requires f.Lawful() && |c| == |w|
    requires forall i :: 0 <= i < |xs| ==> 0 < xs[i] < f.size && Position(f, |c|, xs[i]) >= 0
    ensures |r| == |xs|
  {
    seq(|xs|, i requires 0 <= i < |xs| => Xor(c[Position(f, |c|, xs[i])], w[Position(f, |c|, xs[i])]))
  }

  /** The values the key equation works with: vs[i] is ys[i] * xs[i]^base. */
  ghost function Weighted(f: GenericGF, xs: seq<nat>, ys: seq<nat>): (r: seq<nat>)
    requires |xs| == |ys|
    ensures |r| == |xs|
  {
    seq(|xs|, i requires 0 <= i < |xs| => Times(f, ys[i], ElemPow(f, xs[i], f.generatorBase)))
  }

  /** The number of places in which two words differ. */
  ghost function Distance(c: seq<nat>, w: seq<nat>): nat
    requires |c| == |w|
  {
    |set p | 0 <= p < |c| && c[p] != w[p]|
  }

  // ---------------------------------------------------------------- powers

  lemma {:induction false} ElemPowPower(f: GenericGF, i: nat, k: nat)
    requires f.Lawful()
    ensures ElemPow(f, Power(f, i), k) == Power(f, i * k) && 0 < Power(f, i * k) < f.size
  {
    hide Times, Xor, Power, GenericGF.Lawful;
    FieldFacts(f);
    assert i * 0 == 0;
    if k > 0 {
      var j := i * (k - 1);
      ElemPowPower(f, i, k - 1);
      assert j + i == i * k;
      PowerAdd(f, j, i);
      PowerNonzero(f, j + i);
    } else {
      PowerZero(f);
    }
  }

  lemma PowerZero(f: GenericGF)
    requires f.Lawful()
    ensures Power(f, 0) == 1 < f.size
  {
  }

  lemma Distribute(k: nat, b: nat, j: nat)
    ensures (k + b) * j == j * b + j * k && j * b >= 0 && j * k >= 0
  {
  }

  lemma ElemPowInField(f: GenericGF, x: nat, k: nat)
    requires f.Lawful() && 0 < x < f.size
    ensures 0 < ElemPow(f, x, k) < f.size
  {
    LogExp(f, x);
    ElemPowPower(f, f.logTable[x], k);
  }

  lemma PowerSplit(f: GenericGF, i: nat, j: nat)
    requires f.Lawful()
    ensures Power(f, i + j) == Times(f, Power(f, i), Power(f, j))
  {
    PowerAdd(f, i, j);
  }

  /** A root of the code raised to the position of x is x^k * x^base. */
  lemma RootPower(f: GenericGF, x: nat, k: nat)
    requires f.Lawful() && 0 < x < f.size
    ensures ElemPow(f, Root(f, k), f.logTable[x]) == Times(f, ElemPow(f, x, f.generatorBase), ElemPow(f, x, k))
  {
    hide Times, Xor, Power;
    LogExp(f, x);
    var j, b := f.logTable[x], f.generatorBase;
    ElemPowPower(f, k + b, j);
    ElemPowPower(f, j, b);
    ElemPowPower(f, j, k);
    Distribute(k, b, j);
    hide GenericGF.Lawful, ElemPow;
    var jb, jk := j * b, j * k;
    PowerSplit(f, jb, jk);
  }

  // ---------------------------------------------------------------- coefficients of the syndrome polynomial

  lemma {:induction false} GeometricAt(f: GenericGF, x: nat, r: nat, k: nat)
    requires f.Lawful() && 0 < x < f.size
    ensures Over(f, Geometric(f, x, r)) && |Geometric(f, x, r)| <= r
    ensures At(Geometric(f, x, r), k) == if k < r then ElemPow(f, x, k) else 0
    decreases r
  {
    hide Times, Xor, GenericGF.Lawful, Shift, Scale, Add, LowZero, Mul;
    FieldFacts(f);
    GeometricSum(f, x, r);
    if r > 0 {
      GeometricSum(f, x, r - 1);
      HornerAt(f, x, Geometric(f, x, r - 1), k);
      if k > 0 {
        GeometricAt(f, x, r - 1, k - 1);
        ElemPowInField(f, x, k - 1);
        TimesComm(f, x, ElemPow(f, x, k - 1));
        TimesZero(f, x);
      }
    }
  }

  lemma HornerAt(f: GenericGF, x: nat, g: Poly, k: nat)
    requires f.Lawful() && 0 < x < f.size && Over(f, g)
    ensures At(Add(Shift(Scale(f, x, g)), UNIT), k) == if k == 0 then 1 else Times(f, x, At(g, k - 1))
  {
    hide Times, Xor, GenericGF.Lawful;
    FieldFacts(f);
    var s := Shift(Scale(f, x, g));
    ScaleAt(f, x, g);
    ShiftAt(f, Scale(f, x, g));
    AddAt(s, UNIT);
    XorZero(1);
    XorZero(At(s, k));
  }

  lemma {:induction false} SyndromeAt(f: GenericGF, xs: seq<nat>, vs: seq<nat>, r: nat, k: nat)
    requires f.Lawful() && Locations(f, xs) && |xs| == |vs| && Below(f.size, vs) && k < r
    ensures At(Syndrome(f, xs, vs, r), k) == PowerSum(f, xs, vs, k)
    decreases |xs|
  {
    hide Times, Xor, GenericGF.Lawful;
    FieldFacts(f);
    if xs != [] {
      var g := Geometric(f, Last(xs), r);
      SyndromeAt(f, Init(xs), Init(vs), r, k);
      GeometricAt(f, Last(xs), r, k);
      ScaleAt(f, Last(vs), g);
      AddAt(Syndrome(f, Init(xs), Init(vs), r), Scale(f, Last(vs), g));
    }
  }

  // ---------------------------------------------------------------- evaluating a damaged word

  lemma {:induction false} EvalUpdate(f: GenericGF, w: seq<nat>, p: nat, y: nat, a: nat)
    requires f.Lawful() && Below(f.size, w) && p < |w| && y < f.size && 0 < a < f.size
    ensures Eval(f, w[p := Xor(w[p], y)], a) == Xor(Eval(f, w, a), Times(f, y, ElemPow(f, a, |w| - 1 - p)))
    decreases |w|
  {
    hide Times, Xor, GenericGF.Lawful;
    FieldFacts(f);
    var w' := w[p := Xor(w[p], y)];
    EvalInField(f, Init(w), a);
    var e := Eval(f, Init(w), a);
    if p == |w| - 1 {
      assert Init(w') == Init(w) && Last(w') == Xor(Last(w), y);
      TimesOne(f, y);
      XorAssoc(Times(f, a, e), Last(w), y);
    } else {
      var d := Times(f, y, ElemPow(f, a, |w| - 2 - p));
      assert Init(w') == Init(w)[p := Xor(w[p], y)] && Last(w') == Last(w);
      EvalUpdate(f, Init(w), p, y, a);
      EvalUpdateStep(f, e, y, ElemPow(f, a, |w| - 2 - p), a, Last(w), |w| - 2 - p);
    }
  }

  lemma EvalUpdateStep(f: GenericGF, e: nat, y: nat, pow: nat, a: nat, l: nat, k: nat)
    requires f.Lawful() && e < f.size && y < f.size && 0 < a < f.size && pow == ElemPow(f, a, k)
    ensures Xor(Times(f, a, Xor(e, Times(f, y, pow))), l)
         == Xor(Xor(Times(f, a, e), l), Times(f, y, Times(f, pow, a)))
  {
    hide Times, Xor, ElemPow, GenericGF.Lawful;
    FieldFacts(f);
    ElemPowInField(f, a, k);
    TimesInField(f, y, pow);
    TimesXorRight(f, a, e, Times(f, y, pow));
    TimesComm(f, a, Times(f, y, pow));
    TimesAssoc(f, y, pow, a);
    var ae, d := Times(f, a, e), Times(f, y, Times(f, pow, a));
    XorAssoc(ae, d, l);
    XorComm(d, l);
    XorAssoc(ae, l, d);
  }

  ghost predicate Damage(f: GenericGF, n: nat, xs: seq<nat>, ys: seq<nat>) {
    && f.Lawful() && |xs| == |ys| && Locations(f, xs) && Below(f.size, ys)
    && forall i :: 0 <= i < |xs| ==> Position(f, n, xs[i]) >= 0
  }

  lemma {:induction false} CorrectInField(f: GenericGF, w: seq<nat>, xs: seq<nat>, ys: seq<nat>, m: nat)
    requires Damage(f, |w|, xs, ys) && Below(f.size, w) && m <= |xs|
    ensures Below(f.size, Correct(f, w, xs, ys, m))
  {
    hide Times, Xor;
    if m > 0 {
      CorrectInField(f, w, xs, ys, m - 1);
      var v, p := Correct(f, w, xs, ys, m - 1), Position(f, |w|, xs[m - 1]);
      XorInField(f, v[p], ys[m - 1]);
    }
  }

  /** Every error adds its weighted power to the value at a root of the code. */
  lemma {:induction false} EvalDamaged(f: GenericGF, c: seq<nat>, xs: seq<nat>, ys: seq<nat>, m: nat, k: nat)
    requires Damage(f, |c|, xs, ys) && Below(f.size, c) && m <= |xs|
    ensures Eval(f, Correct(f, c, xs, ys, m), Root(f, k))
         == Xor(Eval(f, c, Root(f, k)), PowerSum(f, xs[..m], Weighted(f, xs, ys)[..m], k))
  {
    hide Times, Xor, Root, Eval, ElemPow;
    XorZero(Eval(f, c, Root(f, k)));
    if m > 0 {
      var a, x, y := Root(f, k), xs[m - 1], ys[m - 1];
      var v, p := Correct(f, c, xs, ys, m - 1), Position(f, |c|, xs[m - 1]);
      RootOk(f, k);
      CorrectInField(f, c, xs, ys, m - 1);
      EvalDamaged(f, c, xs, ys, m - 1, k);
      EvalUpdate(f, v, p, y, a);
      var us := Weighted(f, xs, ys);
      assert Init(xs[..m]) == xs[..m - 1] && Init(us[..m]) == us[..m - 1];
      RootPower(f, x, k);
      ElemPowInField(f, x, f.generatorBase);
      ElemPowInField(f, x, k);
      TimesAssoc(f, y, ElemPow(f, x, f.generatorBase), ElemPow(f, x, k));
      XorAssoc(Eval(f, c, a), PowerSum(f, xs[..m - 1], us[..m - 1], k), Times(f, us[m - 1], ElemPow(f, x, k)));
    }
  }

  // ---------------------------------------------------------------- the error locations are the damage

  lemma {:induction false} ErrorLocationsMembers(f: GenericGF, c: seq<nat>, w: seq<nat>, m: nat, x: nat)
    requires f.Lawful() && |c| == |w| && m <= f.size && 0 < x < f.size
    ensures x in ErrorLocations(f, c, w, m) <==> f.Inverse(x) < m && ErrorAt(f, c, w, x)
  {
    hide Times, GenericGF.Inverse, ErrorAt, GenericGF.Lawful;
    FieldFacts(f);
    InverseTwice(f, x);
    if m > 1 {
      ErrorLocationsMembers(f, c, w, m - 1, x);
      InverseTwice(f, m - 1);
    }
  }

  lemma {:induction false} ErrorLocationsOk(f: GenericGF, c: seq<nat>, w: seq<nat>, m: nat)
    requires f.Lawful() && |c| == |w| && m <= f.size
    ensures Locations(f, ErrorLocations(f, c, w, m))
    ensures forall x :: x in ErrorLocations(f, c, w, m) ==> 0 < x < f.size && f.Inverse(x) < m && ErrorAt(f, c, w, x)
  {
    hide Times, GenericGF.Inverse, ErrorAt, GenericGF.Lawful;
    FieldFacts(f);
    if m > 1 {
      ErrorLocationsOk(f, c, w, m - 1);
      InverseTwice(f, m - 1);
    }
  }

  lemma DamageFacts(f: GenericGF, c: seq<nat>, w: seq<nat>)
    requires f.Lawful() && |c| == |w| && Below(f.size, c) && Below(f.size, w)
    ensures var xs := ErrorLocations(f, c, w, f.size);
            && Locations(f, xs)
            && (forall i :: 0 <= i < |xs| ==> ErrorAt(f, c, w, xs[i]) && Position(f, |c|, xs[i]) >= 0)
            && Damage(f, |c|, xs, ErrorValues(f, c, w, xs))
  {
    hide Times, Xor, GenericGF.Lawful;
    FieldFacts(f);
    var xs := ErrorLocations(f, c, w, f.size);
    ErrorLocationsOk(f, c, w, f.size);
    assert forall i :: 0 <= i < |xs| ==> xs[i] in xs;
    forall i | 0 <= i < |xs| ensures ErrorValues(f, c, w, xs)[i] < f.size {
      var p := Position(f, |c|, xs[i]);
      XorInField(f, c[p], w[p]);
    }
  }

  /** p is one of the first m positions. */
  ghost predicate Touched(f: GenericGF, n: nat, xs: seq<nat>, m: nat, p: nat)
    requires m <= |xs| && forall i :: 0 <= i < |xs| ==> 0 < xs[i] < |f.logTable|
  {
    exists i :: 0 <= i < m && Position(f, n, xs[i]) == p
  }

  lemma {:induction false} CorrectTouches(f: GenericGF, c: seq<nat>, w: seq<nat>, xs: seq<nat>, ys: seq<nat>, m: nat, p: nat)
    requires |c| == |w| && Damage(f, |c|, xs, ys) && m <= |xs| && p < |c|
    requires forall i :: 0 <= i < |xs| ==> ys[i] == Xor(c[Position(f, |c|, xs[i])], w[Position(f, |c|, xs[i])])
    ensures Correct(f, c, xs, ys, m)[p] == if Touched(f, |c|, xs, m, p) then w[p] else c[p]
    ensures Correct(f, w, xs, ys, m)[p] == if Touched(f, |c|, xs, m, p) then c[p] else w[p]
  {
    hide Times, Xor;
    if m > 0 {
      CorrectTouches(f, c, w, xs, ys, m - 1, p);
      var q := Position(f, |c|, xs[m - 1]);
      XorCancel(c[p], w[p]);
      XorComm(c[p], w[p]);
      XorCancel(w[p], c[p]);
      if p == q {
        forall i | 0 <= i < m - 1 ensures Position(f, |c|, xs[i]) != q {
          LogExp(f, xs[i]);
          LogExp(f, xs[m - 1]);
        }
      }
    }
  }

  /** The values of the errors, with their well-formedness. */
  ghost function Magnitudes(f: GenericGF, c: seq<nat>, w: seq<nat>): (ys: seq<nat>)
    requires f.Lawful() && |c| == |w| && Below(f.size, c) && Below(f.size, w)
    ensures Damage(f, |c|, ErrorLocations(f, c, w, f.size), ys)
  {
    DamageFacts(f, c, w);
    ErrorValues(f, c, w, ErrorLocations(f, c, w, f.size))
  }

  /** Applying the errors to the codeword gives the received word, and the other way round. */
  lemma CorrectRestores(f: GenericGF, c: seq<nat>, w: seq<nat>)
    requires f.Lawful() && |c| == |w| < f.size && Below(f.size, c) && Below(f.size, w)
    ensures var xs, ys := ErrorLocations(f, c, w, f.size), Magnitudes(f, c, w);
            Correct(f, c, xs, ys, |xs|) == w && Correct(f, w, xs, ys, |xs|) == c
  {
    hide Times, Xor, Correct, ErrorLocations, Touched, Position, GenericGF.Lawful;
    FieldFacts(f);
    DamageFacts(f, c, w);
    var xs := ErrorLocations(f, c, w, f.size);
    var ys := Magnitudes(f, c, w);
    forall p | 0 <= p < |c|
      ensures Correct(f, c, xs, ys, |xs|)[p] == w[p] && Correct(f, w, xs, ys, |xs|)[p] == c[p]
    {
      CorrectTouches(f, c, w, xs, ys, |xs|, p);
      if c[p] != w[p] {
        DifferenceTouched(f, c, w, p);
      }
    }
  }

  /** Every index where the words differ has its location. */
  lemma DifferenceTouched(f: GenericGF, c: seq<nat>, w: seq<nat>, p: nat)
    requires f.Lawful() && |c| == |w| < f.size && p < |c| && c[p] != w[p]
    ensures var xs := ErrorLocations(f, c, w, f.size);
            Locations(f, xs) && Touched(f, |c|, xs, |xs|, p)
  {
    hide Times, Xor, ErrorLocations, GenericGF.Lawful;
    FieldFacts(f);
    var xs := ErrorLocations(f, c, w, f.size);
    ErrorLocationsOk(f, c, w, f.size);
    var x := f.expTable[|c| - 1 - p];
    ExpLog(f, |c| - 1 - p);
    assert Position(f, |c|, x) == p;
    ErrorLocationsMembers(f, c, w, f.size, x);
    var i :| 0 <= i < |xs| && xs[i] == x;
    assert Position(f, |c|, xs[i]) == p;
  }

  lemma {:induction false} DistinctBound(s: seq<nat>, t: set<nat>)
    requires forall i :: 0 <= i < |s| ==> s[i] in t
    requires forall i, j :: 0 <= i < j < |s| ==> s[i] != s[j]
    ensures |s| <= |t|
    decreases |s|
  {
    if s != [] {
      DistinctBound(Init(s), t - {Last(s)});
    }
  }

  lemma ErrorCount(f: GenericGF, c: seq<nat>, w: seq<nat>)
    requires f.Lawful() && |c| == |w| && Below(f.size, c) && Below(f.size, w)
    ensures |ErrorLocations(f, c, w, f.size)| <= Distance(c, w)
  {
    DamageFacts(f, c, w);
    var xs := ErrorLocations(f, c, w, f.size);
    var ps: seq<nat> := seq(|xs|, i requires 0 <= i < |xs| => Position(f, |c|, xs[i]) as nat);
    forall i, j | 0 <= i < j < |xs| ensures ps[i] != ps[j] {
      LogExp(f, xs[i]);
      LogExp(f, xs[j]);
    }
    var d: set<nat> := set p: nat | p < |c| && c[p] != w[p];
    assert d == set p | 0 <= p < |c| && c[p] != w[p];
    DistinctBound(ps, d);
  }
}
