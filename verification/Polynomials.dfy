/** Polynomials over a Galois field: coefficients from the highest power down, without leading
    zeros, the empty sequence being zero. Equality of polynomials is equality of sequences. */
module Polynomials {
  import opened BinaryDigits
  import opened GaloisField

  type Poly = seq<nat>

  const UNIT: Poly := [1]

  /** The coefficient of x^i. */
  function At(p: Poly, i: nat): nat {
    if i < |p| then p[|p| - 1 - i] else 0
  }

  predicate Norm(p: Poly) {
    p == [] || p[0] != 0
  }

  predicate Below(n: nat, p: Poly) {
    forall i :: 0 <= i < |p| ==> p[i] < n
  }

  predicate Over(f: GenericGF, p: Poly) {
    Norm(p) && Below(f.size, p)
  }

  function Trim(p: Poly): Poly {
    if p != [] && p[0] == 0 then Trim(p[1..]) else p
  }

  function Init(p: Poly): Poly
    requires p != []
  {
    p[..|p| - 1]
  }

  function Last(p: Poly): nat
    requires p != []
  {
    p[|p| - 1]
  }

  function Max(a: nat, b: nat): nat {
    if a >= b then a else b
  }

  function RawAdd(p: Poly, q: Poly): (r: Poly)
    ensures |r| == Max(|p|, |q|)
  {
    var n := Max(|p|, |q|);
    seq(n, k requires 0 <= k < n => Xor(At(p, n - 1 - k), At(q, n - 1 - k)))
  }

  function Add(p: Poly, q: Poly): Poly {
    Trim(RawAdd(p, q))
  }

  function RawScale(f: GenericGF, c: nat, p: Poly): (r: Poly)
    ensures |r| == |p|
    ensures forall i :: 0 <= i < |p| ==> r[i] == Times(f, c, p[i])
  {
    seq(|p|, k requires 0 <= k < |p| => Times(f, c, p[k]))
  }

  function Scale(f: GenericGF, c: nat, p: Poly): Poly {
    Trim(RawScale(f, c, p))
  }

  /** Multiplication by x. */
  function Shift(p: Poly): Poly {
    if p == [] then [] else p + [0]
  }

  /** Multiplication by x^n. */
  function ShiftBy(p: Poly, n: nat): Poly {
    if n == 0 then p else Shift(ShiftBy(p, n - 1))
  }

  /** Horner's rule: Mul(x*p + c, q) is x*Mul(p, q) + c*q. */
  function Mul(f: GenericGF, p: Poly, q: Poly): Poly {
    if p == [] then [] else Add(Shift(Mul(f, Init(p), q)), Scale(f, Last(p), q))
  }

  /** Horner's rule; leading zeros are allowed here. */
  function Eval(f: GenericGF, p: Poly, a: nat): nat {
    if p == [] then 0 else Xor(Times(f, a, Eval(f, Init(p), a)), Last(p))
  }

  /** All coefficients below x^n vanish: p is a multiple of x^n. */
  predicate LowZero(p: Poly, n: nat) {
    forall i: nat :: i < n ==> At(p, i) == 0
  }

  // ---------------------------------------------------------------- representation

  lemma {:induction false} TrimAt(p: Poly)
    ensures Norm(Trim(p)) && |Trim(p)| <= |p|
    ensures forall i: nat :: At(Trim(p), i) == At(p, i)
    ensures forall n: nat :: Below(n, p) ==> Below(n, Trim(p))
    ensures Norm(p) ==> Trim(p) == p
  {
    if p != [] && p[0] == 0 {
      TrimAt(p[1..]);
      assert forall n: nat :: Below(n, p) ==> Below(n, p[1..]);
    }
  }

  lemma Ext(p: Poly, q: Poly)
    requires Norm(p) && Norm(q)
    requires forall i: nat :: At(p, i) == At(q, i)
    ensures p == q
  {
    assert p != [] ==> At(p, |p| - 1) == At(q, |p| - 1);
    assert q != [] ==> At(p, |q| - 1) == At(q, |q| - 1);
    forall k | 0 <= k < |p| ensures p[k] == q[k] {
      assert At(p, |p| - 1 - k) == At(q, |p| - 1 - k);
    }
  }

  lemma AtBelow(f: GenericGF, p: Poly, i: nat)
    requires f.size > 0 && Below(f.size, p)
    ensures At(p, i) < f.size
  {
  }

  lemma BelowAt(n: nat, p: Poly)
    requires forall i: nat :: i < |p| ==> At(p, i) < n
    ensures Below(n, p)
  {
    forall k | 0 <= k < |p| ensures p[k] < n {
      assert At(p, |p| - 1 - k) < n;
    }
  }

  lemma InitLast(f: GenericGF, p: Poly)
    requires Over(f, p) && p != []
    ensures Over(f, Init(p)) && Last(p) < f.size
    ensures forall i: nat :: At(p, i) == if i == 0 then Last(p) else At(Init(p), i - 1)
  {
  }

  // ---------------------------------------------------------------- addition

  lemma RawAddAt(p: Poly, q: Poly, i: nat)
    ensures At(RawAdd(p, q), i) == Xor(At(p, i), At(q, i))
  {
    hide Xor;
    XorZero(0);
  }

  lemma AddAt(p: Poly, q: Poly)
    ensures Norm(Add(p, q)) && |Add(p, q)| <= Max(|p|, |q|)
    ensures forall i: nat :: At(Add(p, q), i) == Xor(At(p, i), At(q, i))
  {
    hide Xor;
    TrimAt(RawAdd(p, q));
    forall i: nat ensures At(RawAdd(p, q), i) == Xor(At(p, i), At(q, i)) {
      RawAddAt(p, q, i);
    }
  }

  lemma AddOver(f: GenericGF, p: Poly, q: Poly)
    requires IsTwoPower(f.size) && Below(f.size, p) && Below(f.size, q)
    ensures Over(f, Add(p, q))
  {
    hide Xor;
    AddAt(p, q);
    forall i: nat | i < |Add(p, q)| ensures At(Add(p, q), i) < f.size {
      XorInField(f, At(p, i), At(q, i));
    }
    BelowAt(f.size, Add(p, q));
  }

  lemma AddZero(p: Poly)
    requires Norm(p)
    ensures Add(p, []) == p && Add([], p) == p && Add(p, p) == []
  {
    hide Xor;
    AddAt(p, []);
    AddAt([], p);
    AddAt(p, p);
    forall i: nat ensures Xor(At(p, i), 0) == At(p, i) == Xor(0, At(p, i)) && Xor(At(p, i), At(p, i)) == 0 {
      XorZero(At(p, i));
      XorSelf(At(p, i));
    }
    Ext(Add(p, []), p);
    Ext(Add([], p), p);
    Ext(Add(p, p), []);
  }

  lemma AddComm(p: Poly, q: Poly)
    ensures Add(p, q) == Add(q, p)
  {
    hide Xor;
    AddAt(p, q);
    AddAt(q, p);
    forall i: nat ensures Xor(At(p, i), At(q, i)) == Xor(At(q, i), At(p, i)) {
      XorComm(At(p, i), At(q, i));
    }
    Ext(Add(p, q), Add(q, p));
  }

  lemma AddAssoc(p: Poly, q: Poly, r: Poly)
    ensures Add(Add(p, q), r) == Add(p, Add(q, r))
  {
    hide Xor;
    AddAt(p, q);
    AddAt(q, r);
    AddAt(Add(p, q), r);
    AddAt(p, Add(q, r));
    forall i: nat ensures At(Add(Add(p, q), r), i) == At(Add(p, Add(q, r)), i) {
      XorAssoc(At(p, i), At(q, i), At(r, i));
    }
    Ext(Add(Add(p, q), r), Add(p, Add(q, r)));
  }

  lemma AddSwap(p: Poly, q: Poly, r: Poly, s: Poly)
    ensures Add(Add(p, q), Add(r, s)) == Add(Add(p, r), Add(q, s))
  {
    hide *;
    AddAssoc(p, q, Add(r, s));
    AddAssoc(q, r, s);
    AddComm(q, r);
    AddAssoc(r, q, s);
    AddAssoc(p, r, Add(q, s));
  }

  /** Adding twice undoes. */
  lemma AddCancel(p: Poly, q: Poly)
    requires Norm(p) && Norm(q)
    ensures Add(Add(p, q), q) == p && Add(p, Add(p, q)) == q
  {
    AddAssoc(p, q, q);
    AddAssoc(p, p, q);
    AddZero(p);
    AddZero(q);
  }

  lemma AddEqualsZero(p: Poly, q: Poly)
    requires Norm(p) && Norm(q) && Add(p, q) == []
    ensures p == q
  {
    AddCancel(p, q);
    AddZero(q);
  }

  lemma AddLonger(p: Poly, q: Poly)
    requires Norm(p) && |p| > |q|
    ensures |Add(p, q)| == |p| && Add(p, q)[0] == p[0]
  {
    AddAt(p, q);
    XorZero(p[0]);
    assert At(p, |p| - 1) == p[0];
    assert At(Add(p, q), |p| - 1) == p[0];
  }

  lemma AddSameLead(p: Poly, q: Poly)
    requires p != [] && |p| == |q| && p[0] == q[0]
    ensures |Add(p, q)| < |p|
  {
    hide Xor;
    AddAt(p, q);
    XorSelf(p[0]);
    assert At(p, |p| - 1) == p[0] && At(q, |p| - 1) == q[0];
    assert At(Add(p, q), |p| - 1) == 0;
  }

  // ---------------------------------------------------------------- scaling and shifting

  lemma ScaleAt(f: GenericGF, c: nat, p: Poly)
    requires f.Lawful() && c < f.size && Below(f.size, p)
    ensures Over(f, Scale(f, c, p)) && |Scale(f, c, p)| <= |p|
    ensures forall i: nat :: At(Scale(f, c, p), i) == Times(f, c, At(p, i))
    ensures c != 0 && Norm(p) ==> |Scale(f, c, p)| == |p|
  {
    hide Times, GenericGF.Lawful;
    FieldFacts(f);
    var r := RawScale(f, c, p);
    TrimAt(r);
    TimesZero(f, c);
    forall k | 0 <= k < |p| ensures r[k] < f.size && (r[k] == 0 <==> c == 0 || p[k] == 0) {
      TimesInField(f, c, p[k]);
    }
  }

  lemma ScaleAdd(f: GenericGF, c: nat, p: Poly, q: Poly)
    requires f.Lawful() && c < f.size && Over(f, p) && Over(f, q)
    ensures Scale(f, c, Add(p, q)) == Add(Scale(f, c, p), Scale(f, c, q))
  {
    hide Times, Xor, GenericGF.Lawful;
    FieldFacts(f);
    AddOver(f, p, q);
    AddAt(p, q);
    ScaleAt(f, c, p);
    ScaleAt(f, c, q);
    ScaleAt(f, c, Add(p, q));
    AddAt(Scale(f, c, p), Scale(f, c, q));
    forall i: nat ensures At(Scale(f, c, Add(p, q)), i) == At(Add(Scale(f, c, p), Scale(f, c, q)), i) {
      AtBelow(f, p, i);
      AtBelow(f, q, i);
      TimesXorRight(f, c, At(p, i), At(q, i));
    }
    Ext(Scale(f, c, Add(p, q)), Add(Scale(f, c, p), Scale(f, c, q)));
  }

  lemma ScaleXor(f: GenericGF, a: nat, b: nat, p: Poly)
    requires f.Lawful() && a < f.size && b < f.size && Over(f, p)
    ensures Xor(a, b) < f.size
    ensures Scale(f, Xor(a, b), p) == Add(Scale(f, a, p), Scale(f, b, p))
  {
    hide Times, Xor, GenericGF.Lawful;
    FieldFacts(f);
    XorInField(f, a, b);
    ScaleAt(f, a, p);
    ScaleAt(f, b, p);
    ScaleAt(f, Xor(a, b), p);
    AddAt(Scale(f, a, p), Scale(f, b, p));
    forall i: nat ensures At(Scale(f, Xor(a, b), p), i) == At(Add(Scale(f, a, p), Scale(f, b, p)), i) {
      TimesXorLeft(f, a, b, At(p, i));
    }
    Ext(Scale(f, Xor(a, b), p), Add(Scale(f, a, p), Scale(f, b, p)));
  }

  lemma ScaleScale(f: GenericGF, a: nat, b: nat, p: Poly)
    requires f.Lawful() && a < f.size && b < f.size && Over(f, p)
    ensures Times(f, a, b) < f.size
    ensures Scale(f, a, Scale(f, b, p)) == Scale(f, Times(f, a, b), p)
  {
    hide Times, GenericGF.Lawful;
    FieldFacts(f);
    TimesInField(f, a, b);
    ScaleAt(f, b, p);
    ScaleAt(f, a, Scale(f, b, p));
    ScaleAt(f, Times(f, a, b), p);
    forall i: nat ensures At(Scale(f, a, Scale(f, b, p)), i) == At(Scale(f, Times(f, a, b), p), i) {
      AtBelow(f, p, i);
      TimesAssoc(f, a, b, At(p, i));
    }
    Ext(Scale(f, a, Scale(f, b, p)), Scale(f, Times(f, a, b), p));
  }

  lemma ScaleOneZero(f: GenericGF, p: Poly)
    requires f.Lawful() && Over(f, p)
    ensures Scale(f, 1, p) == p && Scale(f, 0, p) == []
  {
    hide Times, GenericGF.Lawful;
    FieldFacts(f);
    ScaleAt(f, 1, p);
    ScaleAt(f, 0, p);
    forall i: nat ensures Times(f, 1, At(p, i)) == At(p, i) && Times(f, 0, At(p, i)) == 0 {
      AtBelow(f, p, i);
      TimesOne(f, At(p, i));
      TimesZero(f, At(p, i));
    }
    Ext(Scale(f, 1, p), p);
    Ext(Scale(f, 0, p), []);
  }

  lemma ShiftAt(f: GenericGF, p: Poly)
    requires f.size > 0 && Over(f, p)
    ensures Over(f, Shift(p))
    ensures forall i: nat :: At(Shift(p), i) == if i == 0 then 0 else At(p, i - 1)
  {
  }

  lemma ShiftAdd(f: GenericGF, p: Poly, q: Poly)
    requires f.Lawful() && Over(f, p) && Over(f, q)
    ensures Shift(Add(p, q)) == Add(Shift(p), Shift(q))
  {
    hide Xor, GenericGF.Lawful;
    FieldFacts(f);
    AddOver(f, p, q);
    AddAt(p, q);
    ShiftAt(f, p);
    ShiftAt(f, q);
    ShiftAt(f, Add(p, q));
    AddAt(Shift(p), Shift(q));
    XorZero(0);
    Ext(Shift(Add(p, q)), Add(Shift(p), Shift(q)));
  }

  lemma ShiftScale(f: GenericGF, c: nat, p: Poly)
    requires f.Lawful() && c < f.size && Over(f, p)
    ensures Shift(Scale(f, c, p)) == Scale(f, c, Shift(p))
  {
    hide Times, GenericGF.Lawful;
    FieldFacts(f);
    ScaleAt(f, c, p);
    ShiftAt(f, p);
    ShiftAt(f, Scale(f, c, p));
    ScaleAt(f, c, Shift(p));
    TimesZero(f, c);
    Ext(Shift(Scale(f, c, p)), Scale(f, c, Shift(p)));
  }

  /** A nonzero polynomial is x times its initial part plus its constant. */
  lemma SplitLast(f: GenericGF, p: Poly)
    requires f.Lawful() && Over(f, p) && p != []
    ensures Over(f, Init(p)) && Last(p) < f.size
    ensures Over(f, Shift(Init(p))) && Over(f, Scale(f, Last(p), UNIT))
    ensures p == Add(Shift(Init(p)), Scale(f, Last(p), UNIT))
  {
    hide Xor, Times, GenericGF.Lawful;
    FieldFacts(f);
    var c := Last(p);
    InitLast(f, p);
    ShiftAt(f, Init(p));
    ScaleAt(f, c, UNIT);
    AddAt(Shift(Init(p)), Scale(f, c, UNIT));
    TimesOne(f, c);
    TimesZero(f, c);
    XorZero(c);
    forall i: nat ensures At(Add(Shift(Init(p)), Scale(f, c, UNIT)), i) == At(p, i) {
      XorZero(At(p, i));
    }
    Ext(p, Add(Shift(Init(p)), Scale(f, c, UNIT)));
  }

  lemma {:induction false} ShiftByLen(f: GenericGF, p: Poly, n: nat)
    requires f.Lawful() && Over(f, p)
    ensures Over(f, ShiftBy(p, n)) && LowZero(ShiftBy(p, n), n)
    ensures |ShiftBy(p, n)| == if p == [] then 0 else |p| + n
  {
    if n > 0 {
      ShiftByLen(f, p, n - 1);
      ShiftAt(f, ShiftBy(p, n - 1));
    }
  }

  // ---------------------------------------------------------------- multiplication

  lemma {:induction false} MulOver(f: GenericGF, p: Poly, q: Poly)
    requires f.Lawful() && Over(f, p) && Over(f, q)
    ensures Over(f, Mul(f, p, q))
    ensures p != [] ==> Over(f, Shift(Mul(f, Init(p), q))) && Over(f, Scale(f, Last(p), q))
    ensures q == [] ==> Mul(f, p, q) == []
    decreases |p|
  {
    if p != [] {
      InitLast(f, p);
      MulOver(f, Init(p), q);
      ShiftAt(f, Mul(f, Init(p), q));
      ScaleAt(f, Last(p), q);
      AddOver(f, Shift(Mul(f, Init(p), q)), Scale(f, Last(p), q));
      if q == [] {
        AddZero([]);
      }
    }
  }

  lemma {:induction false} MulAddRight(f: GenericGF, p: Poly, q: Poly, r: Poly)
    requires f.Lawful() && Over(f, p) && Over(f, q) && Over(f, r)
    ensures Mul(f, p, Add(q, r)) == Add(Mul(f, p, q), Mul(f, p, r))
    decreases |p|
  {
    if p == [] {
      AddZero([]);
    } else {
      InitLast(f, p);
      var i, c := Init(p), Last(p);
      MulAddRight(f, i, q, r);
      MulOver(f, i, q);
      MulOver(f, i, r);
      ShiftAdd(f, Mul(f, i, q), Mul(f, i, r));
      ScaleAdd(f, c, q, r);
      AddSwap(Shift(Mul(f, i, q)), Shift(Mul(f, i, r)), Scale(f, c, q), Scale(f, c, r));
    }
  }

  lemma {:induction false} MulShiftRight(f: GenericGF, p: Poly, q: Poly)
    requires f.Lawful() && Over(f, p) && Over(f, q)
    ensures Mul(f, p, Shift(q)) == Shift(Mul(f, p, q))
    decreases |p|
  {
    if p != [] {
      InitLast(f, p);
      var i, c := Init(p), Last(p);
      MulShiftRight(f, i, q);
      MulOver(f, p, q);
      MulOver(f, i, q);
      ShiftScale(f, c, q);
      ShiftAdd(f, Shift(Mul(f, i, q)), Scale(f, c, q));
    }
  }

  lemma {:induction false} MulScaleRight(f: GenericGF, p: Poly, c: nat, q: Poly)
    requires f.Lawful() && Over(f, p) && Over(f, q) && c < f.size
    ensures Mul(f, p, Scale(f, c, q)) == Scale(f, c, Mul(f, p, q))
    decreases |p|
  {
    ScaleAt(f, c, []);
    if p != [] {
      InitLast(f, p);
      var i, d := Init(p), Last(p);
      MulScaleRight(f, i, c, q);
      MulOver(f, p, q);
      MulOver(f, i, q);
      ShiftScale(f, c, Mul(f, i, q));
      ScaleScale(f, c, d, q);
      ScaleScale(f, d, c, q);
      TimesComm(f, c, d);
      ScaleAdd(f, c, Shift(Mul(f, i, q)), Scale(f, d, q));
    }
  }

  lemma EmptyProduct(f: GenericGF, p: Poly)
    ensures Mul(f, [], p) == []
  {
  }

  lemma {:induction false} MulOne(f: GenericGF, p: Poly)
    requires f.Lawful() && Over(f, p)
    ensures Mul(f, p, UNIT) == p && Mul(f, UNIT, p) == p
    decreases |p|
  {
    ScaleOneZero(f, p);
    AddZero(p);
    assert Init(UNIT) == [] && Last(UNIT) == 1;
    if p != [] {
      SplitLast(f, p);
      MulOne(f, Init(p));
    }
  }

  /** Multiplication commutes. */
  lemma {:induction false} MulComm(f: GenericGF, p: Poly, q: Poly)
    requires f.Lawful() && Over(f, p) && Over(f, q)
    ensures Mul(f, p, q) == Mul(f, q, p)
    decreases |p|
  {
    if p == [] {
      MulOver(f, q, p);
    } else {
      SplitLast(f, p);
      var i, c := Init(p), Last(p);
      MulComm(f, i, q);
      assert Over(f, UNIT);
      MulAddRight(f, q, Shift(i), Scale(f, c, UNIT));
      MulShiftRight(f, q, i);
      MulScaleRight(f, q, c, UNIT);
      MulOne(f, q);
    }
  }

  lemma MulAddLeft(f: GenericGF, p: Poly, q: Poly, r: Poly)
    requires f.Lawful() && Over(f, p) && Over(f, q) && Over(f, r)
    ensures Mul(f, Add(p, q), r) == Add(Mul(f, p, r), Mul(f, q, r))
  {
    AddOver(f, p, q);
    MulComm(f, Add(p, q), r);
    MulComm(f, p, r);
    MulComm(f, q, r);
    MulAddRight(f, r, p, q);
  }

  lemma MulShiftLeft(f: GenericGF, p: Poly, q: Poly)
    requires f.Lawful() && Over(f, p) && Over(f, q)
    ensures Mul(f, Shift(p), q) == Shift(Mul(f, p, q))
  {
    ShiftAt(f, p);
    MulComm(f, Shift(p), q);
    MulComm(f, p, q);
    MulShiftRight(f, q, p);
  }

  lemma MulScaleLeft(f: GenericGF, c: nat, p: Poly, q: Poly)
    requires f.Lawful() && Over(f, p) && Over(f, q) && c < f.size
    ensures Mul(f, Scale(f, c, p), q) == Scale(f, c, Mul(f, p, q))
  {
    ScaleAt(f, c, p);
    MulComm(f, Scale(f, c, p), q);
    MulComm(f, p, q);
    MulScaleRight(f, q, c, p);
  }

  /** Multiplication associates. */
  lemma {:induction false} MulAssoc(f: GenericGF, p: Poly, q: Poly, r: Poly)
    requires f.Lawful() && Over(f, p) && Over(f, q) && Over(f, r)
    ensures Mul(f, Mul(f, p, q), r) == Mul(f, p, Mul(f, q, r))
    decreases |p|
  {
    if p != [] {
      InitLast(f, p);
      var i, c := Init(p), Last(p);
      MulAssoc(f, i, q, r);
      MulOver(f, p, q);
      MulOver(f, i, q);
      MulAddLeft(f, Shift(Mul(f, i, q)), Scale(f, c, q), r);
      MulShiftLeft(f, Mul(f, i, q), r);
      MulScaleLeft(f, c, q, r);
    }
  }

  lemma {:induction false} MulShiftBy(f: GenericGF, p: Poly, q: Poly, n: nat)
    requires f.Lawful() && Over(f, p) && Over(f, q)
    ensures Mul(f, p, ShiftBy(q, n)) == ShiftBy(Mul(f, p, q), n)
  {
    hide Times, Xor, GenericGF.Lawful, Mul;
    if n > 0 {
      MulShiftBy(f, p, q, n - 1);
      ShiftByLen(f, q, n - 1);
      MulShiftRight(f, p, ShiftBy(q, n - 1));
    }
  }

  /** Degrees add: a field has no zero divisors. */
  lemma {:induction false} MulDegree(f: GenericGF, p: Poly, q: Poly)
    requires f.Lawful() && Over(f, p) && Over(f, q) && p != [] && q != []
    ensures |Mul(f, p, q)| == |p| + |q| - 1
    decreases |p|
  {
    var i, c := Init(p), Last(p);
    InitLast(f, p);
    MulOver(f, p, q);
    ScaleAt(f, c, q);
    if i == [] {
      AddZero(Scale(f, c, q));
    } else {
      MulDegree(f, i, q);
      AddLonger(Shift(Mul(f, i, q)), Scale(f, c, q));
    }
  }

  lemma MulCancel(f: GenericGF, p: Poly, q: Poly, r: Poly)
    requires f.Lawful() && Over(f, p) && Over(f, q) && Over(f, r) && p != []
    requires Mul(f, p, q) == Mul(f, p, r)
    ensures q == r
  {
    AddOver(f, q, r);
    MulAddRight(f, p, q, r);
    MulOver(f, p, q);
    AddZero(Mul(f, p, q));
    if Add(q, r) != [] {
      MulDegree(f, p, Add(q, r));
    } else {
      AddEqualsZero(q, r);
    }
  }

  // ---------------------------------------------------------------- multiples of x^n

  lemma LowZeroAdd(p: Poly, q: Poly, n: nat)
    requires LowZero(p, n) && LowZero(q, n)
    ensures LowZero(Add(p, q), n)
  {
    AddAt(p, q);
    XorZero(0);
  }

  lemma {:induction false} LowZeroMul(f: GenericGF, p: Poly, q: Poly, n: nat)
    requires f.Lawful() && Over(f, p) && Over(f, q) && LowZero(q, n)
    ensures LowZero(Mul(f, p, q), n)
    decreases |p|
  {
    hide Times, Xor, GenericGF.Lawful;
    FieldFacts(f);
    if p != [] {
      InitLast(f, p);
      MulOver(f, Init(p), q);
      LowZeroMul(f, Init(p), q, n);
      ShiftAt(f, Mul(f, Init(p), q));
      ScaleAt(f, Last(p), q);
      TimesZero(f, Last(p));
      LowZeroAdd(Shift(Mul(f, Init(p), q)), Scale(f, Last(p), q), n);
    }
  }

  lemma LowZeroShort(p: Poly, n: nat)
    requires Norm(p) && LowZero(p, n) && |p| <= n
    ensures p == []
  {
    assert p != [] ==> At(p, |p| - 1) != 0;
  }

  // ---------------------------------------------------------------- evaluation

  lemma {:induction false} EvalInField(f: GenericGF, p: Poly, a: nat)
    requires f.Lawful() && Below(f.size, p) && a < f.size
    ensures Eval(f, p, a) < f.size
    decreases |p|
  {
    hide Times, Xor, GenericGF.Lawful;
    FieldFacts(f);
    if p != [] {
      EvalInField(f, Init(p), a);
      TimesInField(f, a, Eval(f, Init(p), a));
      XorInField(f, Times(f, a, Eval(f, Init(p), a)), Last(p));
    }
  }

  lemma {:induction false} EvalTrim(f: GenericGF, p: Poly, a: nat)
    ensures Eval(f, Trim(p), a) == Eval(f, p, a)
    decreases |p|
  {
    if p != [] && p[0] == 0 {
      EvalTrim(f, p[1..], a);
      EvalLeadingZero(f, p, a);
    }
  }

  lemma {:induction false} EvalLeadingZero(f: GenericGF, p: Poly, a: nat)
    requires p != [] && p[0] == 0
    ensures Eval(f, p, a) == Eval(f, p[1..], a)
    decreases |p|
  {
    hide Times, Xor;
    TimesZero(f, a);
    XorZero(0);
    if |p| > 1 {
      EvalLeadingZero(f, Init(p), a);
      assert Init(p)[1..] == Init(p[1..]);
    }
  }

  lemma {:induction false} EvalRawAdd(f: GenericGF, p: Poly, q: Poly, a: nat)
    requires f.Lawful() && Below(f.size, p) && Below(f.size, q) && a < f.size && |p| == |q|
    ensures Eval(f, RawAdd(p, q), a) == Xor(Eval(f, p, a), Eval(f, q, a))
    decreases |p|
  {
    hide Times, Xor, GenericGF.Lawful;
    FieldFacts(f);
    XorZero(0);
    if p != [] {
      var s := RawAdd(p, q);
      EvalRawAdd(f, Init(p), Init(q), a);
      RawAddInit(p, q);
      RawAddAt(p, q, 0);
      assert Last(s) == At(s, 0);
      var u, v := Eval(f, Init(p), a), Eval(f, Init(q), a);
      EvalInField(f, Init(p), a);
      EvalInField(f, Init(q), a);
      TimesXorRight(f, a, u, v);
      XorSwap(Times(f, a, u), Times(f, a, v), Last(p), Last(q));
    }
  }

  lemma RawAddInit(p: Poly, q: Poly)
    requires p != [] && |p| == |q|
    ensures Init(RawAdd(p, q)) == RawAdd(Init(p), Init(q))
  {
    hide Xor;
    var r, s := Init(RawAdd(p, q)), RawAdd(Init(p), Init(q));
    forall k | 0 <= k < |r| ensures r[k] == s[k] {
      RawAddAt(p, q, |p| - 1 - k);
      RawAddAt(Init(p), Init(q), |s| - 1 - k);
      assert r[k] == At(RawAdd(p, q), |p| - 1 - k);
      assert s[k] == At(s, |s| - 1 - k);
    }
  }

  function Pad(p: Poly, n: nat): (r: Poly)
    requires |p| <= n
    ensures |r| == n && (forall i: nat :: At(r, i) == At(p, i))
  {
    seq(n - |p|, _ => 0) + p
  }

  lemma {:induction false} EvalPad(f: GenericGF, p: Poly, n: nat, a: nat)
    requires |p| <= n
    ensures Eval(f, Pad(p, n), a) == Eval(f, p, a)
    decreases n
  {
    if |p| < n {
      EvalPad(f, p, n - 1, a);
      EvalLeadingZero(f, Pad(p, n), a);
      assert Pad(p, n)[1..] == Pad(p, n - 1);
    } else {
      assert Pad(p, n) == p;
    }
  }

  lemma EvalAdd(f: GenericGF, p: Poly, q: Poly, a: nat)
    requires f.Lawful() && Below(f.size, p) && Below(f.size, q) && a < f.size
    ensures Eval(f, Add(p, q), a) == Xor(Eval(f, p, a), Eval(f, q, a))
  {
    hide Times, Xor, GenericGF.Lawful;
    FieldFacts(f);
    var n := Max(|p|, |q|);
    var p', q' := Pad(p, n), Pad(q, n);
    EvalPad(f, p, n, a);
    EvalPad(f, q, n, a);
    EvalRawAdd(f, p', q', a);
    assert RawAdd(p', q') == RawAdd(p, q) by {
      var r, s := RawAdd(p', q'), RawAdd(p, q);
      forall k | 0 <= k < n ensures r[k] == s[k] {
        RawAddAt(p', q', n - 1 - k);
        RawAddAt(p, q, n - 1 - k);
        assert r[k] == At(r, n - 1 - k) && s[k] == At(s, n - 1 - k);
      }
    }
    EvalTrim(f, RawAdd(p, q), a);
  }

  lemma {:induction false} EvalScale(f: GenericGF, c: nat, p: Poly, a: nat)
    requires f.Lawful() && Below(f.size, p) && a < f.size && c < f.size
    ensures Eval(f, Scale(f, c, p), a) == Times(f, c, Eval(f, p, a))
    decreases |p|
  {
    EvalTrim(f, RawScale(f, c, p), a);
    EvalRawScale(f, c, p, a);
  }

  lemma {:induction false} EvalRawScale(f: GenericGF, c: nat, p: Poly, a: nat)
    requires f.Lawful() && Below(f.size, p) && a < f.size && c < f.size
    ensures Eval(f, RawScale(f, c, p), a) == Times(f, c, Eval(f, p, a))
    decreases |p|
  {
    hide Times, Xor, GenericGF.Lawful;
    FieldFacts(f);
    TimesZero(f, c);
    if p != [] {
      var s, e, l := RawScale(f, c, p), Eval(f, Init(p), a), Last(p);
      EvalRawScale(f, c, Init(p), a);
      assert Init(s) == RawScale(f, c, Init(p));
      EvalInField(f, Init(p), a);
      TimesInField(f, a, e);
      TimesXorRight(f, c, Times(f, a, e), l);
      TimesAssoc(f, c, a, e);
      TimesAssoc(f, a, c, e);
      TimesComm(f, a, c);
    }
  }

  lemma EvalShift(f: GenericGF, p: Poly, a: nat)
    ensures Eval(f, Shift(p), a) == Times(f, a, Eval(f, p, a))
  {
    hide Times, Xor;
    TimesZero(f, a);
    if p != [] {
      assert Init(Shift(p)) == p && Last(Shift(p)) == 0;
      XorZero(Times(f, a, Eval(f, p, a)));
    }
  }

  /** Evaluation is multiplicative. */
  lemma {:induction false} EvalMul(f: GenericGF, p: Poly, q: Poly, a: nat)
    requires f.Lawful() && Over(f, p) && Over(f, q) && a < f.size
    ensures Eval(f, Mul(f, p, q), a) == Times(f, Eval(f, p, a), Eval(f, q, a))
    decreases |p|
  {
    hide Times, Xor, GenericGF.Lawful;
    FieldFacts(f);
    var v := Eval(f, q, a);
    TimesZero(f, v);
    EvalInField(f, q, a);
    if p != [] {
      InitLast(f, p);
      var i, c := Init(p), Last(p);
      var u := Eval(f, i, a);
      EvalMul(f, i, q, a);
      MulOver(f, p, q);
      EvalInField(f, i, a);
      EvalAdd(f, Shift(Mul(f, i, q)), Scale(f, c, q), a);
      EvalShift(f, Mul(f, i, q), a);
      EvalScale(f, c, q, a);
      TimesAssoc(f, a, u, v);
      TimesXorLeft(f, Times(f, a, u), c, v);
    }
  }
}
