/** The coefficient-array polynomial class: every operation fills a fresh buffer in loops and hands
    it to the constructor, which drops leading zeros. Each is proved to compute the operation of
    Polynomials on the values. The zero polynomial is stored as the one-element array [0]. */
module GenericGFPoly {
  import opened BinaryDigits
  import opened GaloisField
  import opened Polynomials
  import opened Wrappers

  datatype GFPoly = GFPoly(coefficients: seq<nat>)
  {
    ghost predicate Valid(f: GenericGF) {
      && |coefficients| > 0
      && (|coefficients| > 1 ==> coefficients[0] != 0)
      && Below(f.size, coefficients)
    }

    ghost function Value(): Poly {
      if coefficients == [0] then [] else coefficients
    }

    function GetDegree(): nat
      requires |coefficients| > 0
    {
      |coefficients| - 1
    }

    predicate IsZero()
      requires |coefficients| > 0
    {
      coefficients[0] == 0
    }

    function GetCoefficient(i: nat): nat
      requires i < |coefficients|
    {
      coefficients[|coefficients| - 1 - i]
    }
  }

  const ZERO := GFPoly([0])
  const ONE := GFPoly([1])

  lemma ValueFacts(f: GenericGF, p: GFPoly)
    requires f.Lawful() && p.Valid(f)
    ensures Over(f, p.Value())
    ensures p.IsZero() <==> p.Value() == []
    ensures !p.IsZero() ==> p.Value() == p.coefficients
    ensures forall i: nat :: At(p.Value(), i) == At(p.coefficients, i)
  {
  }

  lemma TrimDropsZeros(a: seq<nat>, k: nat)
    requires k <= |a| && (forall i :: 0 <= i < k ==> a[i] == 0) && (k < |a| ==> a[k] != 0)
    ensures Trim(a) == a[k..]
  {
    if k > 0 {
      TrimDropsZeros(a[1..], k - 1);
    }
  }

  /** The constructor: an empty array is refused, leading zeros are dropped. */
  method New(ghost f: GenericGF, a: seq<nat>) returns (r: Option<GFPoly>)
    requires f.Lawful() && Below(f.size, a)
    ensures r == None <==> a == []
    ensures r.Some? ==> r.value.Valid(f) && r.value.Value() == Trim(a)
  {
    if |a| == 0 {
      return None;
    }
    if |a| > 1 && a[0] == 0 {
      var t := 1;
      while t < |a| && a[t] == 0
        invariant 1 <= t <= |a|
        invariant forall i :: 0 <= i < t ==> a[i] == 0
      {
        t := t + 1;
      }
      TrimDropsZeros(a, t);
      r := Some(GFPoly(if t == |a| then [0] else a[t..]));
    } else {
      r := Some(GFPoly(a));
      TrimDropsZeros(a, if a[0] == 0 then 1 else 0);
    }
  }

  /** The monomial c*x^n, or the shared zero. */
  method BuildMonomial(f: GenericGF, n: nat, c: nat) returns (r: GFPoly)
    requires f.Lawful() && c < f.size
    ensures r.Valid(f) && r.Value() == ShiftBy(Scale(f, c, UNIT), n)
    ensures c != 0 ==> |r.coefficients| == n + 1 && r.coefficients[0] == c
  {
    MonomialValue(f, n, c);
    if c == 0 {
      return ZERO;
    }
    var a := new nat[n + 1](_ => 0);
    a[0] := c;
    var o := New(f, a[..]);
    r := o.value;
    TrimDropsZeros(a[..], 0);
    assert a[..] == [c] + seq(n, _ => 0);
  }

  lemma {:induction false} MonomialValue(f: GenericGF, n: nat, c: nat)
    requires f.Lawful() && c < f.size
    ensures ShiftBy(Scale(f, c, UNIT), n) == if c == 0 then [] else [c] + seq(n, _ => 0)
  {
    if n == 0 {
      ScaleOneZero(f, UNIT);
      TimesOne(f, c);
      assert RawScale(f, c, UNIT) == [c];
    } else {
      MonomialValue(f, n - 1, c);
      assert seq(n - 1, _ => 0) + [0] == seq(n, _ => 0);
    }
  }

  method EvaluateAt(f: GenericGF, p: GFPoly, a: nat) returns (r: nat)
    requires f.Lawful() && p.Valid(f) && a < f.size
    ensures r == Eval(f, p.Value(), a) == Eval(f, p.coefficients, a)
  {
    hide Times, Xor;
    var e := p.coefficients;
    EvalTrim(f, e, a);
    TrimDropsZeros(e, if e[0] == 0 then 1 else 0);
    if a == 0 {
      EvalZeroOne(f, e);
      return p.GetCoefficient(0);
    }
    if a == 1 {
      r := 0;
      for t := 0 to |e|
        invariant r == Eval(f, e[..t], 1)
      {
        EvalExtend(f, e, t, 1);
        EvalInField(f, e[..t], 1);
        TimesOne(f, r);
        r := Xor(r, e[t]);
      }
      assert e[..|e|] == e;
      return;
    }
    r := e[0];
    EvalExtend(f, e, 0, a);
    TimesZero(f, a);
    XorZero(e[0]);
    for s := 1 to |e|
      invariant r == Eval(f, e[..s], a)
    {
      EvalExtend(f, e, s, a);
      EvalInField(f, e[..s], a);
      r := Xor(f.Multiply(a, r), e[s]);
    }
    assert e[..|e|] == e;
  }

  lemma EvalExtend(f: GenericGF, e: seq<nat>, t: nat, a: nat)
    requires t < |e|
    ensures Eval(f, e[..t + 1], a) == Xor(Times(f, a, Eval(f, e[..t], a)), e[t])
  {
    assert Init(e[..t + 1]) == e[..t] && Last(e[..t + 1]) == e[t];
  }

  lemma EvalZeroOne(f: GenericGF, e: seq<nat>)
    requires f.Lawful() && Below(f.size, e) && e != []
    ensures Eval(f, e, 0) == Last(e)
  {
    TimesZero(f, Eval(f, Init(e), 0));
    XorZero(Last(e));
  }

  method AddOrSubtract(f: GenericGF, p: GFPoly, q: GFPoly) returns (r: GFPoly)
    requires f.Lawful() && p.Valid(f) && q.Valid(f)
    ensures r.Valid(f) && r.Value() == Add(p.Value(), q.Value())
  {
    hide Times, Xor;
    ValueFacts(f, p);
    ValueFacts(f, q);
    if p.IsZero() {
      AddZero(q.Value());
      return q;
    }
    if q.IsZero() {
      AddZero(p.Value());
      return p;
    }
    var small, large := p.coefficients, q.coefficients;
    if |small| > |large| {
      small, large := large, small;
    }
    var n := new nat[|large|];
    var d := |large| - |small|;
    ArrayCopy(large, 0, n, 0, d);
    for t := d to |large|
      invariant forall k :: 0 <= k < d ==> n[k] == large[k]
      invariant forall k :: d <= k < t ==> n[k] == Xor(small[k - d], large[k])
    {
      n[t] := Xor(small[t - d], large[t]);
    }
    SumBuffer(f, small, large, n[..]);
    AddComm(p.Value(), q.Value());
    var o := New(f, n[..]);
    r := o.value;
  }

  lemma SumBuffer(f: GenericGF, small: seq<nat>, large: seq<nat>, n: seq<nat>)
    requires f.Lawful() && Over(f, small) && Over(f, large) && |small| <= |large| == |n|
    requires var d := |large| - |small|;
             (forall k :: 0 <= k < d ==> n[k] == large[k]) &&
             (forall k :: d <= k < |n| ==> n[k] == Xor(small[k - d], large[k]))
    ensures Below(f.size, n) && Trim(n) == Add(small, large)
  {
    hide Xor, GenericGF.Lawful;
    FieldFacts(f);
    forall k | 0 <= k < |n| ensures n[k] < f.size {
      if k >= |large| - |small| {
        XorInField(f, small[k - (|large| - |small|)], large[k]);
      }
    }
    forall i: nat ensures At(n, i) == Xor(At(small, i), At(large, i)) {
      SumBufferAt(small, large, n, i);
    }
    hide At;
    AddAt(small, large);
    TrimAt(n);
    Ext(Trim(n), Add(small, large));
  }

  lemma SumBufferAt(small: seq<nat>, large: seq<nat>, n: seq<nat>, i: nat)
    requires |small| <= |large| == |n|
    requires var d := |large| - |small|;
             (forall k :: 0 <= k < d ==> n[k] == large[k]) &&
             (forall k :: d <= k < |n| ==> n[k] == Xor(small[k - d], large[k]))
    ensures At(n, i) == Xor(At(small, i), At(large, i))
  {
    hide Xor;
    XorZero(At(large, i));
    XorZero(0);
  }

  /** The copying loop shared by the whole library. */
  method ArrayCopy(src: seq<nat>, from: nat, dst: array<nat>, to: nat, n: nat)
    requires from + n <= |src| && to + n <= dst.Length
    modifies dst
    ensures forall k :: 0 <= k < dst.Length ==>
              dst[k] == if to <= k < to + n then src[from + k - to] else old(dst[k])
  {
    var i := 0;
    while i < n
      invariant i <= n
      invariant forall k :: 0 <= k < dst.Length ==>
                  dst[k] == if to <= k < to + i then src[from + k - to] else old(dst[k])
    {
      dst[to + i] := src[from + i];
      i := i + 1;
    }
  }

  method Multiply(f: GenericGF, p: GFPoly, q: GFPoly) returns (r: GFPoly)
    requires f.Lawful() && p.Valid(f) && q.Valid(f)
    ensures r.Valid(f) && r.Value() == Mul(f, p.Value(), q.Value())
  {
    hide Times, Xor, RowsDone, Mul, Trim, GenericGF.Lawful;
    ValueFacts(f, p);
    ValueFacts(f, q);
    MulZero(f, p.Value(), q.Value());
    if p.IsZero() || q.IsZero() {
      return ZERO;
    }
    var e, n := p.coefficients, q.coefficients;
    var s := new nat[|e| + |n| - 1](_ => 0);
    RowsStart(f, e, n, s[..]);
    for t := 0 to |e|
      invariant RowsDone(f, e, t, n, s[..])
    {
      ghost var before := s[..];
      RowsBelow(f, e, t, n, before);
      MultiplyRow(f, s, t, e[t], n);
      RowStep(f, e, t, n, before, s[..]);
    }
    RowsEnd(f, e, n, s[..]);
    var o := New(f, s[..]);
    r := o.value;
  }

  lemma MulZero(f: GenericGF, p: Poly, q: Poly)
    requires f.Lawful() && Over(f, p) && Over(f, q)
    ensures p == [] || q == [] ==> Mul(f, p, q) == []
    ensures ZERO.Valid(f) && ZERO.Value() == []
  {
    hide Times, Xor;
    MulOver(f, p, q);
    FieldFacts(f);
  }

  /** The first t rows of the product are in the buffer s. */
  ghost predicate RowsDone(f: GenericGF, e: seq<nat>, t: nat, n: seq<nat>, s: seq<nat>)
    requires n != [] && t <= |e| && |s| == |e| + |n| - 1
  {
    && Below(f.size, s)
    && Trim(s[..t + |n| - 1]) == Mul(f, e[..t], n)
    && forall k :: t + |n| - 1 <= k < |s| ==> s[k] == 0
  }

  lemma RowsStart(f: GenericGF, e: seq<nat>, n: seq<nat>, s: seq<nat>)
    requires f.Lawful() && n != [] && |s| == |e| + |n| - 1 && (forall k :: 0 <= k < |s| ==> s[k] == 0)
    ensures RowsDone(f, e, 0, n, s)
  {
    TrimDropsZeros(s[..|n| - 1], |n| - 1);
  }

  lemma RowsBelow(f: GenericGF, e: seq<nat>, t: nat, n: seq<nat>, s: seq<nat>)
    requires n != [] && t <= |e| && |s| == |e| + |n| - 1 && RowsDone(f, e, t, n, s)
    ensures Below(f.size, s)
  {
  }

  lemma RowsEnd(f: GenericGF, e: seq<nat>, n: seq<nat>, s: seq<nat>)
    requires n != [] && |s| == |e| + |n| - 1 && RowsDone(f, e, |e|, n, s)
    ensures Below(f.size, s) && Trim(s) == Mul(f, e, n)
  {
    assert e[..|e|] == e && s[..|e| + |n| - 1] == s;
  }

  lemma RowStep(f: GenericGF, e: seq<nat>, t: nat, n: seq<nat>, before: seq<nat>, after: seq<nat>)
    requires f.Lawful() && Over(f, e) && Over(f, n) && n != [] && t < |e|
    requires |before| == |after| == |e| + |n| - 1 && RowsDone(f, e, t, n, before) && Below(f.size, after)
    requires forall k :: 0 <= k < |before| ==>
               after[k] == if t <= k < t + |n| then Xor(before[k], Times(f, e[t], n[k - t])) else before[k]
    ensures RowsDone(f, e, t + 1, n, after)
  {
    hide Times, Xor, GenericGF.Lawful;
    FieldFacts(f);
    var b, a := before[..t + |n|], after[..t + |n|];
    assert Init(b) == before[..t + |n| - 1];
    RowBuffer(f, e, t, n, b, a);
  }

  /** The inner loop of the product: adds c*n into the buffer from position t on. */
  method MultiplyRow(f: GenericGF, s: array<nat>, t: nat, c: nat, n: seq<nat>)
    requires f.Lawful() && Below(f.size, s[..]) && Below(f.size, n) && c < f.size && t + |n| <= s.Length
    modifies s
    ensures Below(f.size, s[..])
    ensures forall k :: 0 <= k < s.Length ==>
              s[k] == if t <= k < t + |n| then Xor(old(s[k]), Times(f, c, n[k - t])) else old(s[k])
  {
    hide Times, Xor;
    for j := 0 to |n|
      invariant Below(f.size, s[..])
      invariant forall k :: 0 <= k < s.Length ==>
                  s[k] == if t <= k < t + j then Xor(old(s[k]), Times(f, c, n[k - t])) else old(s[k])
    {
      var product := f.Multiply(c, n[j]);
      XorInField(f, s[t + j], product);
      s[t + j] := Xor(s[t + j], product);
    }
  }

  /** One row of the schoolbook product. */
  lemma RowBuffer(f: GenericGF, e: seq<nat>, t: nat, n: seq<nat>, before: seq<nat>, after: seq<nat>)
    requires f.Lawful() && Over(f, e) && Over(f, n) && n != [] && t < |e|
    requires |before| == |after| == t + |n| && Last(before) == 0
    requires Below(f.size, before)
    requires Trim(Init(before)) == Mul(f, e[..t], n)
    requires forall k :: 0 <= k < t ==> after[k] == before[k]
    requires forall k :: t <= k < |after| ==> after[k] == Xor(before[k], Times(f, e[t], n[k - t]))
    ensures Trim(after) == Mul(f, e[..t + 1], n)
  {
    hide Times, Xor, GenericGF.Lawful;
    FieldFacts(f);
    var c, m := e[t], Mul(f, e[..t], n);
    assert Init(e[..t + 1]) == e[..t] && Last(e[..t + 1]) == c;
    MulOver(f, e[..t], n);
    ShiftAt(f, m);
    ScaleAt(f, c, n);
    AddAt(Shift(m), Scale(f, c, n));
    TrimAt(after);
    hide Mul, Add, Scale, Shift;
    forall i: nat ensures At(after, i) == Xor(At(Shift(m), i), At(Scale(f, c, n), i)) {
      RowShift(before, m, i);
      RowAt(f, c, t, n, before, after, i);
    }
    Ext(Trim(after), Add(Shift(m), Scale(f, c, n)));
  }

  lemma RowShift(before: seq<nat>, m: Poly, i: nat)
    requires before != [] && Last(before) == 0 && Trim(Init(before)) == m
    ensures At(before, i) == At(Shift(m), i)
  {
    TrimAt(Init(before));
    if 0 < i {
      assert At(before, i) == At(Init(before), i - 1) == At(m, i - 1);
    }
  }

  lemma RowAt(f: GenericGF, c: nat, t: nat, n: seq<nat>, before: seq<nat>, after: seq<nat>, i: nat)
    requires |before| == |after| == t + |n|
    requires forall k :: 0 <= k < t ==> after[k] == before[k]
    requires forall k :: t <= k < |after| ==> after[k] == Xor(before[k], Times(f, c, n[k - t]))
    ensures At(after, i) == Xor(At(before, i), Times(f, c, At(n, i)))
  {
    hide Times, Xor;
    TimesZero(f, c);
    XorZero(At(before, i));
    if i < |n| {
      assert n[|n| - 1 - i] == n[|after| - 1 - i - t];
    }
  }

  method MultiplyScalar(f: GenericGF, p: GFPoly, c: nat) returns (r: GFPoly)
    requires f.Lawful() && p.Valid(f) && c < f.size
    ensures r.Valid(f) && r.Value() == Scale(f, c, p.Value())
  {
    hide Times, Xor;
    ValueFacts(f, p);
    ScaleOneZero(f, p.Value());
    if c == 0 {
      return ZERO;
    }
    if c == 1 {
      return p;
    }
    var e := p.coefficients;
    var n := new nat[|e|];
    for s := 0 to |e|
      invariant forall k :: 0 <= k < s ==> n[k] == Times(f, c, e[k]) < f.size
    {
      TimesComm(f, e[s], c);
      n[s] := f.Multiply(e[s], c);
    }
    assert n[..] == RawScale(f, c, e);
    assert Below(f.size, n[..]);
    var o := New(f, n[..]);
    r := o.value;
    ScaleStored(f, p, c);
  }

  lemma ScaleStored(f: GenericGF, p: GFPoly, c: nat)
    requires f.Lawful() && p.Valid(f) && c < f.size
    ensures Scale(f, c, p.coefficients) == Scale(f, c, p.Value())
  {
    hide Times, Xor, GenericGF.Lawful;
    FieldFacts(f);
    ValueFacts(f, p);
    ScaleAt(f, c, p.coefficients);
    ScaleAt(f, c, p.Value());
    Ext(Scale(f, c, p.coefficients), Scale(f, c, p.Value()));
  }

  /** Multiplication by c*x^n. */
  method MultiplyByMonomial(f: GenericGF, p: GFPoly, n: nat, c: nat) returns (r: GFPoly)
    requires f.Lawful() && p.Valid(f) && c < f.size
    ensures r.Valid(f) && r.Value() == ShiftBy(Scale(f, c, p.Value()), n)
  {
    hide Times, Xor;
    ValueFacts(f, p);
    ScaleOneZero(f, p.Value());
    ScaleAt(f, c, p.Value());
    ShiftByValue(f, Scale(f, c, p.Value()), n);
    if c == 0 {
      return ZERO;
    }
    var e := p.coefficients;
    var a := new nat[|e| + n](_ => 0);
    for t := 0 to |e|
      invariant forall k :: 0 <= k < t ==> a[k] == Times(f, c, e[k]) < f.size
      invariant forall k :: |e| <= k < a.Length ==> a[k] == 0
    {
      TimesComm(f, e[t], c);
      a[t] := f.Multiply(e[t], c);
    }
    assert a[..] == RawScale(f, c, e) + seq(n, _ => 0);
    assert Below(f.size, a[..]);
    var o := New(f, a[..]);
    r := o.value;
    ScaleStored(f, p, c);
    TrimZeroTail(RawScale(f, c, e), n);
  }

  lemma {:induction false} ShiftByValue(f: GenericGF, p: Poly, n: nat)
    ensures ShiftBy(p, n) == if p == [] then [] else p + seq(n, _ => 0)
  {
    if n > 0 {
      ShiftByValue(f, p, n - 1);
      assert p + seq(n - 1, _ => 0) + [0] == p + seq(n, _ => 0);
    }
  }

  lemma {:induction false} TrimZeroTail(a: seq<nat>, n: nat)
    ensures Trim(a + seq(n, _ => 0)) == if Trim(a) == [] then [] else Trim(a) + seq(n, _ => 0)
    decreases |a|
  {
    if a == [] {
      assert a + seq(n, _ => 0) == seq(n, _ => 0);
      TrimDropsZeros(seq(n, _ => 0), n);
    } else {
      assert (a + seq(n, _ => 0))[1..] == a[1..] + seq(n, _ => 0);
      TrimZeroTail(a[1..], n);
    }
  }

  lemma MonomialProduct(f: GenericGF, c: nat, n: nat, p: Poly)
    requires f.Lawful() && c < f.size && Over(f, p)
    ensures Over(f, Scale(f, c, UNIT)) && Over(f, ShiftBy(Scale(f, c, UNIT), n))
    ensures Mul(f, ShiftBy(Scale(f, c, UNIT), n), p) == ShiftBy(Scale(f, c, p), n)
  {
    hide Times, Xor, GenericGF.Lawful;
    FieldFacts(f);
    ScaleAt(f, c, UNIT);
    ShiftByLen(f, Scale(f, c, UNIT), n);
    MulComm(f, ShiftBy(Scale(f, c, UNIT), n), p);
    MulShiftBy(f, p, Scale(f, c, UNIT), n);
    MulScaleRight(f, p, c, UNIT);
    MulOne(f, p);
  }

  /** One step of long division: the leading term of n is cancelled, what is subtracted goes into the quotient. */
  lemma DivisionStep(f: GenericGF, a: Poly, d: Poly, q: Poly, n: Poly, c: nat, k: nat)
    requires f.Lawful() && Over(f, a) && Over(f, d) && Over(f, q) && Over(f, n) && d != [] && n != []
    requires a == Add(Mul(f, q, d), n)
    requires |n| >= |d| && k == |n| - |d| && c < f.size && Times(f, c, d[0]) == n[0]
    ensures Over(f, ShiftBy(Scale(f, c, UNIT), k)) && Over(f, ShiftBy(Scale(f, c, d), k))
    ensures var m, s := ShiftBy(Scale(f, c, UNIT), k), ShiftBy(Scale(f, c, d), k);
            a == Add(Mul(f, Add(q, m), d), Add(n, s)) && |Add(n, s)| < |n|
  {
    hide Times, Xor, GenericGF.Lawful;
    FieldFacts(f);
    var m, s := ShiftBy(Scale(f, c, UNIT), k), ShiftBy(Scale(f, c, d), k);
    TimesZero(f, d[0]);
    MonomialProduct(f, c, k, d);
    ScaleAt(f, c, d);
    ShiftByLen(f, Scale(f, c, d), k);
    MulOver(f, q, d);
    MulAddLeft(f, q, m, d);
    var qd := Mul(f, q, d);
    // (q*d + s) + (n + s) == q*d + n
    AddComm(n, s);
    AddAssoc(Add(qd, s), s, n);
    AddCancel(qd, s);
    // the leading terms agree
    ShiftByValue(f, Scale(f, c, d), k);
    assert At(Scale(f, c, d), |d| - 1) == Times(f, c, At(d, |d| - 1));
    AddSameLead(n, s);
  }

  /** The divisor-zero case throws in the source. */
  method Divide(f: GenericGF, p: GFPoly, d: GFPoly) returns (r: Option<(GFPoly, GFPoly)>)
    requires f.Lawful() && p.Valid(f) && d.Valid(f)
    ensures r == None <==> d.Value() == []
    ensures r.Some? ==>
              var (q, m) := r.value;
              && q.Valid(f) && m.Valid(f)
              && p.Value() == Add(Mul(f, q.Value(), d.Value()), m.Value())
              && |m.Value()| < |d.Value()|
  {
    hide Times, Xor;
    ValueFacts(f, p);
    ValueFacts(f, d);
    if d.IsZero() {
      return None;
    }
    var q, n := ZERO, p;
    AddZero(p.Value());
    var lead := d.GetCoefficient(d.GetDegree());
    var inverse := f.Inverse(lead);
    q, n := LongDivision(f, q, n, d, inverse);
    ValueFacts(f, n);
    return Some((q, n));
  }

  /** The division loop, which both Divide and the decoder contain: it keeps q*d + n and stops with n below d. */
  method LongDivision(f: GenericGF, q0: GFPoly, n0: GFPoly, d: GFPoly, inverse: nat) returns (q: GFPoly, n: GFPoly)
    requires f.Lawful() && q0.Valid(f) && n0.Valid(f) && d.Valid(f) && !d.IsZero()
    requires inverse < f.size && Times(f, inverse, d.coefficients[0]) == 1
    requires q0.IsZero()
    ensures q.Valid(f) && n.Valid(f)
    ensures n0.Value() == Add(Mul(f, q.Value(), d.Value()), n.Value())
    ensures |n.Value()| < |d.Value()|
  {
    hide Times, Xor;
    q, n := q0, n0;
    ValueFacts(f, q);
    ValueFacts(f, n);
    ValueFacts(f, d);
    AddZero(n.Value());
    while n.GetDegree() >= d.GetDegree() && !n.IsZero()
      invariant q.Valid(f) && n.Valid(f)
      invariant n0.Value() == Add(Mul(f, q.Value(), d.Value()), n.Value())
      decreases |n.Value()|
    {
      ValueFacts(f, q);
      ValueFacts(f, n);
      var k := n.GetDegree() - d.GetDegree();
      var c := f.Multiply(n.GetCoefficient(n.GetDegree()), inverse);
      LeadQuotient(f, n.coefficients[0], inverse, d.coefficients[0]);
      DivisionStep(f, n0.Value(), d.Value(), q.Value(), n.Value(), c, k);
      var s := MultiplyByMonomial(f, d, k, c);
      var m := BuildMonomial(f, k, c);
      q := AddOrSubtract(f, q, m);
      n := AddOrSubtract(f, n, s);
    }
    ValueFacts(f, n);
  }

  lemma LeadQuotient(f: GenericGF, a: nat, inverse: nat, b: nat)
    requires f.Lawful() && a < f.size && inverse < f.size && b < f.size && Times(f, inverse, b) == 1
    ensures Times(f, a, inverse) < f.size && Times(f, Times(f, a, inverse), b) == a
  {
    hide Times, Xor, GenericGF.Lawful;
    FieldFacts(f);
    TimesInField(f, a, inverse);
    TimesAssoc(f, a, inverse, b);
    TimesOne(f, a);
  }

  /** Quotient and remainder are determined by dividend and divisor. */
  lemma DivisionUnique(f: GenericGF, d: Poly, q: Poly, m: Poly, q': Poly, m': Poly)
    requires f.Lawful() && Over(f, d) && Over(f, q) && Over(f, m) && Over(f, q') && Over(f, m')
    requires |m| < |d| && |m'| < |d|
    requires Add(Mul(f, q, d), m) == Add(Mul(f, q', d), m')
    ensures q == q' && m == m'
  {
    hide Times, Xor, GenericGF.Lawful;
    FieldFacts(f);
    var a, b := Mul(f, q, d), Mul(f, q', d);
    MulOver(f, q, d);
    MulOver(f, q', d);
    AddOver(f, q, q');
    MulAddLeft(f, q, q', d);
    AddAt(m, m');
    SameSum(f, a, m, b, m');
    if Add(q, q') != [] {
      MulDegree(f, Add(q, q'), d);
    } else {
      AddEqualsZero(q, q');
      AddZero(a);
      AddZero([]);
      AddEqualsZero(m, m');
    }
  }

  lemma SameSum(f: GenericGF, a: Poly, m: Poly, b: Poly, m': Poly)
    requires f.Lawful() && Over(f, a) && Over(f, m) && Over(f, b) && Over(f, m')
    requires Add(a, m) == Add(b, m')
    ensures Add(a, b) == Add(m, m')
  {
    AddAt(a, m);
    AddAt(a, b);
    AddAt(m, m');
    hide Add;
    AddSwap(a, m, b, m');
    AddZero(Add(a, m));
    AddEqualsZero(Add(a, b), Add(m, m'));
  }
}
