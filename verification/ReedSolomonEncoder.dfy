/** The Reed-Solomon encoder and what its output satisfies. */
module ReedSolomonEncoder {
  import opened BinaryDigits
  import opened GaloisField
  import opened Polynomials
  import opened GenericGFPoly
  import opened KeyEquation
  import opened Wrappers

  datatype EncodeError = NoErrorCorrectionBytes | NoDataBytes

  /** The k-th root of the code: alpha^(k + base). */
  ghost function Root(f: GenericGF, k: nat): nat {
    Power(f, k + f.generatorBase)
  }

  /** A codeword with n check symbols: it vanishes at the first n roots of the code. */
  ghost predicate IsCodeword(f: GenericGF, w: seq<nat>, n: nat) {
    && Below(f.size, w)
    && forall k :: 0 <= k < n ==> Eval(f, w, Root(f, k)) == 0
  }

  /** The factor x + a. */
  function Linear(a: nat): Poly {
    [1, a]
  }

  /** The generator polynomial: the product of x + Root(i) for i below n. */
  ghost function Generator(f: GenericGF, n: nat): Poly {
    if n == 0 then UNIT else Mul(f, Generator(f, n - 1), Linear(Root(f, n - 1)))
  }

  lemma RootOk(f: GenericGF, k: nat)
    requires f.Lawful()
    ensures 0 < Root(f, k) < f.size
    ensures Over(f, Linear(Root(f, k))) && |Linear(Root(f, k))| == 2
  {
    PowerNonzero(f, k + f.generatorBase);
  }

  lemma {:induction false} GeneratorShape(f: GenericGF, n: nat)
    requires f.Lawful()
    ensures Over(f, Generator(f, n)) && |Generator(f, n)| == n + 1
  {
    hide Times, Xor, Root, Linear, Mul, GenericGF.Lawful;
    FieldFacts(f);
    if n > 0 {
      GeneratorShape(f, n - 1);
      RootOk(f, n - 1);
      MulOver(f, Generator(f, n - 1), Linear(Root(f, n - 1)));
      MulDegree(f, Generator(f, n - 1), Linear(Root(f, n - 1)));
    }
  }

  lemma EvalLinear(f: GenericGF, a: nat)
    requires f.Lawful() && a < f.size
    ensures Eval(f, Linear(a), a) == 0
  {
    EvalLinearAt(f, a, a);
    XorSelf(a);
  }

  lemma EvalLinearAt(f: GenericGF, b: nat, a: nat)
    requires f.Lawful() && a < f.size
    ensures Eval(f, Linear(b), a) == Xor(a, b)
  {
    hide Times, Xor, GenericGF.Lawful;
    FieldFacts(f);
    assert Init([1, b]) == [1] && Last([1, b]) == b;
    assert Init([1]) == [] && Last([1]) == 1;
    TimesZero(f, a);
    XorZero(1);
    assert Eval(f, [1], a) == 1;
    TimesOne(f, a);
  }

  lemma {:induction false} GeneratorRoots(f: GenericGF, n: nat, k: nat)
    requires f.Lawful() && k < n
    ensures Eval(f, Generator(f, n), Root(f, k)) == 0
  {
    hide Times, Xor, Root, Linear, Mul, Eval, GenericGF.Lawful;
    FieldFacts(f);
    var a, g, lin := Root(f, k), Generator(f, n - 1), Linear(Root(f, n - 1));
    GeneratorShape(f, n - 1);
    RootOk(f, n - 1);
    RootOk(f, k);
    EvalMul(f, g, lin, a);
    if k == n - 1 {
      EvalLinear(f, a);
      TimesZero(f, Eval(f, g, a));
    } else {
      GeneratorRoots(f, n - 1, k);
      TimesZero(f, Eval(f, lin, a));
    }
  }

  class ReedSolomonEncoder {
    const field: GenericGF
    var cachedGenerators: seq<GFPoly>

    /** Entry i of the cache is the generator of degree i. */
    ghost predicate Valid()
      reads this
    {
      && field.Lawful()
      && |cachedGenerators| > 0
      && forall i :: 0 <= i < |cachedGenerators| ==>
           cachedGenerators[i].Valid(field) && cachedGenerators[i].Value() == Generator(field, i)
    }

    constructor (f: GenericGF)
      requires f.Lawful()
      ensures Valid() && field == f
    {
      field := f;
      cachedGenerators := [ONE];
    }

    /** Extends the cache as far as needed; what was cached stays. */
    method BuildGenerator(degree: nat) returns (g: GFPoly)
      requires Valid() && degree + field.generatorBase <= field.size
      modifies this
      ensures Valid() && old(cachedGenerators) <= cachedGenerators
      ensures |cachedGenerators| == if degree < |old(cachedGenerators)| then |old(cachedGenerators)| else degree + 1
      ensures g.Valid(field) && g.Value() == Generator(field, degree)
    {
      hide Times, Xor, Mul, Root;
      if degree >= |cachedGenerators| {
        var last := cachedGenerators[|cachedGenerators| - 1];
        var i := |cachedGenerators|;
        while i <= degree
          invariant old(|cachedGenerators|) <= i <= degree + 1 && i == |cachedGenerators|
          invariant old(cachedGenerators) <= cachedGenerators && Valid()
          invariant last == cachedGenerators[i - 1]
        {
          var lin := GFPoly([1, field.Exp(i - 1 + field.generatorBase)]);
          LinearValue(field, i - 1, lin);
          last := Multiply(field, last, lin);
          cachedGenerators := cachedGenerators + [last];
          i := i + 1;
        }
      }
      g := cachedGenerators[degree];
    }

    /** Replaces the last ecBytes entries by check symbols; the data before them stays. */
    method Encode(toEncode: array<nat>, ecBytes: nat) returns (r: Result<(), EncodeError>)
      requires Valid() && Below(field.size, toEncode[..])
      requires ecBytes + field.generatorBase <= field.size
      modifies this, toEncode
      ensures Valid()
      ensures ecBytes == 0 ==> r == Err(NoErrorCorrectionBytes)
      ensures ecBytes > 0 && toEncode.Length <= ecBytes ==> r == Err(NoDataBytes)
      ensures 0 < ecBytes < toEncode.Length ==> r.Ok?
      ensures r.Err? ==> toEncode[..] == old(toEncode[..])
      ensures r.Ok? ==>
                var n := toEncode.Length - ecBytes;
                toEncode[..n] == old(toEncode[..n]) && IsCodeword(field, toEncode[..], ecBytes)
    {
      hide Times, Xor, IsCodeword, Generator, Mul, GenericGF.Lawful;
      if ecBytes == 0 {
        return Err(NoErrorCorrectionBytes);
      }
      if toEncode.Length <= ecBytes {
        return Err(NoDataBytes);
      }
      var n := toEncode.Length - ecBytes;
      var g := BuildGenerator(ecBytes);
      var info := new nat[n];
      ghost var data := toEncode[..n];
      assert Below(field.size, data);
      ArrayCopy(toEncode[..], 0, info, 0, n);
      assert info[..] == data;
      var remainder := CheckSymbols(field, info[..], ecBytes, g);
      var coefficients := remainder.coefficients;
      WriteCheckSymbols(toEncode, n, coefficients);
      return Ok(());
    }
  }

  /** Zero padding followed by the remainder's coefficients, written after the data. */
  method WriteCheckSymbols(a: array<nat>, n: nat, coefficients: seq<nat>)
    requires n + |coefficients| <= a.Length
    modifies a
    ensures a[..] == old(a[..n]) + Zeros(a.Length - n - |coefficients|) + coefficients
  {
    var zeros := a.Length - n - |coefficients|;
    for e := 0 to zeros
      invariant a[..n] == old(a[..n])
      invariant forall k :: n <= k < n + e ==> a[k] == 0
    {
      a[n + e] := 0;
    }
    ArrayCopy(coefficients, 0, a, n + zeros, |coefficients|);
  }

  lemma LinearValue(f: GenericGF, k: nat, lin: GFPoly)
    requires f.Lawful() && k + f.generatorBase < f.size
    requires lin == GFPoly([1, f.expTable[k + f.generatorBase]])
    ensures lin.Valid(f) && lin.Value() == Linear(Root(f, k))
  {
    RootOk(f, k);
  }

  /** The remainder of data*x^n modulo the generator, whose coefficients are the check symbols. */
  method CheckSymbols(f: GenericGF, data: seq<nat>, n: nat, g: GFPoly) returns (remainder: GFPoly)
    requires f.Lawful() && Below(f.size, data) && data != [] && n > 0
    requires g.Valid(f) && g.Value() == Generator(f, n)
    ensures remainder.Valid(f) && |remainder.coefficients| <= n
    ensures IsCodeword(f, data + Zeros(n - |remainder.coefficients|) + remainder.coefficients, n)
  {
    hide Times, Xor, Mul, IsCodeword, Generator;
    var o := New(f, data);
    var message := MultiplyByMonomial(f, o.value, n, 1);
    GeneratorShape(f, n);
    var division := Divide(f, message, g);
    var (q, m) := division.value;
    ValueFacts(f, m);
    ValueFacts(f, q);
    SystematicCodeword(f, data, q.Value(), m, n);
    remainder := m;
  }

  function Zeros(n: nat): (r: seq<nat>)
    ensures |r| == n && forall k :: 0 <= k < n ==> r[k] == 0
  {
    seq(n, _ => 0)
  }

  /** Data followed by the padded remainder of data*x^n modulo the generator is a codeword. */
  lemma SystematicCodeword(f: GenericGF, data: seq<nat>, q: Poly, m: GFPoly, n: nat)
    requires f.Lawful() && Below(f.size, data) && Over(f, q) && m.Valid(f)
    requires |m.Value()| < |Generator(f, n)| && n > 0
    requires ShiftBy(Scale(f, 1, Trim(data)), n) == Add(Mul(f, q, Generator(f, n)), m.Value())
    ensures |m.coefficients| <= n
    ensures IsCodeword(f, data + Zeros(n - |m.coefficients|) + m.coefficients, n)
  {
    hide Times, Xor, Root, Mul, Eval, Scale, Trim, ShiftBy, Add, Zeros, At, GenericGF.Lawful;
    GeneratorShape(f, n);
    hide Generator;
    var w := data + Zeros(n - |m.coefficients|) + m.coefficients;
    ValueFacts(f, m);
    WordBelow(f, data, n - |m.coefficients|, m.coefficients);
    WordIsRemainder(f, data, m, n);
    forall k | 0 <= k < n ensures Eval(f, w, Root(f, k)) == 0 {
      EvalTrim(f, w, Root(f, k));
      MultipleVanishes(f, q, Generator(f, n), m.Value(), n, k);
    }
  }

  /** As a polynomial, the word is data*x^n plus the remainder. */
  lemma WordIsRemainder(f: GenericGF, data: seq<nat>, m: GFPoly, n: nat)
    requires f.Lawful() && Below(f.size, data) && m.Valid(f) && |m.coefficients| <= n
    ensures Trim(data + Zeros(n - |m.coefficients|) + m.coefficients)
         == Add(ShiftBy(Scale(f, 1, Trim(data)), n), m.Value())
  {
    hide Times, Xor, Scale, Trim, ShiftBy, Add, Zeros, At, GenericGF.Lawful;
    TrimAt(data);
    ScaleOneZero(f, Trim(data));
    WordValue(f, data, m.coefficients, n);
    StoredTrim(f, m);
  }

  lemma WordBelow(f: GenericGF, data: seq<nat>, k: nat, tail: seq<nat>)
    requires f.size > 0 && Below(f.size, data) && Below(f.size, tail)
    ensures Below(f.size, data + Zeros(k) + tail)
  {
  }

  /** (q*g + m) + m vanishes wherever g does. */
  lemma MultipleVanishes(f: GenericGF, q: Poly, g: Poly, m: Poly, n: nat, k: nat)
    requires f.Lawful() && Over(f, q) && Over(f, m) && g == Generator(f, n) && k < n
    ensures Eval(f, Add(Add(Mul(f, q, g), m), m), Root(f, k)) == 0
  {
    hide Times, Xor, Root, Mul, Eval, Generator, GenericGF.Lawful;
    FieldFacts(f);
    var a := Root(f, k);
    GeneratorShape(f, n);
    MulOver(f, q, g);
    RootOk(f, k);
    AddCancel(Mul(f, q, g), m);
    GeneratorRoots(f, n, k);
    EvalMul(f, q, g, a);
    TimesZero(f, Eval(f, q, a));
  }

  lemma StoredTrim(f: GenericGF, m: GFPoly)
    requires m.Valid(f)
    ensures Trim(m.coefficients) == m.Value()
  {
    TrimDropsZeros(m.coefficients, if m.coefficients[0] == 0 then 1 else 0);
  }

  /** As a polynomial, the assembled word is data*x^n plus the remainder. */
  lemma WordValue(f: GenericGF, data: seq<nat>, tail: seq<nat>, n: nat)
    requires f.Lawful() && Below(f.size, data) && Below(f.size, tail) && |tail| <= n
    ensures Trim(data + Zeros(n - |tail|) + tail) == Add(ShiftBy(Trim(data), n), Trim(tail))
  {
    hide Times, Xor, At, GenericGF.Lawful;
    FieldFacts(f);
    var w := data + Zeros(n - |tail|) + tail;
    var s, m := ShiftBy(Trim(data), n), Trim(tail);
    TrimAt(data);
    TrimAt(tail);
    TrimAt(w);
    AddAt(s, m);
    ShiftByAt(Trim(data), n);
    AtBeyond(m, n);
    hide Trim, ShiftBy, Add;
    forall i: nat ensures At(w, i) == Xor(At(s, i), At(m, i)) {
      WordAt(data, tail, n, i);
      XorZero(At(w, i));
    }
    Ext(Trim(w), Add(s, m));
  }

  lemma {:induction false} ShiftByAt(p: Poly, n: nat)
    ensures forall i: nat :: At(ShiftBy(p, n), i) == if i < n then 0 else At(p, i - n)
  {
    if n > 0 {
      var q := ShiftBy(p, n - 1);
      ShiftByAt(p, n - 1);
      assert forall i: nat :: At(Shift(q), i) == if i == 0 then 0 else At(q, i - 1);
    }
  }

  lemma AtBeyond(p: Poly, n: nat)
    requires |p| <= n
    ensures forall i: nat :: n <= i ==> At(p, i) == 0
  {
  }

  lemma WordAt(data: seq<nat>, tail: seq<nat>, n: nat, i: nat)
    requires |tail| <= n
    ensures At(data + Zeros(n - |tail|) + tail, i) == if i < n then At(tail, i) else At(data, i - n)
  {
  }

  // ---------------------------------------------------------------- the code determines the check symbols

  /** The inverses of the first n roots of the code, as locations. */
  ghost function RootLocations(f: GenericGF, n: nat): seq<nat>
    requires f.Lawful()
  {
    seq(n, k requires 0 <= k < n => RootInverse(f, k))
  }

  ghost function RootInverse(f: GenericGF, k: nat): nat
    requires f.Lawful()
  {
    RootOk(f, k);
    f.Inverse(Root(f, k))
  }

  lemma InverseTwice(f: GenericGF, a: nat)
    requires f.Lawful() && 0 < a < f.size
    ensures f.Inverse(f.Inverse(a)) == a
  {
    hide Times, Xor, GenericGF.Lawful;
    FieldFacts(f);
    var b := f.Inverse(a);
    var c := f.Inverse(b);
    TimesAssoc(f, a, b, c);
    TimesOne(f, a);
    TimesOne(f, c);
  }

  lemma PowersDistinct(f: GenericGF, i: nat, j: nat)
    requires f.Lawful() && i < j < i + (f.size - 1)
    ensures Power(f, i) != Power(f, j)
  {
    hide Times, Xor;
    var d := j - i;
    PowerNonzero(f, i);
    PowerNonzero(f, d);
    PowerAdd(f, i, d);
    // alpha^i * alpha^d == alpha^i forces alpha^d == 1
    var a := f.Inverse(Power(f, i));
    TimesAssoc(f, a, Power(f, i), Power(f, d));
    TimesOne(f, Power(f, d));
  }

  lemma RootLocationsOk(f: GenericGF, n: nat)
    requires f.Lawful() && n < f.size
    ensures Locations(f, RootLocations(f, n))
    ensures forall k :: 0 <= k < n ==> f.Inverse(RootLocations(f, n)[k]) == Root(f, k)
  {
    hide Times, Xor, Power, GenericGF.Lawful;
    FieldFacts(f);
    var xs := RootLocations(f, n);
    forall k | 0 <= k < n ensures 0 < xs[k] < f.size && f.Inverse(xs[k]) == Root(f, k) {
      RootOk(f, k);
      InverseTwice(f, Root(f, k));
    }
    forall i, j | 0 <= i < j < n ensures xs[i] != xs[j] {
      PowersDistinct(f, i + f.generatorBase, j + f.generatorBase);
    }
  }

  /** Two codewords that agree before the check symbols are the same word. */
  lemma CodewordUnique(f: GenericGF, v: seq<nat>, w: seq<nat>, n: nat)
    requires f.Lawful() && n < f.size && |v| == |w| && n <= |v|
    requires IsCodeword(f, v, n) && IsCodeword(f, w, n)
    requires v[..|v| - n] == w[..|w| - n]
    ensures v == w
  {
    hide Times, Xor, Root, Eval, Add, RootLocations, Mul, GenericGF.Lawful;
    FieldFacts(f);
    var xs := RootLocations(f, n);
    RootLocationsOk(f, n);
    assert |xs| == n by {
      RootLocationsLength(f, n);
    }
    AddOver(f, v, w);
    XorZero(0);
    forall k | 0 <= k < n ensures Eval(f, Add(v, w), f.Inverse(xs[k])) == 0 {
      RootOk(f, k);
      EvalAdd(f, v, w, Root(f, k));
    }
    var c := RootsDivide(f, Add(v, w), xs);
    LocatorShape(f, xs);
    DifferenceShort(v, w, n);
    if c != [] {
      MulDegree(f, c, Locator(f, xs));
    } else {
      EmptyProduct(f, Locator(f, xs));
      EqualWords(v, w);
    }
  }

  lemma RootLocationsLength(f: GenericGF, n: nat)
    requires f.Lawful()
    ensures |RootLocations(f, n)| == n
  {
  }

  lemma DifferenceShort(v: seq<nat>, w: seq<nat>, n: nat)
    requires |v| == |w| && n <= |v| && v[..|v| - n] == w[..|w| - n]
    ensures |Add(v, w)| <= n
  {
    hide Xor;
    AddAt(v, w);
    hide Add;
    var s := Add(v, w);
    forall i: nat | n <= i ensures At(s, i) == 0 {
      XorSelf(At(v, i));
      XorZero(0);
      if i < |v| {
        assert v[|v| - 1 - i] == v[..|v| - n][|v| - 1 - i];
        assert w[|v| - 1 - i] == w[..|v| - n][|v| - 1 - i];
      }
    }
    assert s != [] ==> At(s, |s| - 1) != 0;
  }

  lemma EqualWords(v: seq<nat>, w: seq<nat>)
    requires |v| == |w| && Add(v, w) == []
    ensures v == w
  {
    hide Xor;
    AddAt(v, w);
    forall k | 0 <= k < |v| ensures v[k] == w[k] {
      var i := |v| - 1 - k;
      assert At([], i) == 0;
      XorIsZero(At(v, i), At(w, i));
    }
  }
}
