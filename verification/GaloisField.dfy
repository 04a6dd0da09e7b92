/** Arithmetic in GF(2^m) by exponent and logarithm tables, and the proof that the tables compute
    the carry-less product modulo the primitive polynomial and make a field. */
module GaloisField {
  import opened BinaryDigits
  import opened Wrappers

  datatype FieldError = NoInverse

  datatype GenericGF = GenericGF(
    primitive: nat, size: nat, generatorBase: nat,
    expTable: seq<nat>, logTable: seq<nat>)
  {
    /** Every exponent entry is the power of x it stands for. */
    ghost predicate ExpTableOk() {
      && |expTable| == size
      && (forall k :: 0 <= k < size ==> expTable[k] == Power(this, k))
    }

    /** The logarithm table inverts the exponent table below the group order. */
    ghost predicate LogTableOk() {
      && |logTable| == size
      && (forall k :: 0 <= k < size - 1 ==> Power(this, k) < size && logTable[Power(this, k)] == k)
    }

    /** The field was built from a primitive polynomial. */
    ghost predicate Lawful() {
      && IsTwoPower(size) && size >= 2
      && ExpTableOk()
      && LogTableOk()
      && HasFullOrder(this)
    }

    function Exp(k: nat): nat
      requires k < |expTable|
    {
      expTable[k]
    }

    /** The source throws for zero; here that is a precondition. */
    function Log(a: nat): nat
      requires 0 < a < |logTable|
    {
      logTable[a]
    }

    function Multiply(a: nat, b: nat): (r: nat)
      requires Lawful() && a < size && b < size
      ensures r == Times(this, a, b) && r < size
    {
      if a == 0 || b == 0 then
        TimesZero(this, a);
        0
      else
        TableProduct(this, a, b);
        expTable[(logTable[a] + logTable[b]) % (size - 1)]
    }

    /** The inverse where a caller knows the element is not zero; CheckedInverse refuses zero. */
    function Inverse(a: nat): (r: nat)
      requires Lawful() && 0 < a < size
      ensures 0 < r < size && Times(this, a, r) == 1 && Times(this, r, a) == 1
    {
      TableInverse(this, a);
      expTable[size - logTable[a] - 1]
    }
  }

  /** A field whose elements are the bytes. */
  ghost predicate ByteField(f: GenericGF) {
    f.Lawful() && f.size == 256
  }

  ghost predicate IsTwoPower(n: nat) {
    exists k: nat :: Pow2(k) == n
  }

  /** Multiplication by x modulo the primitive polynomial, as the table-building loop does it. */
  function Double(f: GenericGF, a: nat): nat
    requires f.size > 0
  {
    if 2 * a >= f.size then Xor(2 * a, f.primitive) % f.size else 2 * a
  }

  /** a multiplied k times by x. */
  function Steps(f: GenericGF, k: nat, a: nat): nat
    requires f.size > 0
  {
    if k == 0 then a else Double(f, Steps(f, k - 1, a))
  }

  /** x^k modulo the primitive polynomial. */
  function Power(f: GenericGF, k: nat): nat
  {
    if f.size > 0 then Steps(f, k, 1) else 0
  }

  /** The order of x is exactly size - 1. */
  ghost predicate HasFullOrder(f: GenericGF) {
    && f.size >= 2
    && Power(f, f.size - 1) == 1
    && forall k :: 0 < k < f.size - 1 ==> Power(f, k) != 1
  }

  /** The carry-less product modulo the primitive polynomial, one bit of a at a time. */
  function Times(f: GenericGF, a: nat, b: nat): nat
  {
    if a == 0 || f.size == 0 then 0
    else Xor(if a % 2 == 1 then b else 0, Times(f, a / 2, Double(f, b)))
  }

  // ---------------------------------------------------------------- multiplication by x is linear

  lemma XorInField(f: GenericGF, a: nat, b: nat)
    requires IsTwoPower(f.size) && a < f.size && b < f.size
    ensures Xor(a, b) < f.size
  {
    var k: nat :| Pow2(k) == f.size;
    XorBound(a, b, k);
  }

  lemma DoubleCases(f: GenericGF, a: nat)
    requires IsTwoPower(f.size) && a < f.size
    ensures Double(f, a) < f.size
    ensures 2 * a < f.size ==> Double(f, a) == 2 * a
    ensures f.size <= 2 * a ==>
              Double(f, a) == Xor(2 * a - f.size, f.primitive % f.size)
  {
    if 2 * a >= f.size {
      var k: nat :| Pow2(k) == f.size;
      XorLowBits(k, 2 * a, f.primitive);
    }
  }

  lemma XorLowBits(k: nat, b: nat, p: nat)
    requires Pow2(k) <= b < 2 * Pow2(k)
    ensures Xor(b, p) % Pow2(k) == Xor(b - Pow2(k), p % Pow2(k)) < Pow2(k)
  {
    hide Xor;
    var n := Pow2(k);
    hide Pow2;
    var q, r := p / n, p % n;
    assert p == r + n * q;
    assert b == b - n + n * 1;
    XorJoin(k, b - n, 1, r, q);
    DivModIs(Xor(b, p), n, Xor(1, q), Xor(b - n, r));
  }

  lemma DoubleXor(f: GenericGF, a: nat, b: nat)
    requires IsTwoPower(f.size) && a < f.size && b < f.size
    ensures Double(f, Xor(a, b)) == Xor(Double(f, a), Double(f, b))
  {
    hide Xor, Double;
    var k: nat :| Pow2(k) == f.size;
    hide Pow2;
    var n, p := f.size, f.primitive % f.size;
    XorInField(f, a, b);
    DoubleCases(f, a);
    DoubleCases(f, b);
    DoubleCases(f, Xor(a, b));
    XorDoubled(a, b);
    var ra, rb := if 2 * a >= n then 2 * a - n else 2 * a, if 2 * b >= n then 2 * b - n else 2 * b;
    DoubleXorHigh(k, ra, rb);
    XorCommon(ra, rb, p);
  }

  lemma XorCommon(a: nat, b: nat, p: nat)
    ensures Xor(Xor(a, p), Xor(b, p)) == Xor(a, b)
    ensures Xor(Xor(a, p), b) == Xor(a, Xor(b, p)) == Xor(Xor(a, b), p)
  {
    hide Xor;
    XorSwap(a, p, b, p);
    XorSelf(p);
    XorZero(Xor(a, b));
    XorAssoc(a, b, p);
    XorAssoc(a, p, b);
    XorComm(p, b);
  }

  lemma XorJoinBits(k: nat, a: nat, qa: nat, b: nat, qb: nat, top: nat)
    requires a < Pow2(k) && b < Pow2(k) && qa < 2 && qb < 2
    requires top == if Xor(qa, qb) == 0 then 0 else Pow2(k)
    requires Xor(qa, qb) < 2
    ensures Xor(a, b) < Pow2(k)
    ensures Xor(a + (if qa == 1 then Pow2(k) else 0), b + (if qb == 1 then Pow2(k) else 0)) == Xor(a, b) + top
  {
    hide *;
    XorJoin(k, a, qa, b, qb);
  }

  lemma DoubleXorHigh(k: nat, a: nat, b: nat)
    requires a < Pow2(k) && b < Pow2(k)
    ensures Xor(a, b) < Pow2(k)
    ensures Xor(a + Pow2(k), b) == Xor(a, b + Pow2(k)) == Xor(a, b) + Pow2(k)
    ensures Xor(a + Pow2(k), b + Pow2(k)) == Xor(a, b)
  {
    hide *;
    XorZero(0);
    XorZero(1);
    XorSelf(1);
    var n := Pow2(k);
    XorJoinBits(k, a, 0, b, 0, 0);
    XorJoinBits(k, a, 1, b, 0, n);
    XorJoinBits(k, a, 0, b, 1, n);
    XorJoinBits(k, a, 1, b, 1, 0);
  }

  lemma {:induction false} StepsAdd(f: GenericGF, j: nat, k: nat, a: nat)
    requires f.size > 0
    ensures Steps(f, j + k, a) == Steps(f, j, Steps(f, k, a))
  {
    hide Double;
    if j > 0 {
      StepsAdd(f, j - 1, k, a);
    }
  }

  lemma {:induction false} StepsXor(f: GenericGF, k: nat, a: nat, b: nat)
    requires IsTwoPower(f.size) && a < f.size && b < f.size
    ensures Steps(f, k, a) < f.size && Steps(f, k, b) < f.size
    ensures Steps(f, k, Xor(a, b)) == Xor(Steps(f, k, a), Steps(f, k, b))
  {
    hide Xor;
    if k > 0 {
      StepsXor(f, k - 1, a, b);
      DoubleXor(f, Steps(f, k - 1, a), Steps(f, k - 1, b));
      DoubleCases(f, Steps(f, k - 1, a));
      DoubleCases(f, Steps(f, k - 1, b));
    }
  }

  lemma {:induction false} StepsZero(f: GenericGF, k: nat)
    requires f.size > 0
    ensures Steps(f, k, 0) == 0
  {
    if k > 0 {
      StepsZero(f, k - 1);
    }
  }

  lemma StepsInField(f: GenericGF, k: nat, a: nat)
    requires IsTwoPower(f.size) && a < f.size
    ensures Steps(f, k, a) < f.size
  {
    StepsXor(f, k, a, a);
  }

  // ---------------------------------------------------------------- the carry-less product

  lemma {:induction false} TimesZero(f: GenericGF, a: nat)
    ensures Times(f, a, 0) == 0 && Times(f, 0, a) == 0
  {
    if a != 0 && f.size != 0 {
      TimesZero(f, a / 2);
    }
  }

  lemma {:induction false} TimesXorLeft(f: GenericGF, a: nat, b: nat, c: nat)
    ensures Times(f, Xor(a, b), c) == Xor(Times(f, a, c), Times(f, b, c))
    decreases a + b
  {
    if f.size == 0 || (a == 0 && b == 0) {
    } else {
      var d := Double(f, c);
      TimesXorLeft(f, a / 2, b / 2, d);
      XorHalf(a, b);
      TimesUnfold(f, a, c);
      TimesUnfold(f, b, c);
      TimesUnfold(f, Xor(a, b), c);
      hide Xor, Times, Double;
      XorZero(c);
      XorSelf(c);
      XorZero(0);
      XorSwap(if a % 2 == 1 then c else 0, Times(f, a / 2, d), if b % 2 == 1 then c else 0, Times(f, b / 2, d));
    }
  }

  lemma TimesUnfold(f: GenericGF, a: nat, b: nat)
    requires f.size > 0
    ensures Times(f, a, b) == Xor(if a % 2 == 1 then b else 0, Times(f, a / 2, Double(f, b)))
  {
    if a == 0 {
      XorZero(0);
    }
  }

  lemma {:induction false} TimesXorRight(f: GenericGF, a: nat, b: nat, c: nat)
    requires IsTwoPower(f.size) && b < f.size && c < f.size
    ensures Times(f, a, Xor(b, c)) == Xor(Times(f, a, b), Times(f, a, c))
    decreases a
  {
    if a != 0 {
      DoubleXor(f, b, c);
      DoubleCases(f, b);
      DoubleCases(f, c);
      TimesXorRight(f, a / 2, Double(f, b), Double(f, c));
      TimesUnfold(f, a, b);
      TimesUnfold(f, a, c);
      TimesUnfold(f, a, Xor(b, c));
      hide Xor, Times, Double;
      XorZero(0);
      var h := a / 2;
      XorSwap(if a % 2 == 1 then b else 0, Times(f, h, Double(f, b)), if a % 2 == 1 then c else 0, Times(f, h, Double(f, c)));
    } else {
      XorZero(0);
    }
  }

  /** Multiplying by x^k is taking k steps. */
  lemma {:induction false} TimesPower(f: GenericGF, a: nat, k: nat)
    requires IsTwoPower(f.size) && f.size >= 2 && a < f.size
    ensures Times(f, a, Power(f, k)) == Steps(f, k, a)
    decreases a
  {
    StepsZero(f, k);
    if a != 0 {
      var h, b := a / 2, a % 2;
      TimesPower(f, h, k + 1);
      StepsUnfold(f, k);
      hide Times, Xor, Steps, Double, Power, IsTwoPower;
      TimesUnfold(f, a, Power(f, k));
      EvenOdd(h, b);
      OneStep(f, h);
      StepsXor(f, k, b, 2 * h);
      StepsAdd(f, k, 1, h);
    }
  }

  lemma StepsUnfold(f: GenericGF, k: nat)
    requires f.size > 0
    ensures Power(f, 0) == 1 && Power(f, k) == Steps(f, k, 1) && Power(f, k + 1) == Double(f, Power(f, k))
  {
  }

  lemma OneStep(f: GenericGF, h: nat)
    requires 2 * h < f.size
    ensures Steps(f, 1, h) == 2 * h
  {
    assert Steps(f, 0, h) == h;
  }

  lemma EvenOdd(h: nat, b: nat)
    requires b < 2
    ensures Xor(b, 2 * h) == b + 2 * h
  {
    XorHalf(b, 2 * h);
    XorZero(h);
    XorZero(0);
  }

  // ---------------------------------------------------------------- powers of x are the nonzero elements

  lemma PowerAdd(f: GenericGF, i: nat, j: nat)
    requires IsTwoPower(f.size) && f.size >= 2
    ensures Power(f, i) < f.size && Power(f, j) < f.size
    ensures Power(f, i + j) == Times(f, Power(f, i), Power(f, j)) == Steps(f, j, Power(f, i))
  {
    StepsInField(f, i, 1);
    StepsInField(f, j, 1);
    StepsAdd(f, j, i, 1);
    TimesPower(f, Power(f, i), j);
  }

  lemma PowerNonzero(f: GenericGF, k: nat)
    requires f.Lawful()
    ensures 0 < Power(f, k) < f.size
    decreases k
  {
    var n := f.size - 1;
    PowerAdd(f, k, 0);
    if k > n {
      PowerPeriod(f, k - n);
      PowerNonzero(f, k - n);
    } else {
      StepsZero(f, n - k);
      PowerAdd(f, k, n - k);
    }
  }

  lemma PowerPeriod(f: GenericGF, k: nat)
    requires f.Lawful()
    ensures Power(f, k + (f.size - 1)) == Power(f, k)
  {
    StepsAdd(f, k, f.size - 1, 1);
  }

  lemma {:induction false} PowerMod(f: GenericGF, k: nat)
    requires f.Lawful()
    ensures Power(f, k % (f.size - 1)) == Power(f, k)
    decreases k
  {
    var n := f.size - 1;
    if k >= n {
      PowerMod(f, k - n);
      PowerPeriod(f, k - n);
      ModStep(k, n);
    } else {
      DivModIs(k, n, 0, k);
    }
  }

  lemma ModBelow(k: nat, n: nat)
    requires n > 0
    ensures 0 <= k % n < n
  {
  }

  lemma ModStep(k: nat, n: nat)
    requires 0 < n <= k
    ensures (k - n) % n == k % n
  {
    var q, r := (k - n) / n, (k - n) % n;
    assert k - n == n * q + r;
    assert k == n * (q + 1) + r;
    DivModIs(k, n, q + 1, r);
  }

  ghost function PowersBelow(f: GenericGF, n: nat): set<nat>
  {
    if n == 0 then {} else PowersBelow(f, n - 1) + {Power(f, n - 1)}
  }

  ghost function UpTo(n: nat): (r: set<nat>)
    ensures |r| == n && forall a :: a in r <==> 1 <= a <= n
  {
    if n == 0 then {} else UpTo(n - 1) + {n}
  }

  lemma {:induction false} PowersBelowMember(f: GenericGF, n: nat, a: nat)
    requires f.Lawful() && n < f.size && a in PowersBelow(f, n)
    ensures 1 <= a < f.size && f.logTable[a] < n && Power(f, f.logTable[a]) == a
  {
    hide Times, Double, Steps, Power;
    if a == Power(f, n - 1) {
      PowerNonzero(f, n - 1);
    } else {
      PowersBelowMember(f, n - 1, a);
    }
  }

  lemma {:induction false} PowersBelowSize(f: GenericGF, n: nat)
    requires f.Lawful() && n < f.size
    ensures |PowersBelow(f, n)| == n
  {
    hide Times, Double, Steps, Power;
    if n > 0 {
      PowersBelowSize(f, n - 1);
      if Power(f, n - 1) in PowersBelow(f, n - 1) {
        PowersBelowMember(f, n - 1, Power(f, n - 1));
      }
    }
  }

  /** Every nonzero element is the power of x its table entry names. */
  lemma LogExp(f: GenericGF, a: nat)
    requires f.Lawful() && 0 < a < f.size
    ensures f.logTable[a] < f.size - 1 && Power(f, f.logTable[a]) == a
  {
    hide Times, Double, Steps, Power;
    var n := f.size - 1;
    var s, t := PowersBelow(f, n), UpTo(n);
    PowersBelowSize(f, n);
    forall b | b in s ensures b in t {
      PowersBelowMember(f, n, b);
    }
    SubsetSameSize(s, t);
    PowersBelowMember(f, n, a);
  }

  lemma SubsetSameSize(s: set<nat>, t: set<nat>)
    requires s <= t && |s| == |t|
    ensures s == t
  {
    assert |t - s| == |t| - |s| by {
      assert t == s + (t - s);
    }
  }

  lemma ExpLog(f: GenericGF, k: nat)
    requires f.Lawful() && k < f.size - 1
    ensures 0 < f.expTable[k] < f.size && f.logTable[f.expTable[k]] == k
  {
    PowerNonzero(f, k);
  }

  // ---------------------------------------------------------------- the tables compute the product

  lemma TableProduct(f: GenericGF, a: nat, b: nat)
    requires f.Lawful() && 0 < a < f.size && 0 < b < f.size
    ensures f.expTable[(f.logTable[a] + f.logTable[b]) % (f.size - 1)] == Times(f, a, b)
    ensures 0 < Times(f, a, b) < f.size
  {
    hide Times, Double, Steps, Power, GenericGF.Lawful;
    FieldFacts(f);
    LogExp(f, a);
    LogExp(f, b);
    var i, j := f.logTable[a], f.logTable[b];
    TableEntry(f, i + j, (i + j) % (f.size - 1));
    PowerProduct(f, i, j);
  }

  lemma TableEntry(f: GenericGF, k: nat, m: nat)
    requires f.Lawful() && m == k % (f.size - 1)
    ensures m < f.size - 1 && f.expTable[m] == Power(f, k)
  {
    hide Times, Double, Steps, Power;
    PowerMod(f, k);
    ModBelow(k, f.size - 1);
  }

  lemma PowerProduct(f: GenericGF, i: nat, j: nat)
    requires f.Lawful()
    ensures 0 < Power(f, i + j) == Times(f, Power(f, i), Power(f, j)) < f.size
  {
    PowerAdd(f, i, j);
    PowerNonzero(f, i + j);
  }

  lemma TableInverse(f: GenericGF, a: nat)
    requires f.Lawful() && 0 < a < f.size
    ensures 0 < f.size - f.logTable[a] - 1 < f.size
    ensures var r := f.expTable[f.size - f.logTable[a] - 1];
            0 < r < f.size && Times(f, a, r) == 1 && Times(f, r, a) == 1
  {
    LogExp(f, a);
    var i := f.logTable[a];
    var j := f.size - i - 1;
    PowerAdd(f, i, j);
    PowerAdd(f, j, i);
    PowerNonzero(f, j);
  }

  // ---------------------------------------------------------------- field laws

  lemma FieldFacts(f: GenericGF)
    requires f.Lawful()
    ensures IsTwoPower(f.size) && f.size >= 2 && |f.logTable| == |f.expTable| == f.size
  {
  }

  lemma TimesInField(f: GenericGF, a: nat, b: nat)
    requires f.Lawful() && a < f.size && b < f.size
    ensures Times(f, a, b) < f.size
    ensures Times(f, a, b) == 0 <==> a == 0 || b == 0
  {
    TimesZero(f, a);
    TimesZero(f, b);
    if a != 0 && b != 0 {
      TableProduct(f, a, b);
    }
  }

  lemma TimesOne(f: GenericGF, a: nat)
    requires IsTwoPower(f.size) && f.size >= 2 && a < f.size
    ensures Times(f, a, 1) == a && Times(f, 1, a) == a
  {
    TimesPower(f, a, 0);
    assert Times(f, 1 / 2, Double(f, a)) == 0;
    XorZero(a);
  }

  lemma TimesComm(f: GenericGF, a: nat, b: nat)
    requires f.Lawful() && a < f.size && b < f.size
    ensures Times(f, a, b) == Times(f, b, a)
  {
    TimesZero(f, a);
    TimesZero(f, b);
    if a != 0 && b != 0 {
      TableProduct(f, a, b);
      TableProduct(f, b, a);
    }
  }

  lemma TimesAssoc(f: GenericGF, a: nat, b: nat, c: nat)
    requires f.Lawful() && a < f.size && b < f.size && c < f.size
    ensures Times(f, Times(f, a, b), c) == Times(f, a, Times(f, b, c))
  {
    hide Times, Double, Steps, Power, Xor;
    TimesZero(f, a);
    TimesZero(f, b);
    TimesZero(f, c);
    TimesZero(f, Times(f, a, b));
    TimesZero(f, Times(f, b, c));
    if a != 0 && b != 0 && c != 0 {
      LogExp(f, a);
      LogExp(f, b);
      LogExp(f, c);
      var i, j, k := f.logTable[a], f.logTable[b], f.logTable[c];
      PowerProducts(f, i, j, k);
    }
  }

  lemma PowerProducts(f: GenericGF, i: nat, j: nat, k: nat)
    requires f.Lawful()
    ensures var a, b, c := Power(f, i), Power(f, j), Power(f, k);
            Times(f, Times(f, a, b), c) == Times(f, a, Times(f, b, c))
  {
    hide Times, Double, Steps, Power;
    PowerAdd(f, i, j);
    PowerAdd(f, i + j, k);
    PowerAdd(f, j, k);
    PowerAdd(f, i, j + k);
    assert i + j + k == i + (j + k);
  }

  /** The inverse as a caller asks for it: refused exactly for zero, which has none, and
      otherwise the only element there is. */
  method CheckedInverse(f: GenericGF, a: nat) returns (r: Result<nat, FieldError>)
    requires f.Lawful() && a < f.size
    ensures r.Err? <==> a == 0
    ensures forall b :: 0 <= b < f.size ==> (Times(f, a, b) == 1 <==> r.Ok? && r.value == b)
  {
    if a == 0 {
      forall b: nat | b < f.size ensures Times(f, a, b) == 0 {
        TimesZero(f, b);
      }
      return Err(NoInverse);
    }
    var i := f.Inverse(a);
    forall b: nat | b < f.size && Times(f, a, b) == 1 ensures b == i {
      InverseUnique(f, a, i, b);
    }
    return Ok(i);
  }

  lemma InverseUnique(f: GenericGF, a: nat, i: nat, b: nat)
    requires f.Lawful() && a < f.size && i < f.size && b < f.size
    requires Times(f, i, a) == 1 && Times(f, a, b) == 1
    ensures i == b
  {
    TimesAssoc(f, i, a, b);
    TimesOne(f, i);
    TimesOne(f, b);
  }

  /** Adding one flips the lowest bit, as the magnitude formula does it. */
  lemma XorOne(a: nat)
    ensures Xor(a, 1) == Xor(1, a) == if a % 2 == 1 then a - 1 else a + 1
  {
    XorComm(a, 1);
    XorHalf(a, 1);
    XorZero(a / 2);
  }
}
