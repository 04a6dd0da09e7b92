/** The constructor that fills the exponent and logarithm tables, and the smallest field the
    library builds with it. */
module GaloisFieldTables {
  import opened BinaryDigits
  import opened GaloisField

  lemma {:induction false} PowerOnlyNeeds(f: GenericGF, g: GenericGF, k: nat)
    requires f.size > 0 && f.primitive == g.primitive && f.size == g.size
    ensures Power(f, k) == Power(g, k)
  {
    hide Xor;
    if k > 0 {
      PowerOnlyNeeds(f, g, k - 1);
    }
  }

  /** Below a full order no power of x repeats. */
  lemma FullOrderInjective(f: GenericGF, i: nat, j: nat)
    requires IsTwoPower(f.size) && HasFullOrder(f) && i < j < f.size - 1
    ensures Power(f, i) != Power(f, j)
  {
    var n := f.size - 1;
    StepsAdd(f, n - i, i, 1);
    StepsAdd(f, n - i, j, 1);
    StepsAdd(f, j - i, n, 1);
    assert Power(f, j - i) != 1;
    assert n - i + j == j - i + n;
  }

  method Build(primitive: nat, size: nat, generatorBase: nat) returns (f: GenericGF)
    requires IsTwoPower(size) && size >= 2
    ensures f.primitive == primitive && f.size == size && f.generatorBase == generatorBase
    ensures f.ExpTableOk() && |f.logTable| == size
    ensures forall k :: 0 <= k < size - 1 ==>
              Power(f, k) < size && f.logTable[Power(f, k)] < size - 1 && Power(f, f.logTable[Power(f, k)]) == Power(f, k)
    ensures HasFullOrder(f) ==> f.Lawful()
  {
    hide Xor, Power, HasFullOrder, IsTwoPower;
    ghost var g := GenericGF(primitive, size, generatorBase, [], []);
    var n := FillPowers(primitive, size, g);
    var s := FillLogarithms(n, size);
    f := GenericGF(primitive, size, generatorBase, n[..], s[..]);
    forall k: nat ensures Power(f, k) == Power(g, k) {
      PowerOnlyNeeds(f, g, k);
    }
    if HasFullOrder(f) {
      LogarithmsDiffer(f);
    }
  }

  /** The first loop: 1, x, x^2 and so on. */
  method FillPowers(primitive: nat, size: nat, ghost g: GenericGF) returns (n: array<nat>)
    requires IsTwoPower(size) && size >= 2 && g.size == size && g.primitive == primitive
    ensures fresh(n) && n.Length == size && forall k :: 0 <= k < size ==> n[k] == Power(g, k) < size
  {
    hide Xor, Power, IsTwoPower;
    StepsUnfold(g, 0);
    n := new nat[size];
    var i := 1;
    for r := 0 to size
      invariant i == Power(g, r) < size
      invariant forall k :: 0 <= k < r ==> n[k] == Power(g, k) < size
    {
      n[r] := i;
      DoubleCases(g, i);
      StepsUnfold(g, r);
      i := i * 2;
      if i >= size {
        i := Xor(i, primitive) % size;
      }
    }
  }

  /** The second loop: each power names an exponent that gives it. */
  method FillLogarithms(n: array<nat>, size: nat) returns (s: array<nat>)
    requires n.Length == size >= 2 && forall k :: 0 <= k < size ==> n[k] < size
    ensures fresh(s) && s.Length == size
    ensures forall k :: 0 <= k < size - 1 ==> s[n[k]] < size - 1 && n[s[n[k]]] == n[k]
  {
    s := new nat[size](_ => 0);
    for t := 0 to size - 1
      invariant forall k :: 0 <= k < t ==> s[n[k]] < t && n[s[n[k]]] == n[k]
    {
      s[n[t]] := t;
    }
  }

  /** With a full order a logarithm that names the right power is the right one. */
  lemma LogarithmsDiffer(f: GenericGF)
    requires IsTwoPower(f.size) && HasFullOrder(f) && |f.logTable| == f.size
    requires forall k :: 0 <= k < f.size - 1 ==>
               Power(f, k) < f.size && f.logTable[Power(f, k)] < f.size - 1 && Power(f, f.logTable[Power(f, k)]) == Power(f, k)
    ensures f.LogTableOk()
  {
    hide Power, HasFullOrder;
    forall k | 0 <= k < f.size - 1 ensures f.logTable[Power(f, k)] == k {
      var l := f.logTable[Power(f, k)];
      if l < k {
        FullOrderInjective(f, l, k);
      } else if k < l {
        FullOrderInjective(f, k, l);
      }
    }
  }

  // ---------------------------------------------------------------- the field of the Aztec mode message

  method AztecParam() returns (f: GenericGF)
    ensures f.Lawful() && f.size == 16 && f.primitive == 19 && f.generatorBase == 1
  {
    TwoPower(4);
    f := Build(19, 16, 1);
    Order15(f);
  }

  lemma TwoPower(k: nat)
    ensures IsTwoPower(Pow2(k))
    ensures Pow2(4) == 16
  {
  }

  lemma XorThree(h: nat)
    ensures Xor(2 * h, 3) == if h % 2 == 1 then 2 * h - 1 else 2 * h + 3
  {
    XorHalf(2 * h, 3);
    XorOne(h);
  }

  /** One doubling modulo x^4 + x + 1. */
  lemma Walk19(f: GenericGF, k: nat, a: nat, b: nat)
    requires f.size == 16 && f.primitive == 19 && Power(f, k) == a < 16
    requires b == if a < 8 then 2 * a else if a % 2 == 1 then 2 * a - 17 else 2 * a - 13
    ensures Power(f, k + 1) == b
  {
    hide *;
    StepsUnfold(f, k);
    Double19(f, a);
    if a >= 8 {
      XorThree(a - 8);
    }
  }

  lemma Double19(f: GenericGF, a: nat)
    requires f.size == 16 && f.primitive == 19 && a < 16
    ensures Double(f, a) == if a < 8 then 2 * a else Xor(2 * a - 16, 3)
  {
    hide Xor;
    TwoPower(4);
    DoubleCases(f, a);
    assert f.primitive % f.size == 19 % 16;
  }

  lemma Order15(f: GenericGF)
    requires f.size == 16 && f.primitive == 19
    ensures HasFullOrder(f)
  {
    hide Power;
    StepsUnfold(f, 0);
    Walk19(f, 0, 1, 2);
    Walk19(f, 1, 2, 4);
    Walk19(f, 2, 4, 8);
    Walk19(f, 3, 8, 3);
    Walk19(f, 4, 3, 6);
    Walk19(f, 5, 6, 12);
    Walk19(f, 6, 12, 11);
    Walk19(f, 7, 11, 5);
    Walk19(f, 8, 5, 10);
    Walk19(f, 9, 10, 7);
    Walk19(f, 10, 7, 14);
    Walk19(f, 11, 14, 15);
    Walk19(f, 12, 15, 13);
    Walk19(f, 13, 13, 9);
    Walk19(f, 14, 9, 1);
  }
}
