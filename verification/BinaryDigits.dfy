/** The bitwise exclusive-or of two non-negative integers, as a recursion over binary digits.
    Field elements and generator polynomials over GF(2) are combined with nothing else. */
module BinaryDigits {

  function Xor(a: nat, b: nat): nat
    decreases a + b
  {
    if a == 0 && b == 0 then 0
    else 2 * Xor(a / 2, b / 2) + if a % 2 == b % 2 then 0 else 1
  }

  function Pow2(k: nat): (r: nat)
    ensures r >= 1
  {
    if k == 0 then 1 else 2 * Pow2(k - 1)
  }

  lemma XorZero(a: nat)
    ensures Xor(a, 0) == a && Xor(0, a) == a
  {
  }

  lemma XorSelf(a: nat)
    ensures Xor(a, a) == 0
  {
  }

  lemma {:induction false} XorComm(a: nat, b: nat)
    ensures Xor(a, b) == Xor(b, a)
    decreases a + b
  {
    if a != 0 || b != 0 {
      XorComm(a / 2, b / 2);
    }
  }

  lemma XorHalf(a: nat, b: nat)
    ensures Xor(a, b) / 2 == Xor(a / 2, b / 2) && Xor(a, b) % 2 == (if a % 2 == b % 2 then 0 else 1)
  {
  }

  lemma XorDoubled(a: nat, b: nat)
    ensures Xor(2 * a, 2 * b) == 2 * Xor(a, b)
  {
    XorHalf(2 * a, 2 * b);
  }

  lemma {:induction false} XorAssoc(a: nat, b: nat, c: nat)
    ensures Xor(Xor(a, b), c) == Xor(a, Xor(b, c))
    decreases a + b + c
  {
    if a != 0 || b != 0 || c != 0 {
      XorAssoc(a / 2, b / 2, c / 2);
      hide Xor;
      XorHalf(a, b);
      XorHalf(b, c);
      XorHalf(Xor(a, b), c);
      XorHalf(a, Xor(b, c));
    }
  }

  /** Exclusive-or undoes itself. */
  lemma XorCancel(a: nat, b: nat)
    ensures Xor(a, Xor(a, b)) == b && Xor(Xor(a, b), b) == a
  {
    XorAssoc(a, a, b);
    XorAssoc(a, b, b);
    XorSelf(a);
    XorSelf(b);
    XorZero(a);
    XorZero(b);
  }

  lemma XorSwap(a: nat, b: nat, c: nat, d: nat)
    ensures Xor(Xor(a, b), Xor(c, d)) == Xor(Xor(a, c), Xor(b, d))
  {
    XorAssoc(a, b, Xor(c, d));
    XorAssoc(b, c, d);
    XorComm(b, c);
    XorAssoc(c, b, d);
    XorAssoc(a, c, Xor(b, d));
  }

  /** Exclusive-or acts on the digits below bit k and the digits above it separately. */
  lemma {:induction false} XorJoin(k: nat, ra: nat, qa: nat, rb: nat, qb: nat)
    requires ra < Pow2(k) && rb < Pow2(k)
    ensures Xor(ra, rb) < Pow2(k)
    ensures Xor(ra + Pow2(k) * qa, rb + Pow2(k) * qb) == Xor(ra, rb) + Pow2(k) * Xor(qa, qb)
    decreases k
  {
    hide Xor;
    XorZero(0);
    if k > 0 {
      XorJoin(k - 1, ra / 2, qa, rb / 2, qb);
      XorHalf(ra, rb);
      var q := Xor(qa, qb);
      TwicePow2(k, qa);
      TwicePow2(k, qb);
      TwicePow2(k, q);
      var ma, mb, mx := Pow2(k - 1) * qa, Pow2(k - 1) * qb, Pow2(k - 1) * q;
      XorJoinStep(ra, ma, rb, mb, mx);
    }
  }

  lemma TwicePow2(k: nat, q: nat)
    requires k > 0
    ensures Pow2(k) * q == 2 * (Pow2(k - 1) * q)
    ensures Pow2(k - 1) * q >= 0
  {
  }

  lemma XorJoinStep(ra: nat, ma: nat, rb: nat, mb: nat, mx: nat)
    requires Xor(ra / 2 + ma, rb / 2 + mb) == Xor(ra / 2, rb / 2) + mx
    ensures Xor(ra + 2 * ma, rb + 2 * mb) == Xor(ra, rb) + 2 * mx
  {
    XorHalf(ra + 2 * ma, rb + 2 * mb);
    XorHalf(ra, rb);
    hide Xor;
    assert (ra + 2 * ma) / 2 == ra / 2 + ma && (ra + 2 * ma) % 2 == ra % 2;
    assert (rb + 2 * mb) / 2 == rb / 2 + mb && (rb + 2 * mb) % 2 == rb % 2;
  }

  lemma XorBound(a: nat, b: nat, k: nat)
    requires a < Pow2(k) && b < Pow2(k)
    ensures Xor(a, b) < Pow2(k)
  {
    XorJoin(k, a, 0, b, 0);
  }

  lemma DivModIs(a: nat, m: nat, q: nat, r: nat)
    requires m > 0 && a == m * q + r && r < m
    ensures a / m == q && a % m == r
  {
    var q', r' := a / m, a % m;
    DivUnique(m, q, r, q', r');
  }

  lemma DivUnique(m: nat, q: int, r: int, q': int, r': int)
    requires m * q + r == m * q' + r' && 0 <= r < m && 0 <= r' < m
    ensures q == q' && r == r'
  {
    assert m * (q - q') == r' - r;
    if q > q' {
      MulAtLeast(m, q - q');
    } else if q < q' {
      assert m * (q' - q) == r - r';
      MulAtLeast(m, q' - q);
    }
  }

  lemma MulAtLeast(m: nat, d: int)
    requires d >= 1
    ensures m * d >= m
  {
  }

  lemma Pow2Unfold(k: nat)
    requires k > 0
    ensures Pow2(k) == 2 * Pow2(k - 1)
  {
  }

  lemma ShiftByZero(n: nat)
    ensures n * Pow2(0) == n
  {
  }

  lemma ShiftOneMore(n: nat, k: nat)
    requires k > 0
    ensures n * Pow2(k) == 2 * (n * Pow2(k - 1))
  {
  }

  lemma Pow2Monotone(i: nat, j: nat)
    requires i <= j
    ensures Pow2(i) <= Pow2(j)
    decreases j - i
  {
    if i < j {
      Pow2Monotone(i + 1, j);
    }
  }

  lemma Pow2Add(i: nat, j: nat)
    ensures Pow2(i + j) == Pow2(i) * Pow2(j)
  {
    if i > 0 {
      Pow2Add(i - 1, j);
    }
  }

}
