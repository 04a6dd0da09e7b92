/** Where the bits of a QR symbol stand and what a module shows, in the terms of ISO/IEC 18004:2015 sections 7.7.3 and
    7.8.2: the place of every step of the zigzag in closed form, and the mask conditions. */
module QrModules {
  import opened BinaryDigits
  import opened QrPlacement
  import opened Wrappers

  // ---------------------------------------------------------------- the order of the modules

  /** The right column of the p-th pair from column s leftwards: two columns a pair, and one more once column 6 is passed. */
  function RightColumn(s: int, p: nat): int {
    if s % 2 == 0 && s >= 6 && s - 2 * p <= 6 then s - 2 * p - 1 else s - 2 * p
  }

  lemma {:induction false} StripAt(n: nat, s: int, up: bool, k: nat, q: nat, b: nat)
    requires k <= q < n && b < 2
    ensures |Strip(n, s, up, k)| == 2 * (n - k)
    ensures Strip(n, s, up, k)[2 * (q - k) + b] == Cell(s - b, if up then n - 1 - q else q)
    decreases q - k
  {
    if k < q {
      StripAt(n, s, up, k + 1, q, b);
    } else {
      StripSize(n, s, up, k + 1);
    }
  }

  lemma {:induction false} StripSize(n: nat, s: int, up: bool, k: nat)
    requires k <= n
    ensures |Strip(n, s, up, k)| == 2 * (n - k)
    decreases n - k
  {
    if k < n {
      StripSize(n, s, up, k + 1);
    }
  }

  lemma {:induction false} ZigzagSize(n: nat, s: int, up: bool)
    requires s >= -1
    ensures |Zigzag(n, s, up)| == (s + 1) / 2 * (2 * n)
    decreases s
  {
    hide Strip;
    if s > 0 {
      var t := Skip6(s);
      StripSize(n, t, up, 0);
      ZigzagSize(n, t - 2, !up);
      PairsLeft(s);
      OnePairLess((s + 1) / 2, 2 * n);
    }
  }

  lemma PairsLeft(s: int)
    requires s > 0
    ensures (Skip6(s) - 2 + 1) / 2 == (s + 1) / 2 - 1 >= 0
  {
  }

  lemma OnePairLess(p: nat, m: nat)
    requires p >= 1
    ensures p * m == m + (p - 1) * m >= m
  {
    assert (p - 1) * m >= 0;
  }

  lemma SameColumns(s: int, p: nat)
    requires s > 0 && p >= 1
    ensures RightColumn(Skip6(s) - 2, p - 1) == RightColumn(s, p)
  {
  }

  /** The step of row q and side b in the p-th pair. */
  function StepOf(n: nat, p: nat, q: nat, b: nat): nat {
    p * (2 * n) + 2 * q + b
  }

  lemma LaterStep(n: nat, p: nat, q: nat, b: nat)
    ensures StepOf(n, 0, q, b) == 2 * q + b
    ensures p > 0 ==> StepOf(n, p, q, b) == 2 * n + StepOf(n, p - 1, q, b)
  {
    if p > 0 {
      OnePairLess(p, 2 * n);
    }
  }

  lemma {:induction false} ZigzagAt(n: nat, s: int, up: bool, p: nat, q: nat, b: nat)
    requires s >= -1 && p < (s + 1) / 2 && q < n && b < 2
    ensures StepOf(n, p, q, b) < |Zigzag(n, s, up)|
    ensures Zigzag(n, s, up)[StepOf(n, p, q, b)] == Cell(RightColumn(s, p) - b, if up == (p % 2 == 0) then n - 1 - q else q)
    decreases p
  {
    hide Strip, Zigzag, Skip6, RightColumn, StepOf;
    var t := Skip6(s);
    ZigzagFirst(n, s, up);
    LaterStep(n, p, q, b);
    if p == 0 {
      StripAt(n, t, up, 0, q, b);
      FirstColumn(s);
    } else {
      PairsLeft(s);
      StripSize(n, t, up, 0);
      ZigzagAt(n, t - 2, !up, p - 1, q, b);
      SameColumns(s, p);
      Behind(Strip(n, t, up, 0), Zigzag(n, t - 2, !up), StepOf(n, p - 1, q, b));
    }
  }

  lemma ZigzagFirst(n: nat, s: int, up: bool)
    requires s > 0
    ensures Zigzag(n, s, up) == Strip(n, Skip6(s), up, 0) + Zigzag(n, Skip6(s) - 2, !up)
  {
  }

  lemma FirstColumn(s: int)
    ensures RightColumn(s, 0) == Skip6(s)
  {
  }

  lemma Behind(a: seq<Cell>, b: seq<Cell>, i: nat)
    requires i < |b|
    ensures |a| + i < |a + b| && (a + b)[|a| + i] == b[i]
  {
  }

  /** Step 2q + b of pair p is in row q of the pass, upwards in the first pair and downwards in the next, the right module
      before the left; the columns go from the right edge in pairs, without column 6 of an odd-sized symbol. */
  lemma PathOrder(n: nat, p: nat, q: nat, b: nat)
    requires p < n / 2 && q < n && b < 2
    ensures |Zigzag(n, n - 1, true)| == n / 2 * (2 * n)
    ensures p * (2 * n) + 2 * q + b < |Zigzag(n, n - 1, true)|
    ensures Zigzag(n, n - 1, true)[p * (2 * n) + 2 * q + b]
         == Cell(n - 1 - 2 * p - b - (if n % 2 == 1 && n >= 7 && n - 1 - 2 * p <= 6 then 1 else 0),
                 if p % 2 == 0 then n - 1 - q else q)
  {
    hide Zigzag, RightColumn;
    var s := n - 1;
    assert (s + 1) / 2 == n / 2;
    ZigzagSize(n, s, true);
    ZigzagAt(n, s, true, p, q, b);
    RightIs(n, p);
    hide *;
  }

  lemma RightIs(n: nat, p: nat)
    requires n > 0
    ensures RightColumn(n - 1, p) == n - 1 - 2 * p - (if n % 2 == 1 && n >= 7 && n - 1 - 2 * p <= 6 then 1 else 0)
  {
  }

  // ---------------------------------------------------------------- the masks

  /** Table 10: the condition under which mask turns the module in row i and column j. */
  predicate Turned(mask: nat, i: nat, j: nat) {
    || (mask == 0 && (i + j) % 2 == 0)
    || (mask == 1 && i % 2 == 0)
    || (mask == 2 && j % 3 == 0)
    || (mask == 3 && (i + j) % 3 == 0)
    || (mask == 4 && (i / 2 + j / 3) % 2 == 0)
    || (mask == 5 && (i * j) % 2 + (i * j) % 3 == 0)
    || (mask == 6 && ((i * j) % 2 + (i * j) % 3) % 2 == 0)
    || (mask == 7 && ((i + j) % 2 + (i * j) % 3) % 2 == 0)
  }

  lemma MasksAreStandard(mask: nat, i: nat, j: nat)
    requires mask < 8
    ensures GetDataMaskBit(mask, j, i) <==> Turned(mask, i, j)
    ensures IsMasked(mask, i, j) <==> Turned(mask, i, j)
  {
    MasksAgree(mask, j, i);
    MaskArithmetic(i * j, i + j);
    hide IsMasked;
    ModulesTurned(mask, i, j);
  }

  lemma ModulesTurned(mask: nat, i: nat, j: nat)
    requires mask < 8
    ensures GetDataMaskBit(mask, j, i) <==> Turned(mask, i, j)
  {
    Parity((i * j) % 3, i + j);
  }

  /** The free modules along the path show the bits in order under the mask, and those that are left over the mask alone. */
  lemma ModulesShow(m0: seq<seq<nat>>, m: seq<seq<nat>>, bits: seq<bool>, mask: nat, i: nat)
    requires Square(m0) && mask < 8 && Placed(m0, m, bits, mask, Zigzag(|m0|, |m0| - 1, true))
    requires i < |FreeCells(|m0|, Taken(m0))|
    ensures var c := FreeCells(|m0|, Taken(m0))[i];
            && InGrid(|m|, c)
            && (m[c.y][c.x] == 1 || m[c.y][c.x] == 0)
            && (i < |bits| ==> (m[c.y][c.x] == 1 <==> bits[i] != Turned(mask, c.y, c.x)))
            && (i >= |bits| ==> (m[c.y][c.x] == 1 <==> Turned(mask, c.y, c.x)))
  {
    hide Turned, GetDataMaskBit, FreeOf, Zigzag, Taken;
    var c := FreeCells(|m0|, Taken(m0))[i];
    assert InGrid(|m|, c);
    ModulesTurned(mask, c.y, c.x);
  }
}
