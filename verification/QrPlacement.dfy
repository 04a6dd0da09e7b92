/** Writing the data bits into the free modules of a QR matrix along the zigzag, under one of the
    eight masks, and reading the codewords back. A matrix is indexed [row, column]. */
module QrPlacement {
  import opened BinaryDigits
  import opened BitArray
  import opened BitSource
  import opened QrBlocks
  import opened Wrappers

  datatype PlacementError = NotAllBitsConsumed | WrongCodewordCount

  /** Column and row of a module. */
  datatype Cell = Cell(x: int, y: int)

  // ---------------------------------------------------------------- masks

  /** The encoder's mask formula. */
  function GetDataMaskBit(mask: nat, x: nat, y: nat): bool
    requires mask < 8
  {
    var intermediate :=
      match mask
      case 0 => (y + x) % 2
      case 1 => y % 2
      case 2 => x % 3
      case 3 => (y + x) % 3
      case 4 => (y / 2 + x / 3) % 2
      case 5 => (y * x) % 2 + (y * x) % 3
      case 6 => ((y * x) % 2 + (y * x) % 3) % 2
      case _ => ((y * x) % 3 + (y + x) % 2) % 2;
    intermediate == 0
  }

  /** The decoder's mask formula, by row i and column j. */
  function IsMasked(mask: nat, i: nat, j: nat): bool
    requires mask < 8
  {
    match mask
    case 0 => (i + j) % 2 == 0
    case 1 => i % 2 == 0
    case 2 => j % 3 == 0
    case 3 => (i + j) % 3 == 0
    case 4 => (i / 2 + j / 3) % 2 == 0
    case 5 => (i * j) % 6 == 0
    case 6 => (i * j) % 6 < 3
    case _ => (i + j + (i * j) % 3) % 2 == 0
  }

  lemma MaskArithmetic(p: nat, s: nat)
    ensures p % 2 + p % 3 == 0 <==> p % 6 == 0
    ensures (p % 2 + p % 3) % 2 == 0 <==> p % 6 < 3
    ensures (p % 3 + s % 2) % 2 == 0 <==> (s + p % 3) % 2 == 0
  {
    ResidueOf2(p);
    ResidueOf3(p);
    Parity(p % 3, s);
  }

  lemma ResidueOf2(p: nat)
    ensures p % 2 == p % 6 % 2
  {
    DivModIs(p, 6, p / 6, p % 6);
    DivModIs(p % 6, 2, p % 6 / 2, p % 6 % 2);
    DivModIs(p, 2, 3 * (p / 6) + p % 6 / 2, p % 6 % 2);
  }

  lemma ResidueOf3(p: nat)
    ensures p % 3 == p % 6 % 3
  {
    DivModIs(p, 3, 2 * (p / 6) + p % 6 / 3, p % 6 % 3);
  }

  lemma Parity(a: nat, b: nat)
    ensures (a + b % 2) % 2 == (b + a) % 2
  {
  }

  /** Encoder and decoder agree on every mask at every module. */
  lemma MasksAgree(mask: nat, x: nat, y: nat)
    requires mask < 8
    ensures GetDataMaskBit(mask, x, y) == IsMasked(mask, y, x)
  {
    MaskArithmetic(y * x, y + x);
  }

  // ---------------------------------------------------------------- the zigzag

  function Row(n: nat, up: bool, k: nat): int {
    if up then n - 1 - k else k
  }

  /** The two columns s and s - 1 from the k-th row on. */
  function Strip(n: nat, s: int, up: bool, k: nat): seq<Cell>
    decreases n - k
  {
    if k >= n then [] else [Cell(s, Row(n, up, k)), Cell(s - 1, Row(n, up, k))] + Strip(n, s, up, k + 1)
  }

  function Skip6(s: int): int {
    if s == 6 then 5 else s
  }

  /** Column pairs from column s leftwards, upwards and downwards in turn, jumping over column 6. */
  function Zigzag(n: nat, s: int, up: bool): seq<Cell>
    decreases s
  {
    if s <= 0 then [] else Strip(n, Skip6(s), up, 0) + Zigzag(n, Skip6(s) - 2, !up)
  }

  /** The columns a path from column s leftwards comes by: all of them when s is odd. From an even
      column the path jumps over column 6, or ends before column 0 when it starts left of 6. */
  predicate OnTheWay(s: int, x: int) {
    0 <= x <= s && (s % 2 == 0 ==> x != if s >= 6 then 6 else 0)
  }

  lemma PairStep(s: int, x: int)
    requires s >= -1
    ensures s <= 0 ==> !OnTheWay(s, x)
    ensures s > 0 ==> Skip6(s) - 2 >= -1
    ensures s > 0 ==> (OnTheWay(s, x) <==> x == Skip6(s) || x == Skip6(s) - 1 || OnTheWay(Skip6(s) - 2, x))
    ensures OnTheWay(s, x) ==> 0 <= x <= s
  {
  }

  predicate InGrid(n: nat, c: Cell) {
    0 <= c.x < n && 0 <= c.y < n
  }

  predicate Distinct(cs: seq<Cell>) {
    forall i, j :: 0 <= i < j < |cs| ==> cs[i] != cs[j]
  }

  /** The rows still to come when row k of a pass is next. */
  predicate RowFrom(n: nat, up: bool, k: nat, y: int) {
    if up then 0 <= y < n - k else k <= y < n
  }

  lemma {:induction false} StripCells(n: nat, s: int, up: bool, k: nat, c: Cell)
    requires k <= n
    ensures c in Strip(n, s, up, k) <==> (c.x == s || c.x == s - 1) && RowFrom(n, up, k, c.y)
    decreases n - k
  {
    if k < n {
      StripCells(n, s, up, k + 1, c);
      var pair := [Cell(s, Row(n, up, k)), Cell(s - 1, Row(n, up, k))];
      assert c in Strip(n, s, up, k) <==> c in pair || c in Strip(n, s, up, k + 1);
      assert RowFrom(n, up, k, c.y) <==> c.y == Row(n, up, k) || RowFrom(n, up, k + 1, c.y);
    }
  }

  lemma StripRows(n: nat, s: int, up: bool, c: Cell)
    ensures c in Strip(n, s, up, 0) <==> (c.x == s || c.x == s - 1) && 0 <= c.y < n
  {
    StripCells(n, s, up, 0, c);
  }

  lemma {:induction false} StripDistinct(n: nat, s: int, up: bool, k: nat)
    requires k <= n
    ensures Distinct(Strip(n, s, up, k))
    decreases n - k
  {
    if k < n {
      StripDistinct(n, s, up, k + 1);
      var a, b := Cell(s, Row(n, up, k)), Cell(s - 1, Row(n, up, k));
      StripCells(n, s, up, k + 1, a);
      StripCells(n, s, up, k + 1, b);
      AddDistinct(a, b, Strip(n, s, up, k + 1));
    }
  }

  lemma AddDistinct(a: Cell, b: Cell, cs: seq<Cell>)
    requires Distinct(cs) && a != b && a !in cs && b !in cs
    ensures Distinct([a, b] + cs)
  {
  }

  lemma JoinDistinct(cs: seq<Cell>, ds: seq<Cell>)
    requires Distinct(cs) && Distinct(ds) && forall c :: c in cs ==> c !in ds
    ensures Distinct(cs + ds)
  {
    var es := cs + ds;
    forall i, j | 0 <= i < j < |es| ensures es[i] != es[j] {
      if i < |cs| <= j {
        assert es[i] in cs && es[j] in ds;
      }
    }
  }

  /** The zigzag from column s covers exactly the columns it comes by. */
  lemma {:induction false} ZigzagCells(n: nat, s: int, up: bool, c: Cell)
    requires s >= -1
    ensures c in Zigzag(n, s, up) <==> OnTheWay(s, c.x) && 0 <= c.y < n
    decreases s
  {
    hide OnTheWay, Strip;
    PairStep(s, c.x);
    if s > 0 {
      var t := Skip6(s);
      StripRows(n, t, up, c);
      ZigzagCells(n, t - 2, !up, c);
      assert c in Zigzag(n, s, up) <==> c in Strip(n, t, up, 0) || c in Zigzag(n, t - 2, !up);
    }
  }

  lemma {:induction false} ZigzagDistinct(n: nat, s: int, up: bool)
    requires s >= -1
    ensures Distinct(Zigzag(n, s, up))
    decreases s
  {
    hide OnTheWay, Strip;
    if s > 0 {
      var t := Skip6(s);
      StripDistinct(n, t, up, 0);
      ZigzagDistinct(n, t - 2, !up);
      forall c | c in Strip(n, t, up, 0) ensures c !in Zigzag(n, t - 2, !up) {
        StripRows(n, t, up, c);
        ZigzagCells(n, t - 2, !up, c);
        PairStep(t - 2, c.x);
      }
      JoinDistinct(Strip(n, t, up, 0), Zigzag(n, t - 2, !up));
    }
  }

  /** One more column pair of a path. */
  lemma PathStep(n: nat, path: seq<Cell>, done: seq<Cell>, s: int, up: bool)
    requires s > 0 && path == done + Zigzag(n, s, up)
    ensures path == done + Strip(n, Skip6(s), up, 0) + Zigzag(n, Skip6(s) - 2, !up)
  {
    hide Strip;
    var strip, rest := Strip(n, Skip6(s), up, 0), Zigzag(n, Skip6(s) - 2, !up);
    assert Zigzag(n, s, up) == strip + rest;
    assert done + (strip + rest) == done + strip + rest;
  }

  lemma PathEnds(n: nat, done: seq<Cell>, s: int, up: bool)
    requires s <= 0
    ensures done + Zigzag(n, s, up) == done
  {
    assert Zigzag(n, s, up) == [];
  }

  /** The whole path of a matrix of any size: every module exactly once, but for column 6 (or
      column 0 of a tiny matrix) when the size is odd. */
  lemma ZigzagVisitsOnce(n: nat)
    ensures Distinct(Zigzag(n, n - 1, true))
    ensures forall c :: c in Zigzag(n, n - 1, true) <==>
                        InGrid(n, c) && (n % 2 == 1 ==> c.x != if n >= 7 then 6 else 0)
  {
    hide Zigzag, InGrid;
    ZigzagDistinct(n, n - 1, true);
    forall c ensures c in Zigzag(n, n - 1, true) <==>
                     InGrid(n, c) && (n % 2 == 1 ==> c.x != if n >= 7 then 6 else 0) {
      OnPath(n, c);
    }
  }

  lemma OnPath(n: nat, c: Cell)
    ensures c in Zigzag(n, n - 1, true) <==> InGrid(n, c) && (n % 2 == 1 ==> c.x != if n >= 7 then 6 else 0)
  {
    hide Zigzag;
    ZigzagCells(n, n - 1, true, c);
  }

  /** The cells of a path that are free. */
  function FreeOf(cs: seq<Cell>, taken: set<Cell>): seq<Cell> {
    if cs == [] then []
    else (if cs[0] in taken then [] else [cs[0]]) + FreeOf(cs[1..], taken)
  }

  /** The free modules of a matrix in the order of the path. */
  function FreeCells(n: nat, taken: set<Cell>): seq<Cell> {
    FreeOf(Zigzag(n, n - 1, true), taken)
  }

  lemma {:induction false} FreeOfAppend(cs: seq<Cell>, ds: seq<Cell>, taken: set<Cell>)
    ensures FreeOf(cs + ds, taken) == FreeOf(cs, taken) + FreeOf(ds, taken)
    decreases |cs|
  {
    if cs == [] {
      assert cs + ds == ds;
    } else {
      assert (cs + ds)[1..] == cs[1..] + ds;
      FreeOfAppend(cs[1..], ds, taken);
    }
  }

  lemma {:induction false} FreeOfMembers(cs: seq<Cell>, taken: set<Cell>, c: Cell)
    ensures c in FreeOf(cs, taken) <==> c in cs && c !in taken
    decreases |cs|
  {
    if cs != [] {
      FreeOfMembers(cs[1..], taken, c);
      assert cs == [cs[0]] + cs[1..];
    }
  }

  /** When column 6 is taken, the free modules of the path are all free modules of the matrix. */
  lemma PathCoversFree(n: nat, taken: set<Cell>, c: Cell)
    requires n % 2 == 1 ==> n >= 7
    requires n % 2 == 1 ==> forall y :: 0 <= y < n ==> Cell(6, y) in taken
    ensures c in FreeOf(Zigzag(n, n - 1, true), taken) <==> InGrid(n, c) && c !in taken
  {
    FreeOfMembers(Zigzag(n, n - 1, true), taken, c);
    ZigzagCells(n, n - 1, true, c);
    assert c.x == 6 && 0 <= c.y < n ==> c == Cell(6, c.y);
  }

  // ---------------------------------------------------------------- embedding

  const EMPTY: nat := 255

  /** The modules that hold something before the data is placed. */
  ghost function Taken(m: seq<seq<nat>>): set<Cell>
    requires Square(m)
  {
    set x: int, y: int | 0 <= x < |m| && 0 <= y < |m| && m[y][x] != EMPTY :: Cell(x, y)
  }

  predicate Square(m: seq<seq<nat>>) {
    forall y :: 0 <= y < |m| ==> |m[y]| == |m|
  }

  /** The rows of a matrix. */
  ghost function Rows(m: array2<nat>): (rows: seq<seq<nat>>)
    requires m.Length0 == m.Length1
    reads m
    ensures |rows| == m.Length0 && Square(rows)
    ensures forall y, x :: 0 <= y < m.Length0 && 0 <= x < m.Length1 ==> rows[y][x] == m[y, x]
  {
    seq(m.Length0, y requires 0 <= y < m.Length0 reads m =>
      seq(m.Length1, x requires 0 <= x < m.Length1 reads m => m[y, x]))
  }

  predicate ValidMask(mask: nat) {
    mask == 255 || mask < 8
  }

  /** What is written into the i-th free module: bit i, or a zero bit beyond the end, under the mask. */
  function ModuleValue(bits: seq<bool>, mask: nat, c: Cell, i: nat): nat
    requires ValidMask(mask) && c.x >= 0 && c.y >= 0
  {
    var bit := i < |bits| && bits[i];
    if (if mask != 255 && GetDataMaskBit(mask, c.x, c.y) then !bit else bit) then 1 else 0
  }

  /** The matrix after the path `done` has been walked from the matrix m0. */
  ghost predicate Placed(m0: seq<seq<nat>>, m: seq<seq<nat>>, bits: seq<bool>, mask: nat, done: seq<Cell>)
    requires Square(m0) && ValidMask(mask)
  {
    var free := FreeOf(done, Taken(m0));
    && Square(m) && |m| == |m0|
    && (forall i :: 0 <= i < |free| ==>
          InGrid(|m|, free[i]) && m[free[i].y][free[i].x] == ModuleValue(bits, mask, free[i], i))
    && forall x, y :: 0 <= x < |m| && 0 <= y < |m| && Cell(x, y) !in free ==> m[y][x] == m0[y][x]
  }

  function Min(a: nat, b: nat): nat {
    if a <= b then a else b
  }

  /** Visiting one module. */
  method PlaceModule(bits: BitArray, n: nat, mask: nat, m: array2<nat>, c: Cell, ghost m0: seq<seq<nat>>, ghost done: seq<Cell>)
    returns (n': nat)
    requires bits.Valid() && ValidMask(mask) && m.Length0 == m.Length1 && Square(m0)
    requires InGrid(m.Length0, c) && c !in done
    requires Placed(m0, Rows(m), bits.Contents(), mask, done)
    requires n == Min(|bits.Contents()|, |FreeOf(done, Taken(m0))|)
    modifies m
    ensures Placed(m0, Rows(m), bits.Contents(), mask, done + [c])
    ensures n' == Min(|bits.Contents()|, |FreeOf(done + [c], Taken(m0))|)
  {
    hide GetDataMaskBit;
    n' := n;
    ghost var before := Rows(m);
    FreeOfAppend(done, [c], Taken(m0));
    FreeOfMembers(done, Taken(m0), c);
    if m[c.y, c.x] != EMPTY {
      assert before[c.y][c.x] == m0[c.y][c.x];
      assert FreeOf([c], Taken(m0)) == [];
      assert done + [c] == done + [c];
      return;
    }
    var h := false;
    if n < bits.size {
      h := bits.Get(n);
      n' := n + 1;
    }
    if mask != 255 && GetDataMaskBit(mask, c.x, c.y) {
      h := !h;
    }
    m[c.y, c.x] := if h then 1 else 0;
    assert before[c.y][c.x] == m0[c.y][c.x];
    assert FreeOf([c], Taken(m0)) == [c];
    PlacedOne(m0, before, Rows(m), bits.Contents(), mask, done, c);
  }

  lemma PlacedOne(m0: seq<seq<nat>>, m: seq<seq<nat>>, m': seq<seq<nat>>, bits: seq<bool>, mask: nat, done: seq<Cell>, c: Cell)
    requires Square(m0) && ValidMask(mask) && Placed(m0, m, bits, mask, done)
    requires InGrid(|m|, c) && c !in done && c !in Taken(m0)
    requires Square(m') && |m'| == |m| && m'[c.y][c.x] == ModuleValue(bits, mask, c, |FreeOf(done, Taken(m0))|)
    requires forall x, y :: 0 <= x < |m| && 0 <= y < |m| && Cell(x, y) != c ==> m'[y][x] == m[y][x]
    ensures Placed(m0, m', bits, mask, done + [c])
  {
    hide ModuleValue, Taken, FreeOf;
    var t := Taken(m0);
    var free, free' := FreeOf(done, t), FreeOf(done + [c], t);
    FreeOfAppend(done, [c], t);
    FreeOfMembers(done, t, c);
    FreeOfOne(c, t);
    assert free' == free + [c];
    forall i | 0 <= i < |free'|
      ensures InGrid(|m'|, free'[i]) && m'[free'[i].y][free'[i].x] == ModuleValue(bits, mask, free'[i], i) {
      if i < |free| {
        assert free'[i] == free[i] && free[i] in free;
      }
    }
    forall x, y | 0 <= x < |m'| && 0 <= y < |m'| && Cell(x, y) !in free' ensures m'[y][x] == m0[y][x] {
      assert c in free';
      assert Cell(x, y) !in free;
    }
  }

  lemma FreeOfOne(c: Cell, taken: set<Cell>)
    requires c !in taken
    ensures FreeOf([c], taken) == [c]
  {
    assert FreeOf([c][1..], taken) == [];
  }

  /** One pass over a column pair, both modules of each row, right before left. */
  method PlaceStrip(bits: BitArray, n0: nat, mask: nat, m: array2<nat>, s: int, up: bool,
                    ghost m0: seq<seq<nat>>, ghost done0: seq<Cell>, ghost rest: seq<Cell>)
    returns (n: nat, ghost done: seq<Cell>)
    requires bits.Valid() && ValidMask(mask) && m.Length0 == m.Length1 && Square(m0)
    requires 1 <= s < m.Length0
    requires Distinct(done0 + Strip(m.Length0, s, up, 0) + rest)
    requires Placed(m0, Rows(m), bits.Contents(), mask, done0)
    requires n0 == Min(|bits.Contents()|, |FreeOf(done0, Taken(m0))|)
    modifies m
    ensures done == done0 + Strip(m.Length0, s, up, 0)
    ensures Placed(m0, Rows(m), bits.Contents(), mask, done)
    ensures n == Min(|bits.Contents()|, |FreeOf(done, Taken(m0))|)
  {
    hide Placed, ModuleValue, Taken, CleanTail, BitsOf, Strip, FreeOf, Distinct;
    ghost var path := done0 + Strip(m.Length0, s, up, 0) + rest;
    n, done := n0, done0;
    var y := if up then m.Length0 - 1 else 0;
    ghost var k := 0;
    while 0 <= y < m.Length0
      invariant 0 <= k <= m.Length0 && y == Row(m.Length0, up, k)
      invariant done + Strip(m.Length0, s, up, k) == done0 + Strip(m.Length0, s, up, 0)
      invariant Placed(m0, Rows(m), bits.Contents(), mask, done)
      invariant n == Min(|bits.Contents()|, |FreeOf(done, Taken(m0))|)
      decreases m.Length0 - k
    {
      ghost var later := Strip(m.Length0, s, up, k + 1);
      StripStep(m.Length0, s, up, k);
      assert path == done + [Cell(s, y)] + ([Cell(s - 1, y)] + later + rest);
      FreshCell(path, done, Cell(s, y), [Cell(s - 1, y)] + later + rest);
      n := PlaceModule(bits, n, mask, m, Cell(s, y), m0, done);
      done := done + [Cell(s, y)];
      assert path == done + [Cell(s - 1, y)] + (later + rest);
      FreshCell(path, done, Cell(s - 1, y), later + rest);
      n := PlaceModule(bits, n, mask, m, Cell(s - 1, y), m0, done);
      done := done + [Cell(s - 1, y)];
      k := k + 1;
      y := if up then y - 1 else y + 1;
    }
    StripEnds(m.Length0, s, up, k);
    assert done + [] == done;
  }

  lemma StripStep(n: nat, s: int, up: bool, k: nat)
    requires k < n
    ensures Strip(n, s, up, k) == [Cell(s, Row(n, up, k)), Cell(s - 1, Row(n, up, k))] + Strip(n, s, up, k + 1)
  {
  }

  lemma StripEnds(n: nat, s: int, up: bool, k: nat)
    requires k >= n
    ensures Strip(n, s, up, k) == []
  {
  }

  lemma FreshCell(path: seq<Cell>, done: seq<Cell>, c: Cell, rest: seq<Cell>)
    requires Distinct(path) && path == done + [c] + rest
    ensures c !in done
  {
    assert path[|done|] == c;
    forall i | 0 <= i < |done| ensures done[i] != c {
      assert path[i] == done[i];
    }
  }

  /** Writes the bits along the whole zigzag. */
  method EmbedDataBits(bits: BitArray, mask: nat, m: array2<nat>) returns (r: Result<(), PlacementError>)
    requires bits.Valid() && ValidMask(mask)
    requires m.Length0 == m.Length1
    modifies m
    ensures Placed(old(Rows(m)), Rows(m), bits.Contents(), mask, Zigzag(m.Length0, m.Length0 - 1, true))
    ensures r.Ok? <==> |bits.Contents()| <= |FreeCells(m.Length0, Taken(old(Rows(m))))|
  {
    hide ModuleValue, Taken, CleanTail, BitsOf, Strip, Placed, FreeOf, Zigzag, Distinct;
    var size := m.Length0;
    ghost var m0, path := Rows(m), Zigzag(size, size - 1, true);
    ZigzagVisitsOnce(size);
    var n, s, up := 0, size - 1, true;
    ghost var done: seq<Cell> := [];
    PlacedNothing(m0, bits.Contents(), mask);
    assert FreeOf([], Taken(m0)) == [] by {
      NothingFree(Taken(m0));
    }
    while s > 0
      invariant -1 <= s < size && bits.Valid()
      invariant done + Zigzag(size, s, up) == path
      invariant Placed(m0, Rows(m), bits.Contents(), mask, done)
      invariant n == Min(|bits.Contents()|, |FreeOf(done, Taken(m0))|)
      decreases s
    {
      PathStep(size, path, done, s, up);
      if s == 6 {
        s := s - 1;
      }
      n, done := PlaceStrip(bits, n, mask, m, s, up, m0, done, Zigzag(size, s - 2, !up));
      up := !up;
      s := s - 2;
    }
    PathEnds(size, done, s, up);
    if n != bits.size {
      return Err(NotAllBitsConsumed);
    }
    return Ok(());
  }

  lemma NothingFree(taken: set<Cell>)
    ensures FreeOf([], taken) == []
  {
  }

  lemma PlacedNothing(m0: seq<seq<nat>>, bits: seq<bool>, mask: nat)
    requires Square(m0) && ValidMask(mask)
    ensures Placed(m0, m0, bits, mask, [])
  {
  }

  // ---------------------------------------------------------------- reading

  /** Eight bits at a time, as numbers; bits left over are dropped. */
  function Octets(s: seq<bool>): (r: seq<nat>)
    ensures |r| == |s| / 8
    decreases |s|
  {
    if |s| < 8 then [] else [Number(s[..8])] + Octets(s[8..])
  }

  lemma OctetsUnfold(s: seq<bool>)
    ensures |s| < 8 ==> Octets(s) == []
    ensures |s| >= 8 ==> Octets(s) == [Number(s[..8])] + Octets(s[8..])
  {
  }

  lemma {:induction false} OctetsExtend(s: seq<bool>, b: bool)
    ensures Octets(s + [b]) == Octets(s) + if |s| % 8 == 7 then [Number(s[|s| - 7..] + [b])] else []
    decreases |s|
  {
    hide Number, Octets;
    OctetsUnfold(s);
    OctetsUnfold(s + [b]);
    if |s| == 7 {
      assert (s + [b])[..8] == s[|s| - 7..] + [b] && (s + [b])[8..] == [];
      OctetsUnfold([]);
    } else if |s| > 7 {
      var t := s[8..];
      assert (s + [b])[8..] == t + [b] && (s + [b])[..8] == s[..8];
      OctetsExtend(t, b);
      assert |t| % 8 == 7 ==> t[|t| - 7..] == s[|s| - 7..];
    }
  }

  /** Bytes written as bits come back, whatever follows. */
  lemma {:induction false} OctetsOfBytes(bytes: seq<nat>, tail: seq<bool>)
    requires forall i :: 0 <= i < |bytes| ==> bytes[i] < 256
    requires |tail| < 8
    ensures Octets(ByteBits(bytes) + tail) == bytes
    decreases |bytes|
  {
    hide Digits, Number;
    if bytes != [] {
      var s := ByteBits(bytes) + tail;
      assert s[..8] == Digits(bytes[0], 8);
      assert s[8..] == ByteBits(bytes[1..]) + tail;
      Pow2Is256();
      DigitsRoundTrip(bytes[0], 8);
      OctetsOfBytes(bytes[1..], tail);
    } else {
      assert ByteBits([]) + tail == tail;
    }
  }

  predicate SquareBits(m: seq<seq<bool>>) {
    forall y :: 0 <= y < |m| ==> |m[y]| == |m|
  }

  /** A module without its mask. */
  function Unmasked(m: seq<seq<bool>>, mask: nat, c: Cell): bool
    requires mask < 8 && SquareBits(m)
  {
    InGrid(|m|, c) && m[c.y][c.x] != IsMasked(mask, c.y, c.x)
  }

  /** The modules at the given cells, unmasked. */
  function ReadBits(m: seq<seq<bool>>, mask: nat, cells: seq<Cell>): (s: seq<bool>)
    requires mask < 8 && SquareBits(m)
    ensures |s| == |cells|
  {
    seq(|cells|, i requires 0 <= i < |cells| => Unmasked(m, mask, cells[i]))
  }

  /** The rows of a bit matrix. */
  ghost function BitRows(m: array2<bool>): (rows: seq<seq<bool>>)
    requires m.Length0 == m.Length1
    reads m
    ensures |rows| == m.Length0 && SquareBits(rows)
    ensures forall y, x :: 0 <= y < m.Length0 && 0 <= x < m.Length1 ==> rows[y][x] == m[y, x]
  {
    seq(m.Length0, y requires 0 <= y < m.Length0 reads m =>
      seq(m.Length1, x requires 0 <= x < m.Length1 reads m => m[y, x]))
  }

  /** Flips every masked module in place. */
  method UnmaskBitMatrix(m: array2<bool>, mask: nat)
    requires mask < 8 && m.Length0 == m.Length1
    modifies m
    ensures forall y, x :: 0 <= y < m.Length0 && 0 <= x < m.Length1 ==>
              m[y, x] == (old(m[y, x]) != IsMasked(mask, y, x))
  {
    hide IsMasked;
    for i := 0 to m.Length0
      invariant forall y, x :: 0 <= y < m.Length0 && 0 <= x < m.Length1 ==>
                  m[y, x] == if y < i then old(m[y, x]) != IsMasked(mask, y, x) else old(m[y, x])
    {
      for j := 0 to m.Length1
        invariant forall y, x :: 0 <= y < m.Length0 && 0 <= x < m.Length1 ==>
                    m[y, x] == if y < i || (y == i && x < j) then old(m[y, x]) != IsMasked(mask, y, x) else old(m[y, x])
      {
        if IsMasked(mask, i, j) {
          m[i, j] := !m[i, j];
        }
      }
    }
  }

  /** The modules of the function pattern. */
  ghost function PatternCells(p: array2<bool>): set<Cell>
    requires p.Length0 == p.Length1
    reads p
  {
    set x: int, y: int | 0 <= x < p.Length1 && 0 <= y < p.Length0 && p[y, x] :: Cell(x, y)
  }

  /** The codewords so far and the bits of the one begun. */
  ghost predicate Collected(bits: seq<bool>, codewords: seq<nat>, count: nat, current: nat) {
    && codewords == Octets(bits) && count == |bits| % 8
    && current == Number(bits[|bits| - count..])
  }

  lemma CollectOne(bits: seq<bool>, codewords: seq<nat>, count: nat, current: nat, b: bool)
    requires Collected(bits, codewords, count, current)
    ensures var v := 2 * current + if b then 1 else 0;
            if count == 7 then Collected(bits + [b], codewords + [v], 0, 0) else Collected(bits + [b], codewords, count + 1, v)
  {
    hide Octets, Number;
    OctetsExtend(bits, b);
    var tail := bits[|bits| - count..];
    NumberLast(tail + [b]);
    assert (tail + [b])[..|tail|] == tail;
    assert (bits + [b])[|bits| - count..] == tail + [b];
    NumberEmpty();
    assert (bits + [b])[|bits| + 1..] == [];
  }

  /** What has been collected after walking `done` over the matrix m0. */
  ghost predicate Reading(m0: seq<seq<bool>>, mask: nat, taken: set<Cell>, done: seq<Cell>,
                          codewords: seq<nat>, count: nat, current: nat)
    requires mask < 8 && SquareBits(m0)
  {
    Collected(ReadBits(m0, mask, FreeOf(done, taken)), codewords, count, current)
  }

  /** The matrix in hand is m0 with its mask removed. */
  ghost predicate Shows(m: array2<bool>, m0: seq<seq<bool>>, mask: nat)
    requires mask < 8 && SquareBits(m0)
    reads m
  {
    && m.Length0 == m.Length1 == |m0|
    && forall y, x :: 0 <= y < m.Length0 && 0 <= x < m.Length1 ==> m[y, x] == Unmasked(m0, mask, Cell(x, y))
  }

  /** Visiting one module while reading. */
  method ReadModule(m: array2<bool>, pattern: array2<bool>, c: Cell, codewords0: seq<nat>, count0: nat, current0: nat,
                    ghost m0: seq<seq<bool>>, ghost mask: nat, ghost done: seq<Cell>)
    returns (codewords: seq<nat>, count: nat, current: nat)
    requires mask < 8 && SquareBits(m0) && Shows(m, m0, mask)
    requires pattern.Length0 == pattern.Length1 == m.Length0 && InGrid(m.Length0, c)
    requires Reading(m0, mask, PatternCells(pattern), done, codewords0, count0, current0)
    ensures Reading(m0, mask, PatternCells(pattern), done + [c], codewords, count, current)
  {
    hide Collected, IsMasked;
    codewords, count, current := codewords0, count0, current0;
    ghost var taken := PatternCells(pattern);
    FreeOfAppend(done, [c], taken);
    ReadOne(m0, mask, FreeOf(done, taken), c);
    if !pattern[c.y, c.x] {
      assert FreeOf([c], taken) == [c];
      ghost var bits := ReadBits(m0, mask, FreeOf(done, taken));
      CollectOne(bits, codewords0, count0, current0, m[c.y, c.x]);
      CountBelow8(bits, codewords0, count0, current0);
      count := count + 1;
      current := 2 * current;
      if m[c.y, c.x] {
        current := current + 1;
      }
      if count == 8 {
        codewords := codewords + [current];
        count, current := 0, 0;
      }
    } else {
      assert FreeOf([c], taken) == [];
    }
  }

  lemma ReadOne(m0: seq<seq<bool>>, mask: nat, cells: seq<Cell>, c: Cell)
    requires mask < 8 && SquareBits(m0)
    ensures ReadBits(m0, mask, cells + [c]) == ReadBits(m0, mask, cells) + [Unmasked(m0, mask, c)]
    ensures ReadBits(m0, mask, cells + []) == ReadBits(m0, mask, cells)
  {
    assert cells + [] == cells;
  }

  lemma CountBelow8(bits: seq<bool>, codewords: seq<nat>, count: nat, current: nat)
    requires Collected(bits, codewords, count, current)
    ensures count < 8
  {
  }

  /** One pass over a column pair while reading. */
  method ReadStrip(m: array2<bool>, pattern: array2<bool>, s: int, up: bool, codewords0: seq<nat>, count0: nat, current0: nat,
                   ghost m0: seq<seq<bool>>, ghost mask: nat, ghost done0: seq<Cell>)
    returns (codewords: seq<nat>, count: nat, current: nat)
    requires mask < 8 && SquareBits(m0) && Shows(m, m0, mask)
    requires pattern.Length0 == pattern.Length1 == m.Length0 && 1 <= s < m.Length0
    requires Reading(m0, mask, PatternCells(pattern), done0, codewords0, count0, current0)
    ensures Reading(m0, mask, PatternCells(pattern), done0 + Strip(m.Length0, s, up, 0), codewords, count, current)
  {
    hide Reading, PatternCells, Shows;
    codewords, count, current := codewords0, count0, current0;
    var n := m.Length0;
    ghost var done := done0;
    assert n == m.Length1 by {
      WholeRows(m, m0, mask);
    }
    for e := 0 to n
      invariant done + Strip(n, s, up, e) == done0 + Strip(n, s, up, 0)
      invariant Reading(m0, mask, PatternCells(pattern), done, codewords, count, current)
    {
      var y := if up then n - 1 - e else e;
      codewords, count, current := ReadModule(m, pattern, Cell(s, y), codewords, count, current, m0, mask, done);
      done := done + [Cell(s, y)];
      codewords, count, current := ReadModule(m, pattern, Cell(s - 1, y), codewords, count, current, m0, mask, done);
      done := done + [Cell(s - 1, y)];
    }
    assert done == done0 + Strip(n, s, up, 0);
  }

  lemma ShowsUnmasked(m: array2<bool>, m0: seq<seq<bool>>, mask: nat)
    requires mask < 8 && SquareBits(m0) && m.Length0 == m.Length1 == |m0|
    ensures Shows(m, m0, mask) <==>
              forall y, x :: 0 <= y < m.Length0 && 0 <= x < m.Length1 ==> m[y, x] == (m0[y][x] != IsMasked(mask, y, x))
  {
    hide IsMasked;
  }

  lemma WholeRows(m: array2<bool>, m0: seq<seq<bool>>, mask: nat)
    requires mask < 8 && SquareBits(m0) && Shows(m, m0, mask)
    ensures m.Length0 == m.Length1 == |m0|
  {
  }

  /** Unmasks the matrix in place and collects the codewords of its free modules. */
  method ReadCodewords(m: array2<bool>, pattern: array2<bool>, mask: nat, total: nat) returns (r: Result<seq<nat>, PlacementError>)
    requires mask < 8 && m != pattern
    requires m.Length0 == m.Length1 == pattern.Length0 == pattern.Length1
    modifies m
    ensures var codewords := Octets(ReadBits(old(BitRows(m)), mask, FreeCells(m.Length0, PatternCells(pattern))));
            r == if |codewords| == total then Ok(codewords) else Err(WrongCodewordCount)
    ensures forall y, x :: 0 <= y < m.Length0 && 0 <= x < m.Length1 ==>
              m[y, x] == (old(m[y, x]) != IsMasked(mask, y, x))
  {
    hide Reading, PatternCells, Shows, IsMasked, Strip, FreeOf, Zigzag, Octets, Unmasked;
    ghost var m0 := BitRows(m);
    var n := m.Length0;
    UnmaskBitMatrix(m, mask);
    assert Shows(m, m0, mask) by {
      ShowsUnmasked(m, m0, mask);
    }
    ghost var taken := PatternCells(pattern);
    var readingUp, codewords, count, current := true, [], 0, 0;
    ReadNothing(m0, mask, taken);
    ghost var path, done: seq<Cell> := Zigzag(n, n - 1, true), [];
    var t := n - 1;
    while t > 0
      invariant -1 <= t < n
      invariant Shows(m, m0, mask) && PatternCells(pattern) == taken
      invariant done + Zigzag(n, t, readingUp) == path
      invariant Reading(m0, mask, taken, done, codewords, count, current)
      decreases t
    {
      PathStep(n, path, done, t, readingUp);
      if t == 6 {
        t := t - 1;
      }
      codewords, count, current := ReadStrip(m, pattern, t, readingUp, codewords, count, current, m0, mask, done);
      done := done + Strip(n, t, readingUp, 0);
      readingUp := !readingUp;
      t := t - 2;
    }
    PathEnds(n, done, t, readingUp);
    ShowsUnmasked(m, m0, mask);
    ReadingAll(m0, mask, taken, done, codewords, count, current);
    if |codewords| != total {
      return Err(WrongCodewordCount);
    }
    return Ok(codewords);
  }

  lemma ReadNothing(m0: seq<seq<bool>>, mask: nat, taken: set<Cell>)
    requires mask < 8 && SquareBits(m0)
    ensures Reading(m0, mask, taken, [], [], 0, 0)
  {
    NumberEmpty();
  }

  lemma ReadingAll(m0: seq<seq<bool>>, mask: nat, taken: set<Cell>, done: seq<Cell>, codewords: seq<nat>, count: nat, current: nat)
    requires mask < 8 && SquareBits(m0) && Reading(m0, mask, taken, done, codewords, count, current)
    ensures codewords == Octets(ReadBits(m0, mask, FreeOf(done, taken)))
  {
  }

  // ---------------------------------------------------------------- the round trip

  lemma {:induction false} OctetsAt(s: seq<bool>, i: nat)
    requires i < |s| / 8
    ensures 8 * i + 8 <= |s| && Octets(s)[i] == Number(s[8 * i..8 * i + 8])
    decreases i
  {
    hide Number;
    if i > 0 {
      OctetsAt(s[8..], i - 1);
      assert s[8..][8 * (i - 1)..8 * (i - 1) + 8] == s[8 * i..8 * i + 8];
    }
  }

  /** The module at c is as dark as the encoder left it. */
  predicate Undamaged(m: seq<seq<nat>>, shown: seq<seq<bool>>, c: Cell)
    requires Square(m) && SquareBits(shown)
  {
    InGrid(|m|, c) && InGrid(|shown|, c) && shown[c.y][c.x] == (m[c.y][c.x] == 1)
  }

  /** A module read under the mask it was written with gives the bit that was placed there. */
  lemma ModuleRoundTrip(m0: seq<seq<nat>>, m: seq<seq<nat>>, shown: seq<seq<bool>>, bits: seq<bool>, mask: nat, j: nat)
    requires Square(m0) && Square(m) && SquareBits(shown) && mask < 8
    requires Placed(m0, m, bits, mask, Zigzag(|m0|, |m0| - 1, true))
    requires j < |bits| && j < |FreeCells(|m0|, Taken(m0))|
    requires Undamaged(m, shown, FreeCells(|m0|, Taken(m0))[j])
    ensures Unmasked(shown, mask, FreeCells(|m0|, Taken(m0))[j]) == bits[j]
  {
    hide GetDataMaskBit, IsMasked, Zigzag, Taken;
    var c := FreeCells(|m0|, Taken(m0))[j];
    MasksAgree(mask, c.x, c.y);
  }

  /** The modules that carry codeword i. */
  ghost predicate CodewordUndamaged(m0: seq<seq<nat>>, m: seq<seq<nat>>, shown: seq<seq<bool>>, i: nat)
    requires Square(m0) && Square(m) && SquareBits(shown)
  {
    var free := FreeCells(|m0|, Taken(m0));
    8 * i + 8 <= |free| && forall j :: 8 * i <= j < 8 * i + 8 ==> Undamaged(m, shown, free[j])
  }

  /** Every codeword whose eight modules are undamaged is read as it was written, whatever the other modules show. */
  lemma CodewordRoundTrip(m0: seq<seq<nat>>, m: seq<seq<nat>>, shown: seq<seq<bool>>, bytes: seq<nat>, mask: nat, i: nat)
    requires Square(m0) && Square(m) && SquareBits(shown) && mask < 8
    requires Placed(m0, m, ByteBits(bytes), mask, Zigzag(|m0|, |m0| - 1, true))
    requires (forall k :: 0 <= k < |bytes| ==> bytes[k] < 256) && i < |bytes|
    requires CodewordUndamaged(m0, m, shown, i)
    ensures var read := Octets(ReadBits(shown, mask, FreeCells(|m0|, Taken(m0))));
            i < |read| && read[i] == bytes[i]
  {
    hide Unmasked, Placed, Taken, Zigzag, Octets, Undamaged, Number, FreeCells;
    var free, bits := FreeCells(|m0|, Taken(m0)), ByteBits(bytes);
    var s := ReadBits(shown, mask, free);
    ByteBitsLength(bytes);
    OctetsAt(s, i);
    OctetsOfBytes(bytes, []);
    assert bits + [] == bits;
    OctetsAt(bits, i);
    forall j | 8 * i <= j < 8 * i + 8 ensures s[j] == bits[j] {
      ModuleRoundTrip(m0, m, shown, bits, mask, j);
    }
    assert s[8 * i..8 * i + 8] == bits[8 * i..8 * i + 8];
  }

  lemma AllUndamaged(m0: seq<seq<nat>>, m: seq<seq<nat>>, shown: seq<seq<bool>>, i: nat)
    requires Square(m0) && Square(m) && SquareBits(shown)
    requires i < |FreeCells(|m0|, Taken(m0))| / 8
    requires forall c :: c in FreeCells(|m0|, Taken(m0)) ==> Undamaged(m, shown, c)
    ensures CodewordUndamaged(m0, m, shown, i)
  {
    hide Undamaged, Taken, FreeCells;
    var free := FreeCells(|m0|, Taken(m0));
    forall j | 8 * i <= j < 8 * i + 8 ensures Undamaged(m, shown, free[j]) {
      assert free[j] in free;
    }
  }

  /** Reading an undamaged matrix gives back all the codewords embedded in it. */
  lemma PlacementRoundTrip(m0: seq<seq<nat>>, m: seq<seq<nat>>, shown: seq<seq<bool>>, bytes: seq<nat>, mask: nat)
    requires Square(m0) && Square(m) && SquareBits(shown) && mask < 8
    requires Placed(m0, m, ByteBits(bytes), mask, Zigzag(|m0|, |m0| - 1, true))
    requires forall k :: 0 <= k < |bytes| ==> bytes[k] < 256
    requires |bytes| == |FreeCells(|m0|, Taken(m0))| / 8
    requires forall c :: c in FreeCells(|m0|, Taken(m0)) ==> Undamaged(m, shown, c)
    ensures Octets(ReadBits(shown, mask, FreeCells(|m0|, Taken(m0)))) == bytes
  {
    hide *;
    var read := Octets(ReadBits(shown, mask, FreeCells(|m0|, Taken(m0))));
    forall i | 0 <= i < |bytes| ensures read[i] == bytes[i] {
      AllUndamaged(m0, m, shown, i);
      CodewordRoundTrip(m0, m, shown, bytes, mask, i);
    }
  }
}
