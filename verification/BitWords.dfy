/** Facts about single 32-bit words and bytes, decided bit by bit. Bit positions are six-bit
    vectors, so that every shift amount is one. */
module BitWords {

  type Pos = bv6

  /** Bit k of a word. */
  predicate WordBit(w: bv32, k: Pos)
    requires k < 32
  {
    (w >> k) & 1 == 1
  }

  /** The library's own test of bit k, and its updates. */
  predicate TestBit(w: bv32, k: Pos)
    requires k < 32
  {
    w & (1 << k) != 0
  }

  lemma TestBitAt(w: bv32, k: Pos)
    requires k < 32
    ensures TestBit(w, k) <==> WordBit(w, k)
  {
  }

  function SetBit(w: bv32, k: Pos): bv32
    requires k < 32
  {
    w | (1 << k)
  }

  function FlipBit(w: bv32, k: Pos): bv32
    requires k < 32
  {
    w ^ (1 << k)
  }

  /** The word without its bits below k. */
  function KeepFrom(w: bv32, k: Pos): bv32
    requires k < 32
  {
    w & !((1 << k) - 1)
  }

  /** The mask of the bits f .. l, as the range operations build it. */
  function RangeMask(f: Pos, l: Pos): bv32
    requires f < 32 && l < 32
  {
    (2 << l) - (1 << f)
  }

  function And(v: bv32, w: bv32): bv32 {
    v & w
  }

  function Or(v: bv32, w: bv32): bv32 {
    v | w
  }

  function Not(w: bv32): bv32 {
    !w
  }

  function Shr(w: bv32, k: Pos): bv32
    requires k < 32
  {
    w >> k
  }

  function Shl(w: bv32, k: Pos): bv32
    requires k < 32
  {
    w << k
  }

  /** A bit position from its number. */
  function P(k: nat): Pos
    requires k < 64
  {
    k as bv6
  }

  lemma PosValue(k: nat)
    requires k < 64
    ensures P(k) as nat == k
  {
  }

  lemma PosNumber(k: Pos)
    requires k < 32
    ensures (k as nat) < 32 && P(k as nat) == k
  {
  }

  lemma PosOrder(j: nat, k: nat)
    requires j < 64 && k < 64
    ensures P(j) < P(k) <==> j < k
    ensures P(j) == P(k) <==> j == k
  {
    PosValue(j);
    PosValue(k);
  }

  lemma PosSum(j: nat, k: nat)
    requires j + k < 64
    ensures P(j + k) == P(j) + P(k)
  {
    hide P;
    PosValue(j);
    PosValue(k);
    PosValue(j + k);
    PosSumIs(P(j), P(k), P(j + k));
  }

  lemma PosSumIs(x: bv6, y: bv6, z: bv6)
    requires z as nat == (x as nat) + (y as nat)
    ensures z == x + y
  {
    PosRange(z);
    PosAdd(x, y);
    PosSame(z, x + y);
  }

  lemma PosRange(z: bv6)
    ensures z as nat < 64
  {
  }

  lemma PosSame(x: bv6, y: bv6)
    requires x as nat == y as nat
    ensures x == y
  {
  }

  lemma PosAdd(x: bv6, y: bv6)
    requires (x as nat) + (y as nat) < 64
    ensures (x + y) as nat == (x as nat) + (y as nat)
  {
  }

  lemma ZeroWord(k: Pos)
    requires k < 32
    ensures !WordBit(0, k)
  {
  }

  lemma SetBitAt(w: bv32, k: Pos, j: Pos)
    requires k < 32 && j < 32
    ensures WordBit(SetBit(w, k), j) <==> WordBit(w, j) || j == k
  {
  }

  lemma FlipBitAt(w: bv32, k: Pos, j: Pos)
    requires k < 32 && j < 32
    ensures WordBit(FlipBit(w, k), j) <==> (WordBit(w, j) != (j == k))
  {
  }

  lemma RangeMaskAt(f: Pos, l: Pos, k: Pos)
    requires f <= l < 32 && k < 32
    ensures WordBit(RangeMask(f, l), k) <==> f <= k <= l
  {
  }

  lemma OrAt(v: bv32, w: bv32, k: Pos)
    requires k < 32
    ensures WordBit(Or(v, w), k) <==> WordBit(v, k) || WordBit(w, k)
  {
    assert (v | w) >> k == (v >> k) | (w >> k);
  }

  function XorWord(v: bv32, w: bv32): bv32 {
    v ^ w
  }

  lemma XorAt(v: bv32, w: bv32, k: Pos)
    requires k < 32
    ensures WordBit(XorWord(v, w), k) <==> WordBit(v, k) != WordBit(w, k)
  {
    assert (v ^ w) >> k == (v >> k) ^ (w >> k);
  }

  lemma NotAt(w: bv32, k: Pos)
    requires k < 32
    ensures WordBit(Not(w), k) <==> !WordBit(w, k)
  {
  }

  lemma SomeBit(w: bv32) returns (k: Pos)
    requires w != 0
    ensures k < 32 && WordBit(w, k)
  {
    k := TrailingZeros(w);
  }

  function TrailingZeros(w: bv32): (r: Pos)
    requires w != 0
    ensures r < 32 && WordBit(w, r)
    ensures forall j: Pos :: j < r ==> !WordBit(w, j)
  {
    var r0: Pos := 31;
    var (w1, r1) := if w << 16 != 0 then (w << 16, r0 - 16) else (w, r0);
    var (w2, r2) := if w1 << 8 != 0 then (w1 << 8, r1 - 8) else (w1, r1);
    var (w3, r3) := if w2 << 4 != 0 then (w2 << 4, r2 - 4) else (w2, r2);
    var (w4, r4) := if w3 << 2 != 0 then (w3 << 2, r3 - 2) else (w3, r3);
    r4 - ((w4 << 1) >> 31) as Pos
  }

  lemma KeepFromAt(w: bv32, k: Pos, j: Pos)
    requires k < 32 && j < 32
    ensures WordBit(KeepFrom(w, k), j) <==> WordBit(w, j) && k <= j
  {
  }

  /** The five swapping steps reverse a word. */
  function ReverseWord(w: bv32): bv32 {
    var r1 := ((w >> 1) & 0x55555555) | ((w & 0x55555555) << 1);
    var r2 := ((r1 >> 2) & 0x33333333) | ((r1 & 0x33333333) << 2);
    var r3 := ((r2 >> 4) & 0x0F0F0F0F) | ((r2 & 0x0F0F0F0F) << 4);
    var r4 := ((r3 >> 8) & 0x00FF00FF) | ((r3 & 0x00FF00FF) << 8);
    ((r4 >> 16) & 0x0000FFFF) | ((r4 & 0x0000FFFF) << 16)
  }

  lemma ReverseWordBit(w: bv32, k: Pos)
    requires k < 32
    ensures WordBit(ReverseWord(w), k) <==> WordBit(w, 31 - k)
  {
  }

  /** The word a shifted right by e, taking in the low bits of the next word b. */
  function Paired(a: bv32, b: bv32, e: Pos): bv32
    requires 0 < e < 32
  {
    Or(Shr(a, e), Shl(b, 32 - e))
  }

  lemma PairedIs(a: bv32, b: bv32, e: Pos)
    requires 0 < e < 32
    ensures Paired(a, b, e) == Or(Shr(a, e), Shl(b, 32 - e))
  {
    hide Or, Shr, Shl;
  }

  lemma ShiftPair(a: bv32, b: bv32, e: Pos, k: Pos)
    requires 0 < e < 32 && k < 32
    ensures WordBit(Paired(a, b, e), k) <==> if k + e < 32 then WordBit(a, k + e) else WordBit(b, k + e - 32)
  {
    hide *;
    PairedIs(a, b, e);
    OrAt(Shr(a, e), Shl(b, 32 - e), k);
    ShiftLast(a, e, k);
    ShiftUp(b, e, k);
  }

  lemma ShiftUp(b: bv32, e: Pos, k: Pos)
    requires 0 < e < 32 && k < 32
    ensures WordBit(Shl(b, 32 - e), k) <==> k + e >= 32 && WordBit(b, k + e - 32)
  {
  }

  lemma ShiftLast(a: bv32, e: Pos, k: Pos)
    requires 0 < e < 32 && k < 32
    ensures WordBit(Shr(a, e), k) <==> k + e < 32 && WordBit(a, k + e)
  {
  }

  /** A bit of the mask that the word lacks. */
  lemma MaskMissed(w: bv32, m: bv32) returns (k: Pos)
    requires And(w, m) != m
    ensures k < 32 && WordBit(m, k) && !WordBit(w, k)
  {
    k := SomeBit((w & m) ^ m);
    MaskedBit(w, m, k);
  }

  /** A bit of the mask that the word has. */
  lemma MaskMet(w: bv32, m: bv32) returns (k: Pos)
    requires And(w, m) != 0
    ensures k < 32 && WordBit(m, k) && WordBit(w, k)
  {
    k := SomeBit(w & m);
    MaskedBit(w, m, k);
  }

  lemma MaskedEqual(w: bv32, m: bv32, k: Pos)
    requires k < 32 && WordBit(m, k)
    ensures And(w, m) == m ==> WordBit(w, k)
    ensures And(w, m) == 0 ==> !WordBit(w, k)
  {
  }

  lemma MaskedBit(w: bv32, m: bv32, k: Pos)
    requires k < 32
    ensures WordBit(w & m, k) <==> WordBit(w, k) && WordBit(m, k)
    ensures WordBit((w & m) ^ m, k) <==> WordBit(m, k) && !WordBit(w, k)
  {
  }

  // ---------------------------------------------------------------- bytes

  predicate ByteBit(b: bv8, k: bv4)
    requires k < 8
  {
    (b >> k) & 1 == 1
  }

  function Weight(b: bv8, k: bv4): nat
    requires k < 8
  {
    if ByteBit(b, k) then 1 else 0
  }

  lemma ByteValue(b: bv8)
    ensures b as nat == 128 * Weight(b, 7) + 64 * Weight(b, 6) + 32 * Weight(b, 5) + 16 * Weight(b, 4)
                     + 8 * Weight(b, 3) + 4 * Weight(b, 2) + 2 * Weight(b, 1) + Weight(b, 0)
  {
  }

  /** The o bits of a byte from bit a on, as the reader masks and shifts them. */
  function ByteField(b: bv8, a: bv4, o: bv4): bv8
    requires a <= 8 && o <= 8 - a
  {
    (b & ((255 >> (8 - o)) << a)) >> a
  }

  lemma ByteFieldBit(b: bv8, a: bv4, o: bv4, k: bv4)
    requires a <= 8 && o <= 8 - a && k < 8
    ensures ByteBit(ByteField(b, a, o), k) <==> k < o && ByteBit(b, a + k)
  {
  }

  function SetByte(b: bv8, k: bv4): bv8
    requires k < 8
  {
    b | (1 << k)
  }

  lemma SetByteAt(b: bv8, k: bv4, j: bv4)
    requires k < 8 && j < 8
    ensures ByteBit(SetByte(b, k), j) <==> ByteBit(b, j) || j == k
  {
  }

  /** A bit position within a byte from its number. */
  function Nib(k: nat): bv4
    requires k < 16
  {
    k as bv4
  }

  lemma ByteOrder(j: nat, k: nat)
    requires j < 16 && k < 16
    ensures Nib(j) < Nib(k) <==> j < k
    ensures Nib(j) == Nib(k) <==> j == k
    ensures Nib(8) == 8
  {
  }
}
