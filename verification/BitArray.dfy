/** The growing bit array packed into 32-bit words. Its operations are proved against the plain
    sequence of booleans it stands for. */
module BitArray {
  import opened BinaryDigits
  import opened BitWords
  import opened Wrappers

  datatype BitError = IllegalArgument

  /** Bit i of a sequence of words, lowest bit of each word first. */
  predicate BitOf(ws: seq<bv32>, i: nat)
    requires i < 32 * |ws|
  {
    WordBit(ws[i / 32], At(i))
  }

  /** The position of bit i inside its word. */
  function At(i: nat): (k: Pos)
    ensures k < 32
  {
    PosOrder(i % 32, 32);
    P(i % 32)
  }

  ghost predicate CleanTail(ws: seq<bv32>, size: nat) {
    && size <= 32 * |ws|
    && forall i: nat :: size <= i < 32 * |ws| ==> !BitOf(ws, i)
  }

  function BitsOf(ws: seq<bv32>, size: nat): (s: seq<bool>)
    requires size <= 32 * |ws|
    ensures |s| == size
  {
    seq(size, i requires 0 <= i < size => BitOf(ws, i))
  }

  /** The low n binary digits of v, highest first. */
  function Digits(v: nat, n: nat): (s: seq<bool>)
    ensures |s| == n
  {
    if n == 0 then [] else Digits(v / 2, n - 1) + [v % 2 == 1]
  }

  /** The low n binary digits of an integer: of its 32-bit two's complement pattern when it is negative. */
  function LowDigits(v: int, n: nat): (s: seq<bool>)
    ensures |s| == n
  {
    Digits(if v >= 0 then v else v % 0x1_0000_0000, n)
  }

  function Reversed(s: seq<bool>): (r: seq<bool>)
    ensures |r| == |s| && forall i :: 0 <= i < |s| ==> r[i] == s[|s| - 1 - i]
  {
    seq(|s|, i requires 0 <= i < |s| => s[|s| - 1 - i])
  }

  /** r is the first index from `from` on that holds v, or the length if there is none. */
  ghost predicate FirstFrom(s: seq<bool>, from: nat, v: bool, r: nat) {
    if from >= |s| then r == |s|
    else from <= r <= |s| && (forall i :: from <= i < r ==> s[i] != v) && (r < |s| ==> s[r] == v)
  }

  // ---------------------------------------------------------------- words

  lemma SameWord(i: nat, j: nat)
    ensures i / 32 == j / 32 ==> (At(i) == At(j) <==> i == j)
    ensures i / 32 == j / 32 ==> (At(i) <= At(j) <==> i <= j)
  {
    PosOrder(i % 32, j % 32);
  }

  lemma ZeroWords(ws: seq<bv32>, from: nat)
    requires from <= 32 * |ws| && forall k :: from / 32 <= k < |ws| ==> ws[k] == 0
    ensures CleanTail(ws, from)
  {
    hide WordBit, At, SetBit, FlipBit, TestBit, KeepFrom, RangeMask, And, Or, Not;
    forall i: nat | from <= i < 32 * |ws| ensures !BitOf(ws, i) {
      ZeroWord(At(i));
    }
  }

  lemma Grown(ws: seq<bv32>, es: seq<bv32>, size: nat)
    requires CleanTail(ws, size) && |ws| <= |es|
    requires forall k :: 0 <= k < |es| ==> es[k] == if k < |ws| then ws[k] else 0
    ensures CleanTail(es, size) && BitsOf(es, size) == BitsOf(ws, size)
  {
    hide WordBit, At, SetBit, FlipBit, TestBit, KeepFrom, RangeMask, And, Or, Not;
    forall i: nat | size <= i < 32 * |es| ensures !BitOf(es, i) {
      if i >= 32 * |ws| {
        ZeroWord(At(i));
      } else {
        assert BitOf(es, i) == BitOf(ws, i);
      }
    }
    forall i: nat | i < size ensures BitOf(es, i) == BitOf(ws, i) {
    }
  }

  lemma SetOne(ws: seq<bv32>, p: nat, i: nat)
    requires p < 32 * |ws| && i < 32 * |ws|
    ensures BitOf(ws[p / 32 := SetBit(ws[p / 32], At(p))], i) <==> BitOf(ws, i) || i == p
  {
    hide WordBit, At, SetBit, FlipBit, TestBit, KeepFrom, RangeMask, And, Or, Not;
    SetBitAt(ws[p / 32], At(p), At(i));
    SameWord(i, p);
  }

  lemma AppendOne(ws: seq<bv32>, n: nat, b: bool)
    requires CleanTail(ws, n) && n < 32 * |ws|
    ensures var w := if b then ws[n / 32 := SetBit(ws[n / 32], At(n))] else ws;
            CleanTail(w, n + 1) && BitsOf(w, n + 1) == BitsOf(ws, n) + [b]
  {
    var w := if b then ws[n / 32 := SetBit(ws[n / 32], At(n))] else ws;
    forall j: nat | j < 32 * |ws| ensures BitOf(w, j) <==> BitOf(ws, j) || (b && j == n) {
      SetOne(ws, n, j);
    }
    hide BitOf;
  }

  lemma SetIn(ws: seq<bv32>, n: nat, i: nat)
    requires CleanTail(ws, n) && i < n
    ensures var w := ws[i / 32 := SetBit(ws[i / 32], At(i))];
            CleanTail(w, n) && BitsOf(w, n) == BitsOf(ws, n)[i := true]
  {
    var w := ws[i / 32 := SetBit(ws[i / 32], At(i))];
    forall j: nat | j < 32 * |ws| ensures BitOf(w, j) <==> BitOf(ws, j) || j == i {
      SetOne(ws, i, j);
    }
    hide BitOf;
  }

  lemma FlipIn(ws: seq<bv32>, n: nat, i: nat)
    requires CleanTail(ws, n) && i < n
    ensures var w := ws[i / 32 := FlipBit(ws[i / 32], At(i))];
            CleanTail(w, n) && BitsOf(w, n) == BitsOf(ws, n)[i := !BitsOf(ws, n)[i]]
  {
    var w := ws[i / 32 := FlipBit(ws[i / 32], At(i))];
    forall j: nat | j < 32 * |ws| ensures BitOf(w, j) <==> (BitOf(ws, j) != (j == i)) {
      FlipOne(ws, i, j);
    }
    hide BitOf;
  }

  lemma FlipOne(ws: seq<bv32>, p: nat, i: nat)
    requires p < 32 * |ws| && i < 32 * |ws|
    ensures BitOf(ws[p / 32 := FlipBit(ws[p / 32], At(p))], i) <==> (BitOf(ws, i) != (i == p))
  {
    hide WordBit, At, SetBit, FlipBit, TestBit, KeepFrom, RangeMask, And, Or, Not;
    FlipBitAt(ws[p / 32], At(p), At(i));
    SameWord(i, p);
  }

  // ---------------------------------------------------------------- digits

  lemma {:induction false} DigitsAt(v: nat, n: nat, k: nat)
    requires k < n
    ensures Digits(v, n)[k] <==> (v / Pow2(n - 1 - k)) % 2 == 1
    decreases n
  {
    if k < n - 1 {
      DigitsAt(v / 2, n - 1, k);
      HalfThenShift(v, Pow2(n - 2 - k));
    } else {
      assert v / 1 == v;
    }
  }

  lemma HalfThenShift(v: nat, m: nat)
    requires m > 0
    ensures (v / 2) / m == v / (2 * m)
  {
    var q, r := v / (2 * m), v % (2 * m);
    assert v == (2 * m) * q + r;
    assert (2 * m) * q == 2 * (m * q);
    assert v / 2 == m * q + r / 2;
    DivModIs(v / 2, m, q, r / 2);
  }

  class BitArray {
    var size: nat
    var bits: array<bv32>

    /** The words hold the size bits, and no bit beyond them is set. */
    ghost predicate Valid()
      reads this, bits
    {
      CleanTail(bits[..], size)
    }

    ghost function Contents(): (s: seq<bool>)
      requires Valid()
      reads this, bits
    {
      BitsOf(bits[..], size)
    }

    constructor ()
      ensures Valid() && Contents() == [] && fresh(bits)
    {
      size := 0;
      bits := new bv32[1](_ => 0);
      new;
      ZeroWords(bits[..], 0);
    }

    constructor OfSize(n: nat)
      ensures Valid() && fresh(bits)
      ensures Contents() == seq(n, _ => false)
    {
      size := n;
      bits := new bv32[(n + 31) / 32](_ => 0);
      new;
      ZeroWords(bits[..], 0);
    }

    function GetSizeInBytes(): nat
      reads this
    {
      (size + 7) / 8
    }

    /** A read beyond the words finds nothing, which the source's test takes for an unset bit. */
    method Get(i: nat) returns (b: bool)
      requires Valid()
      ensures b == if i < size then Contents()[i] else false
    {
      hide WordBit, At, SetBit, FlipBit, TestBit, KeepFrom, RangeMask, And, Or, Not;
      if i / 32 >= bits.Length {
        return false;
      }
      TestBitAt(bits[i / 32], At(i));
      b := TestBit(bits[i / 32], At(i));
      assert b == BitOf(bits[..], i);
    }

    /** An index beyond the size still sets its bit in the last words, which then are no longer clear; one beyond the
        words is ignored. */
    method Set(i: nat)
      requires Valid()
      modifies bits
      ensures forall j: nat :: j < 32 * bits.Length ==> (BitOf(bits[..], j) <==> BitOf(old(bits[..]), j) || j == i)
      ensures i < size ==> Valid() && Contents() == old(Contents())[i := true]
      ensures i >= 32 * bits.Length ==> Valid() && Contents() == old(Contents())
    {
      hide WordBit, At, SetBit, FlipBit, TestBit, KeepFrom, RangeMask, And, Or, Not;
      if i / 32 >= bits.Length {
        return;
      }
      forall j: nat | j < 32 * bits.Length
        ensures BitOf(bits[..][i / 32 := SetBit(bits[i / 32], At(i))], j) <==> BitOf(bits[..], j) || j == i
      {
        SetOne(bits[..], i, j);
      }
      if i < size {
        SetIn(bits[..], size, i);
      }
      ghost var w := bits[..][i / 32 := SetBit(bits[i / 32], At(i))];
      bits[i / 32] := SetBit(bits[i / 32], At(i));
      assert bits[..] == w;
    }

    method Flip(i: nat)
      requires Valid()
      modifies bits
      ensures forall j: nat :: j < 32 * bits.Length ==> (BitOf(bits[..], j) <==> (BitOf(old(bits[..]), j) != (j == i)))
      ensures i < size ==> Valid() && Contents() == old(Contents())[i := !old(Contents())[i]]
      ensures i >= 32 * bits.Length ==> Valid() && Contents() == old(Contents())
    {
      hide WordBit, At, SetBit, FlipBit, TestBit, KeepFrom, RangeMask, And, Or, Not;
      if i / 32 >= bits.Length {
        return;
      }
      forall j: nat | j < 32 * bits.Length
        ensures BitOf(bits[..][i / 32 := FlipBit(bits[i / 32], At(i))], j) <==> (BitOf(bits[..], j) != (j == i))
      {
        FlipOne(bits[..], i, j);
      }
      if i < size {
        FlipIn(bits[..], size, i);
      }
      ghost var w := bits[..][i / 32 := FlipBit(bits[i / 32], At(i))];
      bits[i / 32] := FlipBit(bits[i / 32], At(i));
      assert bits[..] == w;
    }

    method EnsureCapacity(n: nat)
      requires Valid()
      modifies this`bits
      ensures Valid() && Contents() == old(Contents())
      ensures n <= 32 * bits.Length
      ensures bits == old(bits) || fresh(bits)
    {
      if n > 32 * bits.Length {
        var e := new bv32[(n + 31) / 32](_ => 0);
        for k := 0 to bits.Length
          invariant bits == old(bits) && bits[..] == old(bits[..])
          invariant forall j :: 0 <= j < e.Length ==> e[j] == if j < k then bits[j] else 0
        {
          e[k] := bits[k];
        }
        Grown(bits[..], e[..], size);
        bits := e;
      }
    }

    method AppendBit(b: bool)
      requires Valid()
      modifies this, bits
      ensures Valid() && Contents() == old(Contents()) + [b]
      ensures bits == old(bits) || fresh(bits)
    {
      hide WordBit, At, SetBit, FlipBit, TestBit, KeepFrom, RangeMask, And, Or, Not;
      EnsureCapacity(size + 1);
      AppendOne(bits[..], size, b);
      ghost var w := if b then bits[..][size / 32 := SetBit(bits[size / 32], At(size))] else bits[..];
      if b {
        bits[size / 32] := SetBit(bits[size / 32], At(size));
      }
      assert bits[..] == w;
      size := size + 1;
    }

    /** Appends the low n binary digits of v, highest first; more than 32 are refused. */
    method AppendBits(v: int, n: int) returns (r: Result<(), BitError>)
      requires Valid()
      modifies this, bits
      ensures Valid() && (bits == old(bits) || fresh(bits))
      ensures n < 0 || n > 32 ==> r == Err(IllegalArgument) && Contents() == old(Contents())
      ensures 0 <= n <= 32 ==> r == Ok(()) && Contents() == old(Contents()) + LowDigits(v, n)
    {
      if n < 0 || n > 32 {
        return Err(IllegalArgument);
      }
      EnsureCapacity(size + n);
      var pattern: nat := if v >= 0 then v else v % 0x1_0000_0000;
      var left := n;
      assert Digits(pattern, n)[..0] == [];
      while left > 0
        invariant 0 <= left <= n
        invariant Valid() && (bits == old(bits) || fresh(bits))
        invariant Contents() == old(Contents()) + Digits(pattern, n)[..n - left]
      {
        DigitsAt(pattern, n, n - left);
        AppendBit((pattern / Pow2(left - 1)) % 2 == 1);
        left := left - 1;
        assert Digits(pattern, n)[..n - left] == Digits(pattern, n)[..n - left - 1] + [Digits(pattern, n)[n - left - 1]];
      }
      assert Digits(pattern, n)[..n] == Digits(pattern, n);
      return Ok(());
    }

    /** The other array may be this one: its size is taken before anything is appended. */
    method AppendBitArray(other: BitArray)
      requires Valid() && other.Valid() && (other == this || other.bits != bits)
      modifies this, bits
      ensures Valid() && Contents() == old(Contents()) + old(other.Contents())
      ensures bits == old(bits) || fresh(bits)
    {
      hide CleanTail, BitsOf;
      var n := other.size;
      EnsureCapacity(size + n);
      for i := 0 to n
        invariant Valid() && (bits == old(bits) || fresh(bits))
        invariant other != this ==> other.bits != bits
        invariant other != this ==> other.Valid() && other.Contents() == old(other.Contents()) && other.size == n
        invariant Contents() == old(Contents()) + old(other.Contents())[..i]
      {
        var b := other.Get(i);
        AppendBit(b);
        assert old(other.Contents())[..i + 1] == old(other.Contents())[..i] + [old(other.Contents())[i]];
      }
      assert old(other.Contents())[..n] == old(other.Contents());
    }

    /** Sets the bits from start up to, not including, end. */
    method SetRange(start: int, end: int) returns (r: Result<(), BitError>)
      requires Valid()
      modifies bits
      ensures Valid()
      ensures end < start || start < 0 || end > size ==> r == Err(IllegalArgument) && Contents() == old(Contents())
      ensures 0 <= start <= end <= size ==>
                r == Ok(()) &&
                Contents() == old(Contents())[..start] + seq(end - start, _ => true) + old(Contents())[end..]
    {
      hide WordBit, At, RangeOf, RangeMask, And, Or;
      if end < start || start < 0 || end > size {
        return Err(IllegalArgument);
      }
      if end == start {
        return Ok(());
      }
      var last := end - 1;
      var first, final := start / 32, last / 32;
      ghost var before := bits[..];
      for s := first to final + 1
        invariant forall k :: 0 <= k < bits.Length ==>
                    bits[k] == if first <= k < s then Or(before[k], RangeOf(start, last, k)) else before[k]
      {
        var mask := RangeOf(start, last, s);
        bits[s] := Or(bits[s], mask);
      }
      RangeSet(before, bits[..], size, start, end);
      return Ok(());
    }

    /** Whether all bits from start up to end hold the value. */
    method IsRange(start: int, end: int, value: bool) returns (r: Result<bool, BitError>)
      requires Valid()
      ensures end < start || start < 0 || end > size ==> r == Err(IllegalArgument)
      ensures 0 <= start <= end <= size ==>
                r == Ok(forall i :: start <= i < end ==> Contents()[i] == value)
    {
      hide WordBit, At, RangeOf, RangeMask, And, Or;
      if end < start || start < 0 || end > size {
        return Err(IllegalArgument);
      }
      if end == start {
        return Ok(true);
      }
      var last := end - 1;
      var first, final := start / 32, last / 32;
      for o := first to final + 1
        invariant forall i: nat :: start <= i < end && i / 32 < o ==> Contents()[i] == value
      {
        var mask := RangeOf(start, last, o);
        if And(bits[o], mask) != if value then mask else 0 {
          var i := RangeMiss(bits[o], start, last, o, value);
          assert Contents()[i] != value;
          return Ok(false);
        }
        forall i: nat | start <= i < end && i / 32 == o ensures Contents()[i] == value {
          RangeHit(bits[o], start, last, i, value);
        }
      }
      return Ok(true);
    }

    method GetNextSet(from: nat) returns (r: nat)
      requires Valid()
      ensures FirstFrom(Contents(), from, true, r)
    {
      hide WordBit, At, ScanIndex, KeepFrom, Not;
      if from >= size {
        return size;
      }
      var n := from / 32;
      KeepFromFacts(bits[n], from);
      var w := KeepFrom(bits[n], At(from));
      while w == 0
        invariant from / 32 <= n < bits.Length
        invariant ScanWord(bits[n], from, n, w)
        invariant forall i: nat :: from <= i < 32 * n ==> !BitOf(bits[..], i)
        decreases bits.Length - n
      {
        forall i: nat | from <= i < 32 * (n + 1) && i / 32 == n ensures !BitOf(bits[..], i) {
          ZeroWord(At(i));
        }
        n := n + 1;
        if n == bits.Length {
          return size;
        }
        w := bits[n];
      }
      ScanResult(bits[..], from, n, w);
      r := ScanIndex(n, w);
      if r > size {
        r := size;
      }
    }

    method GetNextUnset(from: nat) returns (r: nat)
      requires Valid()
      ensures FirstFrom(Contents(), from, false, r)
    {
      hide WordBit, At, ScanIndex, KeepFrom, Not;
      if from >= size {
        return size;
      }
      var n := from / 32;
      KeepFromFacts(Not(bits[n]), from);
      var w := KeepFrom(Not(bits[n]), At(from));
      ghost var flipped := Flipped(bits[..]);
      Complement(bits[..]);
      while w == 0
        invariant from / 32 <= n < bits.Length
        invariant ScanWord(Not(bits[n]), from, n, w)
        invariant forall i: nat :: from <= i < 32 * n ==> !BitOf(flipped, i)
        decreases bits.Length - n
      {
        forall i: nat | from <= i < 32 * (n + 1) && i / 32 == n ensures !BitOf(flipped, i) {
          ZeroWord(At(i));
        }
        n := n + 1;
        if n == bits.Length {
          return size;
        }
        w := Not(bits[n]);
      }
      ScanResult(flipped, from, n, w);
      r := ScanIndex(n, w);
      if r > size {
        r := size;
      }
    }

    /** Reverses the bits: each word by itself, the words among each other, then everything down
        by the unused bits of the last word. */
    method Reverse()
      requires Valid()
      modifies this
      ensures Valid() && fresh(bits) && size == old(size)
      ensures Contents() == Reversed(old(Contents()))
    {
      hide WordBit, BitOf, Reversed, P;
      var r := (size - 1) / 32 + 1;
      var t := SwapWords(bits, r);
      ghost var swapped := t[..];
      if size != 32 * r {
        ShiftDown(t, r, 32 * r - size);
      }
      ReverseWords(bits[..], swapped, t[..], size, r);
      bits := t;
    }

    /** Exclusive-or with an array of the same size, word by word; a word the other lacks counts as zero. */
    method XorWith(other: BitArray) returns (r: Result<(), BitError>)
      requires Valid() && other.Valid() && (other == this || other.bits != bits)
      modifies bits
      ensures Valid() && size == old(size)
      ensures size != other.size ==> r == Err(IllegalArgument) && Contents() == old(Contents())
      ensures size == other.size ==>
                r == Ok(()) && forall i :: 0 <= i < size ==> Contents()[i] == (old(Contents())[i] != old(other.Contents())[i])
    {
      hide WordBit, At, XorWord;
      if size != other.size {
        return Err(IllegalArgument);
      }
      ghost var before, others := bits[..], other.bits[..];
      for k := 0 to bits.Length
        invariant other != this ==> other.bits[..] == others
        invariant forall j :: 0 <= j < bits.Length ==> bits[j] == if j < k then XorWord(before[j], WordAt(others, j)) else before[j]
      {
        bits[k] := XorWord(bits[k], WordAt(other.bits[..], k));
      }
      XorWords(before, others, bits[..], size);
      return Ok(());
    }

    /** The inner packing loop: one byte, highest bit first. */
    method PackNext(from: nat) returns (b: bv8)
      requires Valid()
      ensures b == PackByte(Contents(), from)
    {
      hide OrHighBit;
      b := 0;
      for e := 0 to 8
        invariant b == PackBits(Contents(), from, e)
      {
        var bit := Get(from + e);
        if bit {
          b := OrHighBit(b, e);
        }
      }
    }

    /** Packs n bytes of bits from bit offset `from` on into dst, highest bit first; bits beyond the end read as zero. */
    method ToBytes(from: nat, dst: array<bv8>, to: nat, n: nat)
      requires Valid() && to + n <= dst.Length
      modifies dst
      ensures forall k :: 0 <= k < dst.Length ==>
                dst[k] == if to <= k < to + n then PackByte(Contents(), from + 8 * (k - to)) else old(dst[k])
    {
      var at := from;
      for i := 0 to n
        invariant at == from + 8 * i
        invariant forall k :: 0 <= k < dst.Length ==>
                    dst[k] == if to <= k < to + i then PackByte(Contents(), from + 8 * (k - to)) else old(dst[k])
      {
        var b := PackNext(at);
        at := at + 8;
        dst[to + i] := b;
      }
    }
  }

  // ---------------------------------------------------------------- ranges

  /** The mask of word k for the bits start .. last. */
  function RangeOf(start: nat, last: nat, k: nat): bv32 {
    RangeMask(if k > start / 32 then 0 else At(start), if k < last / 32 then 31 else At(last))
  }

  lemma RangeOfBit(start: nat, last: nat, i: nat)
    requires start <= last && start / 32 <= i / 32 <= last / 32
    ensures WordBit(RangeOf(start, last, i / 32), At(i)) <==> start <= i <= last
  {
    hide WordBit, At, SetBit, FlipBit, TestBit, KeepFrom, RangeMask, And, Or, Not;
    var k := i / 32;
    var f: Pos := if k > start / 32 then 0 else At(start);
    var l: Pos := if k < last / 32 then 31 else At(last);
    SameWord(start, last);
    SameWord(start, i);
    SameWord(i, last);
    RangeMaskAt(f, l, At(i));
  }

  lemma RangeSet(before: seq<bv32>, after: seq<bv32>, size: nat, start: nat, end: nat)
    requires CleanTail(before, size) && |after| == |before| && start < end <= size
    requires forall k :: 0 <= k < |before| ==>
               after[k] == if start / 32 <= k <= (end - 1) / 32 then Or(before[k], RangeOf(start, end - 1, k)) else before[k]
    ensures CleanTail(after, size)
    ensures BitsOf(after, size) == BitsOf(before, size)[..start] + seq(end - start, _ => true) + BitsOf(before, size)[end..]
  {
    forall i: nat | i < 32 * |before| ensures BitOf(after, i) <==> BitOf(before, i) || start <= i < end {
      RangeSetBit(before, after, start, end, i);
    }
    hide BitOf;
  }

  lemma RangeSetBit(before: seq<bv32>, after: seq<bv32>, start: nat, end: nat, i: nat)
    requires |after| == |before| && start < end <= 32 * |before| && i < 32 * |before|
    requires after[i / 32] == if start / 32 <= i / 32 <= (end - 1) / 32
                              then Or(before[i / 32], RangeOf(start, end - 1, i / 32)) else before[i / 32]
    ensures BitOf(after, i) <==> BitOf(before, i) || start <= i < end
  {
    hide WordBit, At, RangeOf, RangeMask, And, Or;
    if start / 32 <= i / 32 <= (end - 1) / 32 {
      RangeOfBit(start, end - 1, i);
      OrAt(before[i / 32], RangeOf(start, end - 1, i / 32), At(i));
    }
  }

  lemma RangeHit(w: bv32, start: nat, last: nat, i: nat, value: bool)
    requires start <= i <= last
    requires var m := RangeOf(start, last, i / 32); And(w, m) == if value then m else 0
    ensures WordBit(w, At(i)) == value
  {
    hide WordBit, At, RangeOf, RangeMask, And, Or;
    RangeOfBit(start, last, i);
    MaskedEqual(w, RangeOf(start, last, i / 32), At(i));
  }

  lemma RangeMiss(w: bv32, start: nat, last: nat, o: nat, value: bool) returns (i: nat)
    requires start <= last && start / 32 <= o <= last / 32
    requires var m := RangeOf(start, last, o); And(w, m) != if value then m else 0
    ensures start <= i <= last && i / 32 == o && WordBit(w, At(i)) != value
  {
    hide WordBit, At, RangeOf, RangeMask, And, Or;
    var m := RangeOf(start, last, o);
    var k: Pos;
    if value {
      k := MaskMissed(w, m);
    } else {
      k := MaskMet(w, m);
    }
    i := 32 * o + (k as nat);
    IndexOf(o, k);
    RangeOfBit(start, last, i);
  }

  lemma IndexOf(o: nat, k: Pos)
    requires k < 32
    ensures (k as nat) < 32
    ensures (32 * o + (k as nat)) / 32 == o && At(32 * o + (k as nat)) == k
  {
    hide WordBit;
    PosNumber(k);
  }

  // ---------------------------------------------------------------- scanning

  /** The word under scan keeps exactly the bits of w0 that are not before from. */
  ghost predicate ScanWord(w0: bv32, from: nat, n: nat, w: bv32) {
    forall i: nat :: i / 32 == n ==> (WordBit(w, At(i)) <==> WordBit(w0, At(i)) && from <= i)
  }

  lemma KeepFromFacts(w: bv32, from: nat)
    ensures ScanWord(w, from, from / 32, KeepFrom(w, At(from)))
  {
    hide WordBit, At, SetBit, FlipBit, TestBit, KeepFrom, RangeMask, And, Or, Not;
    forall i: nat | i / 32 == from / 32
      ensures WordBit(KeepFrom(w, At(from)), At(i)) <==> WordBit(w, At(i)) && from <= i
    {
      KeepFromAt(w, At(from), At(i));
      SameWord(from, i);
    }
  }

  function ScanIndex(n: nat, w: bv32): (r: nat)
    requires w != 0
  {
    32 * n + (TrailingZeros(w) as nat)
  }

  lemma ScanIndexIs(n: nat, w: bv32)
    requires w != 0
    ensures ScanIndex(n, w) / 32 == n && WordBit(w, At(ScanIndex(n, w)))
    ensures forall j: Pos :: j < At(ScanIndex(n, w)) ==> !WordBit(w, j)
  {
    hide WordBit, TrailingZeros;
    IndexOf(n, TrailingZeros(w));
  }

  lemma ScanResult(ws: seq<bv32>, from: nat, n: nat, w: bv32)
    requires n < |ws| && w != 0 && ScanWord(ws[n], from, n, w)
    requires forall i: nat :: from <= i < 32 * n ==> !BitOf(ws, i)
    ensures from <= ScanIndex(n, w) < 32 * |ws| && BitOf(ws, ScanIndex(n, w))
    ensures forall i: nat :: from <= i < ScanIndex(n, w) ==> !BitOf(ws, i)
  {
    hide WordBit, At, ScanIndex;
    ScanIndexIs(n, w);
    var r := ScanIndex(n, w);
    assert 32 * n <= r < 32 * n + 32;
    assert WordBit(ws[n], At(r)) && from <= r;
    forall i: nat | from <= i < r ensures !BitOf(ws, i) {
      if i >= 32 * n {
        assert i / 32 == n;
        SameWord(i, r);
      }
    }
  }

  function Flipped(ws: seq<bv32>): (r: seq<bv32>)
    ensures |r| == |ws| && forall k :: 0 <= k < |ws| ==> r[k] == Not(ws[k])
  {
    seq(|ws|, k requires 0 <= k < |ws| => Not(ws[k]))
  }

  lemma Complement(ws: seq<bv32>)
    ensures forall i: nat :: i < 32 * |ws| ==> BitOf(Flipped(ws), i) == !BitOf(ws, i)
  {
    hide WordBit, At, SetBit, FlipBit, TestBit, KeepFrom, RangeMask, And, Or, Not;
    forall i: nat | i < 32 * |ws| ensures BitOf(Flipped(ws), i) == !BitOf(ws, i) {
      NotAt(ws[i / 32], At(i));
    }
  }

  /** Word k, or zero beyond the end. */
  function WordAt(ws: seq<bv32>, k: nat): bv32 {
    if k < |ws| then ws[k] else 0
  }

  lemma XorWords(ws: seq<bv32>, vs: seq<bv32>, xs: seq<bv32>, size: nat)
    requires CleanTail(ws, size) && CleanTail(vs, size) && |xs| == |ws|
    requires forall k :: 0 <= k < |ws| ==> xs[k] == XorWord(ws[k], WordAt(vs, k))
    ensures CleanTail(xs, size)
    ensures forall i: nat :: i < size ==> BitsOf(xs, size)[i] == (BitsOf(ws, size)[i] != BitsOf(vs, size)[i])
  {
    hide WordBit, At, XorWord;
    forall i: nat | i < 32 * |ws|
      ensures BitOf(xs, i) == (BitOf(ws, i) != (i < 32 * |vs| && BitOf(vs, i)))
    {
      XorAt(ws[i / 32], WordAt(vs, i / 32), At(i));
      ZeroWord(At(i));
    }
  }

  // ---------------------------------------------------------------- reversal

  /** The first r words, each reversed, in reverse order. */
  method SwapWords(ws: array<bv32>, r: nat) returns (t: array<bv32>)
    requires r <= ws.Length
    ensures fresh(t) && t.Length == ws.Length
    ensures forall k :: 0 <= k < t.Length ==> t[k] == if k < r then ReverseWord(ws[r - 1 - k]) else 0
  {
    hide ReverseWord;
    t := new bv32[ws.Length](_ => 0);
    for i := 0 to r
      invariant forall k :: 0 <= k < t.Length ==> t[k] == if r - 1 - i < k < r then ReverseWord(ws[r - 1 - k]) else 0
    {
      t[r - 1 - i] := ReverseWord(ws[i]);
    }
  }

  /** Moves the bits of the first r words down by n, across word borders. */
  method ShiftDown(t: array<bv32>, r: nat, n: nat)
    requires 0 < r <= t.Length && 0 < n < 32
    modifies t
    ensures 0 < P(n) < 32
    ensures forall k :: 0 <= k < r - 1 ==> t[k] == Paired(old(t[k]), old(t[k + 1]), P(n))
    ensures t[r - 1] == Shr(old(t[r - 1]), P(n))
    ensures forall k :: r <= k < t.Length ==> t[k] == old(t[k])
  {
    hide Or, Shr, Shl, P, Paired;
    ShiftFacts(n);
    ghost var before := t[..];
    var shift := P(n);
    var w := Shr(t[0], shift);
    for i := 1 to r
      invariant w == Shr(before[i - 1], shift)
      invariant forall k :: 0 <= k < i - 1 ==> t[k] == Paired(before[k], before[k + 1], shift)
      invariant forall k :: i - 1 <= k < t.Length ==> t[k] == before[k]
    {
      var next := t[i];
      PairedIs(before[i - 1], next, shift);
      w := Or(w, Shl(next, 32 - shift));
      t[i - 1] := w;
      w := Shr(next, shift);
    }
    t[r - 1] := w;
  }

  lemma ShiftFacts(n: nat)
    requires 0 < n < 32
    ensures 0 < P(n) < 32
  {
    PosOrder(0, n);
    PosOrder(n, 32);
  }

  /** Reversing all r words reverses their 32*r bits. */
  lemma SwappedBit(ws: seq<bv32>, swapped: seq<bv32>, r: nat, j: nat)
    requires r <= |ws| == |swapped| && j < 32 * r
    requires forall k :: 0 <= k < r ==> swapped[k] == ReverseWord(ws[r - 1 - k])
    ensures BitOf(swapped, j) == BitOf(ws, 32 * r - 1 - j)
  {
    hide WordBit, ReverseWord;
    var i := 32 * r - 1 - j;
    assert i / 32 == r - 1 - j / 32 && i % 32 == 31 - j % 32;
    ReverseWordBit(ws[i / 32], At(j));
    PosSum(i % 32, j % 32);
    PosValues31();
  }

  lemma PosValues31()
    ensures P(31) == 31 && P(32) == 32
  {
  }

  lemma BitUnfold(ws: seq<bv32>, i: nat)
    requires i < 32 * |ws|
    ensures BitOf(ws, i) == WordBit(ws[i / 32], At(i))
  {
  }

  lemma ShiftedBit(ws: seq<bv32>, ts: seq<bv32>, r: nat, n: nat, j: nat)
    requires r <= |ws| == |ts| && 0 < n < 32 && 0 < P(n) < 32 && j < 32 * r
    requires forall k :: 0 <= k < r - 1 ==> ts[k] == Paired(ws[k], ws[k + 1], P(n))
    requires r > 0 ==> ts[r - 1] == Shr(ws[r - 1], P(n))
    ensures BitOf(ts, j) <==> j + n < 32 * r && BitOf(ws, j + n)
  {
    hide *;
    var k := j / 32;
    BitUnfold(ts, j);
    if k < r - 1 {
      ShiftedInside(ws, ts[k], n, j);
    } else {
      ShiftedLast(ws, ts[k], n, j);
    }
  }

  lemma ShiftedInside(ws: seq<bv32>, t: bv32, n: nat, j: nat)
    requires 0 < n < 32 && 0 < P(n) < 32 && j / 32 + 1 < |ws|
    requires t == Paired(ws[j / 32], ws[j / 32 + 1], P(n))
    ensures WordBit(t, At(j)) <==> BitOf(ws, j + n)
  {
    hide *;
    ShiftPair(ws[j / 32], ws[j / 32 + 1], P(n), At(j));
    AtShift(j, n);
    BitUnfold(ws, j + n);
  }

  lemma ShiftedLast(ws: seq<bv32>, t: bv32, n: nat, j: nat)
    requires 0 < n < 32 && 0 < P(n) < 32 && j / 32 < |ws|
    requires t == Shr(ws[j / 32], P(n))
    ensures WordBit(t, At(j)) <==> (j + n) / 32 == j / 32 && BitOf(ws, j + n)
  {
    hide *;
    ShiftLast(ws[j / 32], P(n), At(j));
    AtShift(j, n);
    if (j + n) / 32 == j / 32 {
      BitUnfold(ws, j + n);
    }
  }

  /** Adding n to a bit index either stays in the word or enters the next one. */
  lemma AtShift(j: nat, n: nat)
    requires 0 < n < 32 && P(n) < 32
    ensures if At(j) + P(n) < 32
            then (j + n) / 32 == j / 32 && At(j + n) == At(j) + P(n)
            else (j + n) / 32 == j / 32 + 1 && At(j + n) == At(j) + P(n) - 32
  {
    PosSum(j % 32, n);
    PosValues31();
    PosOrder(j % 32 + n, 32);
    hide P;
    if j % 32 + n >= 32 {
      PosSum(j % 32 + n - 32, 32);
    }
  }

  lemma ReverseWords(ws: seq<bv32>, swapped: seq<bv32>, ts: seq<bv32>, size: nat, r: nat)
    requires CleanTail(ws, size) && |ws| == |swapped| == |ts| && r == (size + 31) / 32
    requires forall k :: 0 <= k < |ws| ==> swapped[k] == if k < r then ReverseWord(ws[r - 1 - k]) else 0
    requires size == 32 * r ==> ts == swapped
    requires size != 32 * r ==>
               && 0 < P(32 * r - size) < 32
               && (forall k :: 0 <= k < r - 1 ==> ts[k] == Paired(swapped[k], swapped[k + 1], P(32 * r - size)))
               && ts[r - 1] == Shr(swapped[r - 1], P(32 * r - size))
               && forall k :: r <= k < |ts| ==> ts[k] == swapped[k]
    ensures CleanTail(ts, size) && BitsOf(ts, size) == Reversed(BitsOf(ws, size))
  {
    hide WordBit, At, Or, Shr, Shl, Paired, ReverseWord;
    forall j: nat | j < 32 * |ws| ensures BitOf(ts, j) <==> j < size && BitOf(ws, size - 1 - j) {
      ReverseBit(ws, swapped, ts, size, r, j);
    }
    hide BitOf;
  }

  lemma ReverseBit(ws: seq<bv32>, swapped: seq<bv32>, ts: seq<bv32>, size: nat, r: nat, j: nat)
    requires CleanTail(ws, size) && |ws| == |swapped| == |ts| && r == (size + 31) / 32 && j < 32 * |ws|
    requires forall k :: 0 <= k < |ws| ==> swapped[k] == if k < r then ReverseWord(ws[r - 1 - k]) else 0
    requires size == 32 * r ==> ts == swapped
    requires size != 32 * r ==>
               && 0 < P(32 * r - size) < 32
               && (forall k :: 0 <= k < r - 1 ==> ts[k] == Paired(swapped[k], swapped[k + 1], P(32 * r - size)))
               && ts[r - 1] == Shr(swapped[r - 1], P(32 * r - size))
               && forall k :: r <= k < |ts| ==> ts[k] == swapped[k]
    ensures BitOf(ts, j) <==> j < size && BitOf(ws, size - 1 - j)
  {
    hide WordBit, At, Or, Shr, Shl, Paired, ReverseWord, P;
    var n := 32 * r - size;
    if j >= 32 * r {
      ZeroWord(At(j));
    } else if n == 0 {
      SwappedBit(ws, swapped, r, j);
    } else {
      ShiftedBit(swapped, ts, r, n, j);
      if j + n < 32 * r {
        SwappedBit(ws, swapped, r, j + n);
      }
    }
  }

  /** Reversing twice is the identity. */
  lemma ReversedTwice(s: seq<bool>)
    ensures Reversed(Reversed(s)) == s
  {
  }

  // ---------------------------------------------------------------- bytes

  /** Bit i, or false beyond the end. */
  function BitAt(s: seq<bool>, i: nat): bool {
    i < |s| && s[i]
  }

  /** The first e bits from i on, in the high bits of a byte. */
  function PackBits(s: seq<bool>, i: nat, e: nat): bv8
    requires e <= 8
  {
    if e == 0 then 0
    else if BitAt(s, i + e - 1) then OrHighBit(PackBits(s, i, e - 1), e - 1)
    else PackBits(s, i, e - 1)
  }

  /** Sets bit e of a byte, counted from the highest. */
  function OrHighBit(b: bv8, e: nat): bv8
    requires e < 8
  {
    ByteOrder(7 - e, 8);
    SetByte(b, Nib(7 - e))
  }

  function PackByte(s: seq<bool>, i: nat): bv8 {
    PackBits(s, i, 8)
  }
}
