/** The bit reader over a byte array, and the round trip with the packing of bit arrays. */
module BitSource {
  import opened BinaryDigits
  import opened BitWords
  import opened BitArray
  import opened Wrappers

  /** The bits of a byte array, highest bit of each byte first. */
  function Stream(bytes: seq<bv8>): (s: seq<bool>)
    ensures |s| == 8 * |bytes|
  {
    seq(8 * |bytes|, i requires 0 <= i < 8 * |bytes| => HighBit(bytes[i / 8], i % 8))
  }

  /** Bit e of a byte, counted from the highest. */
  predicate HighBit(b: bv8, e: nat)
    requires e < 8
  {
    ByteOrder(7 - e, 8);
    ByteBit(b, Nib(7 - e))
  }

  /** The number written by binary digits, highest first. */
  function Number(s: seq<bool>): nat {
    if s == [] then 0 else 2 * Number(s[..|s| - 1]) + if s[|s| - 1] then 1 else 0
  }

  /** A 32-bit pattern as the signed number the source's shifts produce. */
  function ToInt32(n: nat): int
    requires n < 0x1_0000_0000
  {
    if n < 0x8000_0000 then n else n - 0x1_0000_0000
  }

  /** The number in n bits of a byte array from bit `from` on. */
  function ReadValue(bytes: seq<bv8>, from: nat, n: nat): int
    requires from + n <= 8 * |bytes| && n <= 32
  {
    ResultBound(bytes, from, n);
    ToInt32(Number(Stream(bytes)[from..from + n]))
  }

  class BitSource {
    const bytes: seq<bv8>
    var byteOffset: nat
    var bitOffset: nat

    predicate Valid()
      reads this
    {
      bitOffset < 8 && byteOffset <= |bytes| && (bitOffset > 0 ==> byteOffset < |bytes|)
    }

    constructor (b: seq<bv8>)
      ensures Valid() && bytes == b && Position() == 0
    {
      bytes := b;
      byteOffset, bitOffset := 0, 0;
    }

    /** How many bits were read. */
    function Position(): nat
      reads this
    {
      8 * byteOffset + bitOffset
    }

    function Available(): (n: nat)
      requires Valid()
      reads this
      ensures n == 8 * |bytes| - Position()
    {
      8 * (|bytes| - byteOffset) - bitOffset
    }

    /** Reads n bits: the rest of the current byte, whole bytes, the start of the next byte. */
    method ReadBits(n: int) returns (r: Result<int, BitError>)
      requires Valid()
      modifies this
      ensures Valid()
      ensures n < 1 || n > 32 || n > old(Available()) ==> r == Err(IllegalArgument) && Position() == old(Position())
      ensures 1 <= n <= 32 && n <= old(Available()) ==>
                Position() == old(Position()) + n && r == Ok(ReadValue(bytes, old(Position()), n))
    {
      if n < 1 || n > 32 || n > Available() {
        return Err(IllegalArgument);
      }
      hide *;
      var e := ReadChecked(n);
      return Ok(e);
    }

    method ReadChecked(n: nat) returns (v: int)
      requires Valid() && 1 <= n <= 32 && n <= Available()
      modifies this
      ensures Valid() && Position() == old(Position()) + n
      ensures v == ReadValue(bytes, old(Position()), n)
    {
      hide Field, Stream, Number, ToInt32, Pow2, ReadValue;
      ghost var start := Position();
      var e, left := ReadRest(n);
      if left > 0 {
        e, left := ReadWholeBytes(e, left, start);
        if left > 0 {
          e := ReadStart(e, left, start);
        }
      }
      ReadValueIs(bytes, start, n);
      return ToInt32(e);
    }

    /** The rest of a byte that was begun. */
    method ReadRest(n: nat) returns (e: nat, left: nat)
      requires Valid() && 0 < n <= Available()
      modifies this
      ensures Valid() && left <= n && Position() == old(Position()) + n - left
      ensures left > 0 ==> bitOffset == 0
      ensures e == Number(Stream(bytes)[old(Position())..Position()])
    {
      hide Field, Stream;
      e, left := 0, n;
      assert Stream(bytes)[Position()..Position()] == [];
      if bitOffset > 0 {
        var rest := 8 - bitOffset;
        var o := if left < rest then left else rest;
        var a := rest - o;
        Extend(bytes, Position(), byteOffset, a, o);
        e := Field(bytes[byteOffset], a, o);
        left := left - o;
        bitOffset := bitOffset + o;
        if bitOffset == 8 {
          bitOffset, byteOffset := 0, byteOffset + 1;
        }
      }
    }

    /** The start of the next byte. */
    method ReadStart(e0: nat, n: nat, ghost start: nat) returns (e: nat)
      requires Valid() && bitOffset == 0 && start <= Position() && 0 < n < 8 && byteOffset < |bytes|
      requires e0 == Number(Stream(bytes)[start..Position()])
      modifies this
      ensures Valid() && Position() == old(Position()) + n
      ensures e == Number(Stream(bytes)[start..Position()])
    {
      hide Field, Stream, Number;
      var s := 8 - n;
      Extend(bytes, start, byteOffset, s, n);
      e := Pow2(n) * e0 + Field(bytes[byteOffset], s, n);
      bitOffset := bitOffset + n;
    }

    /** The loop over whole bytes. */
    method ReadWholeBytes(e0: nat, n: nat, ghost start: nat) returns (e: nat, left: nat)
      requires Valid() && bitOffset == 0 && start <= Position() && Position() + n <= 8 * |bytes|
      requires e0 == Number(Stream(bytes)[start..Position()])
      modifies this
      ensures Valid() && bitOffset == 0 && left < 8 && left <= n
      ensures Position() == old(Position()) + n - left
      ensures e == Number(Stream(bytes)[start..Position()])
    {
      hide Field, Stream, Number;
      e, left := e0, n;
      while left >= 8
        invariant Valid() && bitOffset == 0 && 0 <= left <= n
        invariant Position() == old(Position()) + n - left
        invariant e == Number(Stream(bytes)[start..Position()])
      {
        Extend(bytes, start, byteOffset, 0, 8);
        Pow2Is256();
        e := 256 * e + Field(bytes[byteOffset], 0, 8);
        byteOffset := byteOffset + 1;
        left := left - 8;
      }
    }
  }

  /** Reading o more bits of byte i, a bits above its end, extends the number. */
  lemma Extend(bytes: seq<bv8>, start: nat, i: nat, a: nat, o: nat)
    requires i < |bytes| && a + o <= 8 && start <= 8 * i + 8 - a - o
    ensures var at := 8 * i + 8 - a - o;
            Number(Stream(bytes)[start..at + o]) == Pow2(o) * Number(Stream(bytes)[start..at]) + Field(bytes[i], a, o)
    ensures Number(Stream(bytes)[start..start]) == 0
  {
    hide Field, Number;
    var s, at := Stream(bytes), 8 * i + 8 - a - o;
    FieldIsNumber(bytes, i, a, o);
    NumberAppend(s[start..at], s[at..at + o]);
    assert s[start..at] + s[at..at + o] == s[start..at + o];
    assert s[start..start] == [];
    NumberEmpty();
  }

  lemma ReadValueIs(bytes: seq<bv8>, from: nat, n: nat)
    requires from + n <= 8 * |bytes| && n <= 32
    ensures Number(Stream(bytes)[from..from + n]) < 0x1_0000_0000
    ensures ReadValue(bytes, from, n) == ToInt32(Number(Stream(bytes)[from..from + n]))
  {
    ResultBound(bytes, from, n);
  }

  lemma NumberEmpty()
    ensures Number([]) == 0
  {
  }

  lemma Pow2Is32()
    ensures Pow2(32) == 0x1_0000_0000
  {
    Pow2Is256();
    hide Pow2;
    Pow2Add(8, 8);
    assert Pow2(16) == 256 * 256;
    Pow2Add(16, 16);
  }

  lemma ResultBound(bytes: seq<bv8>, start: nat, n: nat)
    requires start + n <= |Stream(bytes)| && n <= 32
    ensures Number(Stream(bytes)[start..start + n]) < Pow2(n)
    ensures Number(Stream(bytes)[start..start + n]) < 0x1_0000_0000
  {
    hide Number, Stream;
    NumberBound(Stream(bytes)[start..start + n]);
    Pow2Monotone(n, 32);
    Pow2Is32();
  }

  lemma Pow2Is256()
    ensures Pow2(8) == 256
  {
    assert Pow2(3) == 8;
    assert Pow2(6) == 64;
  }

  // ---------------------------------------------------------------- numbers and digits

  lemma {:induction false} NumberBound(s: seq<bool>)
    ensures Number(s) < Pow2(|s|)
    decreases |s|
  {
    if s != [] {
      NumberBound(s[..|s| - 1]);
    }
  }

  lemma NumberLast(s: seq<bool>)
    requires s != []
    ensures Number(s) == 2 * Number(s[..|s| - 1]) + One(s[|s| - 1])
  {
  }

  lemma {:induction false} NumberAppend(s: seq<bool>, t: seq<bool>)
    ensures Number(s + t) == Pow2(|t|) * Number(s) + Number(t)
    decreases |t|
  {
    hide Number;
    NumberEmpty();
    if t == [] {
      assert s + t == s;
    } else {
      var i := t[..|t| - 1];
      assert (s + t)[..|s + t| - 1] == s + i;
      NumberLast(s + t);
      NumberLast(t);
      NumberAppend(s, i);
      TwicePow2(|t|, Number(s));
    }
  }

  lemma {:induction false} NumberZeros(n: nat, s: seq<bool>)
    ensures Number(seq(n, _ => false) + s) == Number(s)
    decreases |s|, n
  {
    var z := seq(n, _ => false);
    if s == [] {
      assert z + s == z;
      if n > 0 {
        assert z[..n - 1] == seq(n - 1, _ => false) + s;
        NumberZeros(n - 1, s);
      }
    } else {
      var i := s[..|s| - 1];
      assert (z + s)[..|z + s| - 1] == z + i;
      NumberZeros(n, i);
    }
  }

  /** Digits writes the number modulo 2^n. */
  lemma {:induction false} NumberDigits(v: nat, n: nat)
    ensures Number(Digits(v, n)) == v % Pow2(n)
    decreases n
  {
    if n > 0 {
      NumberDigits(v / 2, n - 1);
      assert Digits(v, n)[..n - 1] == Digits(v / 2, n - 1);
      ModTwice(v, Pow2(n - 1));
    }
  }

  lemma ModTwice(v: nat, m: nat)
    requires m > 0
    ensures v % (2 * m) == 2 * ((v / 2) % m) + v % 2
  {
    var q, r := (v / 2) / m, (v / 2) % m;
    assert v / 2 == m * q + r;
    assert v == (2 * m) * q + (2 * r + v % 2);
    DivModIs(v, 2 * m, q, 2 * r + v % 2);
  }

  /** A number below 2^n is recovered from its n digits. */
  lemma DigitsRoundTrip(v: nat, n: nat)
    requires v < Pow2(n)
    ensures Number(Digits(v, n)) == v
  {
    NumberDigits(v, n);
    DivModIs(v, Pow2(n), 0, v);
  }

  lemma {:induction false} DigitsOfNumber(s: seq<bool>)
    ensures Digits(Number(s), |s|) == s
    decreases |s|
  {
    if s != [] {
      NumberLast(s);
      DigitsOfNumber(s[..|s| - 1]);
    }
  }

  /** Fewer than 32 bits are read as their number; of 32 bits the first counts as minus 2^31. */
  lemma ReadsSigned(bytes: seq<bv8>, from: nat, n: nat)
    requires 1 <= n <= 32 && from + n <= 8 * |bytes|
    ensures n < 32 ==> ReadValue(bytes, from, n) == Number(Stream(bytes)[from..from + n])
    ensures n == 32 ==>
              ReadValue(bytes, from, n) ==
                Number(Stream(bytes)[from + 1..from + 32]) - if Stream(bytes)[from] then 0x8000_0000 else 0
  {
    hide Number, Stream, Pow2;
    var s := Stream(bytes)[from..from + n];
    TopPowers();
    ResultBound(bytes, from, n);
    if n < 32 {
      NumberBound(s);
      Pow2Monotone(n, 31);
    } else {
      var b, t := Stream(bytes)[from], Stream(bytes)[from + 1..from + 32];
      assert s == [b] + t;
      NumberAppend([b], t);
      NumberBound(t);
      OneBit(b);
    }
  }

  lemma OneBit(b: bool)
    ensures Number([b]) == if b then 1 else 0
  {
    assert [b][..0] == [];
  }

  lemma TopPowers()
    ensures Pow2(31) == 0x8000_0000
  {
    Pow2Is32();
    Pow2Unfold(32);
  }

  // ---------------------------------------------------------------- byte fields

  /** The o bits of a byte that end a bits above its lowest, as a number. */
  function Field(b: bv8, a: nat, o: nat): nat
    requires a + o <= 8
  {
    FieldBounds(a, o);
    ByteField(b, Nib(a), Nib(o)) as nat
  }

  lemma FieldBounds(a: nat, o: nat)
    requires a + o <= 8
    ensures Nib(a) <= 8 && Nib(o) <= 8 - Nib(a)
  {
    hide Nib;
    ByteOrder(a, 8);
    SubByte(a);
    ByteOrder(o, 8 - a);
  }

  lemma SubByte(a: nat)
    requires a <= 8
    ensures Nib(8 - a) == 8 - Nib(a)
  {
  }

  lemma ByteIsNumber(b: bv8)
    ensures (b as nat) == Number(Stream([b]))
  {
    hide ByteBit, Number;
    ByteValue(b);
    var s := Stream([b]);
    EightDigits(s);
    ByteWeights(b);
  }

  lemma ByteWeights(b: bv8)
    ensures var s := Stream([b]);
            && One(s[0]) == Weight(b, 7) && One(s[1]) == Weight(b, 6) && One(s[2]) == Weight(b, 5) && One(s[3]) == Weight(b, 4)
            && One(s[4]) == Weight(b, 3) && One(s[5]) == Weight(b, 2) && One(s[6]) == Weight(b, 1) && One(s[7]) == Weight(b, 0)
  {
    hide ByteBit;
  }

  lemma EightDigits(s: seq<bool>)
    requires |s| == 8
    ensures Number(s) == 128 * One(s[0]) + 64 * One(s[1]) + 32 * One(s[2]) + 16 * One(s[3])
                       + 8 * One(s[4]) + 4 * One(s[5]) + 2 * One(s[6]) + One(s[7])
  {
    hide Number;
    NumberEmpty();
    FourDigits(s, 0);
    FourDigits(s, 4);
    assert s[..8] == s && s[..0] == [];
  }

  lemma FourDigits(s: seq<bool>, k: nat)
    requires k + 4 <= |s|
    ensures Number(s[..k + 4])
         == 16 * Number(s[..k]) + 8 * One(s[k]) + 4 * One(s[k + 1]) + 2 * One(s[k + 2]) + One(s[k + 3])
  {
    hide Number;
    NumberPrefix(s, k + 1);
    NumberPrefix(s, k + 2);
    NumberPrefix(s, k + 3);
    NumberPrefix(s, k + 4);
  }

  function One(b: bool): nat {
    if b then 1 else 0
  }

  lemma NumberPrefix(s: seq<bool>, k: nat)
    requires 0 < k <= |s|
    ensures Number(s[..k]) == 2 * Number(s[..k - 1]) + One(s[k - 1])
  {
    assert s[..k][..k - 1] == s[..k - 1];
  }

  lemma FieldIsNumber(bytes: seq<bv8>, i: nat, a: nat, o: nat)
    requires i < |bytes| && a + o <= 8
    ensures Field(bytes[i], a, o) == Number(Stream(bytes)[8 * i + 8 - a - o..8 * i + 8 - a])
  {
    hide Number, HighBit, ByteField, Nib;
    FieldBounds(a, o);
    var f := ByteField(bytes[i], Nib(a), Nib(o));
    ByteIsNumber(f);
    var s := Stream(bytes)[8 * i + 8 - a - o..8 * i + 8 - a];
    var z := seq(8 - o, _ => false);
    FieldStream(bytes, i, a, o, f, s, z);
    NumberZeros(8 - o, s);
  }

  lemma FieldStream(bytes: seq<bv8>, i: nat, a: nat, o: nat, f: bv8, s: seq<bool>, z: seq<bool>)
    requires i < |bytes| && a + o <= 8 && Nib(a) <= 8 && Nib(o) <= 8 - Nib(a)
    requires f == ByteField(bytes[i], Nib(a), Nib(o))
    requires s == Stream(bytes)[8 * i + 8 - a - o..8 * i + 8 - a]
    requires |z| == 8 - o && forall k :: 0 <= k < 8 - o ==> !z[k]
    ensures Stream([f]) == z + s
  {
    hide HighBit, ByteField, Nib;
    forall k | 0 <= k < 8 ensures Stream([f])[k] == (z + s)[k] {
      FieldHighBit(bytes[i], a, o, k);
      StreamAt([f], 0, k);
      if k >= 8 - o {
        StreamAt(bytes, i, k - a);
      }
    }
  }

  lemma StreamAt(bytes: seq<bv8>, i: nat, e: nat)
    requires i < |bytes| && e < 8
    ensures Stream(bytes)[8 * i + e] == HighBit(bytes[i], e)
  {
    hide HighBit;
    assert (8 * i + e) / 8 == i && (8 * i + e) % 8 == e;
  }

  lemma FieldHighBit(b: bv8, a: nat, o: nat, k: nat)
    requires a + o <= 8 && k < 8
    requires Nib(a) <= 8 && Nib(o) <= 8 - Nib(a)
    ensures HighBit(ByteField(b, Nib(a), Nib(o)), k) <==> k >= 8 - o && HighBit(b, k - a)
  {
    hide ByteBit, ByteField, Nib;
    ByteOrder(7 - k, 8);
    ByteOrder(7 - k, o);
    ByteFieldBit(b, Nib(a), Nib(o), Nib(7 - k));
    if k >= 8 - o {
      SumByte(a, 7 - k);
    }
  }

  lemma SumByte(a: nat, k: nat)
    requires a + k < 8
    ensures Nib(a + k) == Nib(a) + Nib(k)
  {
    hide Nib;
    ByteNumber(a);
    ByteNumber(k);
    ByteNumber(a + k);
    ByteAdd(Nib(a), Nib(k));
  }

  lemma ByteNumber(a: nat)
    requires a < 16
    ensures Nib(a) as nat == a
  {
  }

  lemma ByteAdd(x: bv4, y: bv4)
    requires (x as nat) + (y as nat) < 16
    ensures (x + y) as nat == (x as nat) + (y as nat)
  {
  }

  // ---------------------------------------------------------------- packing

  /** The bytes that ToBytes writes for n bytes. */
  function Packed(s: seq<bool>, n: nat): (bytes: seq<bv8>)
    ensures |bytes| == n
  {
    seq(n, k requires 0 <= k < n => PackByte(s, 8 * k))
  }

  lemma {:induction false} PackBitsAt(s: seq<bool>, i: nat, e: nat, k: nat)
    requires e <= 8 && k < 8
    ensures HighBit(PackBits(s, i, e), k) <==> k < e && BitAt(s, i + k)
    decreases e
  {
    hide ByteBit, SetByte;
    if e == 0 {
      ZeroByte(k);
    } else {
      PackBitsAt(s, i, e - 1, k);
      ByteOrder(7 - (e - 1), 8);
      ByteOrder(7 - k, 8);
      ByteOrder(7 - k, 7 - (e - 1));
      SetByteAt(PackBits(s, i, e - 1), Nib(7 - (e - 1)), Nib(7 - k));
    }
  }

  lemma ZeroByte(k: nat)
    requires k < 8
    ensures !HighBit(0, k)
  {
  }

  /** Reading packed bytes gives the bits back, followed by zeros. */
  lemma PackedStream(s: seq<bool>, n: nat)
    requires |s| <= 8 * n
    ensures Stream(Packed(s, n)) == s + seq(8 * n - |s|, _ => false)
  {
    var t := Stream(Packed(s, n));
    forall j | 0 <= j < 8 * n ensures t[j] == BitAt(s, j) {
      PackBitsAt(s, 8 * (j / 8), 8, j % 8);
    }
  }

  // ---------------------------------------------------------------- fields

  datatype Item = Item(value: nat, width: nat)

  /** The bits of a list of fields appended one after another. */
  function FieldBits(items: seq<Item>): seq<bool> {
    if items == [] then [] else Digits(items[0].value, items[0].width) + FieldBits(items[1..])
  }

  /** What reading the same widths from bit `at` on returns. */
  function ReadItems(s: seq<bool>, at: nat, items: seq<Item>): seq<nat>
    requires at + |FieldBits(items)| <= |s|
    decreases |items|
  {
    if items == [] then []
    else [Number(s[at..at + items[0].width])] + ReadItems(s, at + items[0].width, items[1..])
  }

  function Values(items: seq<Item>): seq<nat> {
    if items == [] then [] else [items[0].value] + Values(items[1..])
  }

  /** Fields packed into bytes and read back with the same widths are the same values, in order. */
  lemma {:induction false} FieldsRoundTrip(items: seq<Item>, n: nat)
    requires forall i :: 0 <= i < |items| ==> items[i].value < Pow2(items[i].width)
    requires |FieldBits(items)| <= 8 * n
    ensures ReadItems(Stream(Packed(FieldBits(items), n)), 0, items) == Values(items)
  {
    PackedStream(FieldBits(items), n);
    ReadsBack([], items, seq(8 * n - |FieldBits(items)|, _ => false));
    assert [] + FieldBits(items) == FieldBits(items);
  }

  lemma {:induction false} ReadsBack(before: seq<bool>, items: seq<Item>, after: seq<bool>)
    requires forall i :: 0 <= i < |items| ==> items[i].value < Pow2(items[i].width)
    ensures ReadItems(before + FieldBits(items) + after, |before|, items) == Values(items)
    decreases |items|
  {
    hide Digits, Number, Pow2;
    if items != [] {
      var d := Digits(items[0].value, items[0].width);
      FieldBitsFirst(items);
      Regrouped(before, d, FieldBits(items[1..]), after);
      DigitsRoundTrip(items[0].value, items[0].width);
      ReadsBack(before + d, items[1..], after);
      hide FieldBits;
    }
  }

  lemma Regrouped(before: seq<bool>, d: seq<bool>, rest: seq<bool>, after: seq<bool>)
    ensures before + (d + rest) + after == (before + d) + rest + after
    ensures (before + (d + rest) + after)[|before|..|before| + |d|] == d
  {
  }

  // ---------------------------------------------------------------- fields through the classes

  /** Fields that both classes accept and that read back unsigned. */
  predicate Readable(items: seq<Item>) {
    forall i :: 0 <= i < |items| ==> 1 <= items[i].width <= 31 && items[i].value < Pow2(items[i].width)
  }

  lemma {:induction false} FieldBitsPush(items: seq<Item>, it: Item)
    ensures FieldBits(items + [it]) == FieldBits(items) + Digits(it.value, it.width)
    decreases |items|
  {
    hide Digits;
    if items == [] {
      assert [] + [it] == [it] && [it][1..] == [];
      assert FieldBits([it]) == Digits(it.value, it.width) + [];
    } else {
      assert (items + [it])[1..] == items[1..] + [it];
      FieldBitsPush(items[1..], it);
    }
  }

  lemma FieldBitsFirst(items: seq<Item>)
    requires items != []
    ensures FieldBits(items) == Digits(items[0].value, items[0].width) + FieldBits(items[1..])
  {
  }

  lemma {:induction false} FieldBitsFrom(items: seq<Item>, i: nat)
    requires i <= |items|
    ensures FieldBits(items) == FieldBits(items[..i]) + FieldBits(items[i..])
    decreases i
  {
    hide Digits, FieldBits;
    if i == 0 {
      assert items[0..] == items && items[..0] == [];
      NoFields();
    } else {
      FieldBitsFrom(items, i - 1);
      var before, it, after := items[..i - 1], items[i - 1], items[i..];
      assert items[..i] == before + [it] && items[i - 1..] == [it] + after;
      FieldBitsPush(before, it);
      FieldBitsFirst([it] + after);
      assert ([it] + after)[1..] == after;
    }
  }

  method AppendFields(items: seq<Item>) returns (bits: BitArray)
    requires Readable(items)
    ensures fresh(bits) && fresh(bits.bits) && bits.Valid() && bits.Contents() == FieldBits(items)
  {
    hide Digits, CleanTail, BitsOf, FieldBits, Pow2;
    bits := new BitArray();
    NoFields();
    for i := 0 to |items|
      invariant fresh(bits) && fresh(bits.bits) && bits.Valid() && bits.Contents() == FieldBits(items[..i])
    {
      FieldBitsPush(items[..i], items[i]);
      assert items[..i + 1] == items[..i] + [items[i]];
      var _ := bits.AppendBits(items[i].value, items[i].width);
    }
    assert items[..|items|] == items;
  }

  lemma NoFields()
    ensures FieldBits([]) == []
  {
  }

  /** The next field of a packed stream. */
  lemma NextField(items: seq<Item>, i: nat, bytes: seq<bv8>, n: nat)
    requires Readable(items) && i < |items| && |FieldBits(items)| <= 8 * n && bytes == Packed(FieldBits(items), n)
    ensures var at, it := |FieldBits(items[..i])|, items[i];
            && at + it.width == |FieldBits(items[..i + 1])| <= 8 * n == 8 * |bytes|
            && ReadValue(bytes, at, it.width) == it.value
  {
    hide Digits, Number, Pow2, FieldBits, Packed, ToInt32, Stream;
    var at, it := |FieldBits(items[..i])|, items[i];
    assert items[..i + 1] == items[..i] + [it];
    FieldBitsPush(items[..i], it);
    FieldBitsFrom(items, i + 1);
    PackedStream(FieldBits(items), n);
    var s := Stream(bytes);
    assert s[at..at + it.width] == Digits(it.value, it.width);
    DigitsRoundTrip(it.value, it.width);
    ReadValueIs(bytes, at, it.width);
    SmallIsSigned(it.value, it.width);
  }

  lemma SmallIsSigned(v: nat, n: nat)
    requires v < Pow2(n) && n <= 31
    ensures v < 0x8000_0000 && ToInt32(v) == v
  {
    Pow2Monotone(n, 31);
    Pow2Is32();
    assert Pow2(32) == 2 * Pow2(31);
  }

  /** Any list of fields of 1 to 31 bits, appended, packed into bytes and read with the same widths, comes back in
      order, and fewer than eight bits are left. */
  method PackAndRead(items: seq<Item>) returns (values: seq<int>, left: nat)
    requires Readable(items)
    ensures |values| == |items| && (forall i :: 0 <= i < |items| ==> values[i] == items[i].value) && left < 8
  {
    hide Digits, Number, Pow2, FieldBits, Packed, ReadValue, Readable, CleanTail, BitsOf, PackByte;
    var bits := AppendFields(items);
    var n := bits.GetSizeInBytes();
    var buffer := new bv8[n](_ => 0);
    bits.ToBytes(0, buffer, 0, n);
    PackedIs(bits.Contents(), n, buffer[..]);
    var source := new BitSource(buffer[..]);
    values := [];
    NoFields();
    assert items[..0] == [];
    for i := 0 to |items|
      invariant source.Valid() && source.bytes == Packed(FieldBits(items), n) && fresh(source)
      invariant source.Position() == |FieldBits(items[..i])|
      invariant |values| == i && forall k :: 0 <= k < i ==> values[k] == items[k].value
    {
      NextField(items, i, source.bytes, n);
      WidthAccepted(items, i);
      var v := source.ReadBits(items[i].width);
      values := values + [v.value];
    }
    assert items[..|items|] == items;
    left := source.Available();
  }

  lemma WidthAccepted(items: seq<Item>, i: nat)
    requires Readable(items) && i < |items|
    ensures 1 <= items[i].width <= 31
  {
  }

  lemma PackedIs(s: seq<bool>, n: nat, bytes: seq<bv8>)
    requires |bytes| == n && forall k :: 0 <= k < n ==> bytes[k] == PackByte(s, 8 * k)
    ensures bytes == Packed(s, n)
  {
    hide PackByte;
  }
}
