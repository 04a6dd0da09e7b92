/** The QR bit stream parser for numeric and alphanumeric segments, and the round trip with the
    encoder's stream. */
module QrTextDecoder {
  import opened BinaryDigits
  import opened BitArray
  import opened BitSource
  import opened QrText
  import opened Wrappers

  /** The number in the n bits from bit `at` on. */
  function Peek(s: seq<bool>, at: nat, n: nat): nat
    requires at + n <= |s|
  {
    Number(s[at..at + n])
  }

  /** A parsed text and where it ended. */
  datatype Segment = Segment(text: string, end: nat)

  function Prepend(t: string, r: Option<Segment>): Option<Segment> {
    match r
    case None => None
    case Some(g) => Some(Segment(t + g.text, g.end))
  }

  /** What a numeric segment of n digits from bit `at` on stands for; none if it is cut off or out of range. */
  function NumericAt(s: seq<bool>, at: nat, n: nat): (r: Option<Segment>)
    requires at <= |s|
    ensures r.Some? ==> at <= r.value.end <= |s|
    decreases n
  {
    if n >= 3 then
      if |s| - at < 10 || Peek(s, at, 10) >= 1000 then None
      else Prepend(ThreeDigits(Peek(s, at, 10)), NumericAt(s, at + 10, n - 3))
    else if n == 2 then
      if |s| - at < 7 || Peek(s, at, 7) >= 100 then None
      else Some(Segment(TwoDigits(Peek(s, at, 7)), at + 7))
    else if n == 1 then
      if |s| - at < 4 || Peek(s, at, 4) >= 10 then None
      else Some(Segment([AlphanumericChar(Peek(s, at, 4))], at + 4))
    else Some(Segment("", at))
  }

  function ThreeDigits(v: nat): string
    requires v < 1000
  {
    [AlphanumericChar(v / 100), AlphanumericChar(v / 10 % 10), AlphanumericChar(v % 10)]
  }

  function TwoDigits(v: nat): string
    requires v < 100
  {
    [AlphanumericChar(v / 10), AlphanumericChar(v % 10)]
  }

  /** What an alphanumeric segment of n characters from bit `at` on stands for. */
  function AlphanumericAt(s: seq<bool>, at: nat, n: nat): (r: Option<Segment>)
    requires at <= |s|
    ensures r.Some? ==> at <= r.value.end <= |s|
    decreases n
  {
    if n > 1 then
      if |s| - at < 11 || Peek(s, at, 11) / 45 >= 45 then None
      else Prepend(PairOf(Peek(s, at, 11)), AlphanumericAt(s, at + 11, n - 2))
    else if n == 1 then
      if |s| - at < 6 || Peek(s, at, 6) >= 45 then None
      else Some(Segment([AlphanumericChar(Peek(s, at, 6))], at + 6))
    else Some(Segment("", at))
  }

  function PairOf(v: nat): string
    requires v / 45 < 45
  {
    [AlphanumericChar(v / 45), AlphanumericChar(v % 45)]
  }

  function SegmentAt(m: Mode, s: seq<bool>, at: nat, n: nat): (r: Option<Segment>)
    requires at <= |s|
    ensures r.Some? ==> at <= r.value.end <= |s|
  {
    if m == Numeric then NumericAt(s, at, n) else AlphanumericAt(s, at, n)
  }

  /** The text of a whole stream from bit `at` on: segments until a terminator or fewer than four bits. */
  function StreamText(s: seq<bool>, at: nat, version: nat): Option<string>
    requires at <= |s|
    decreases |s| - at
  {
    if |s| - at < 4 || Peek(s, at, 4) == 0 then Some("")
    else if Peek(s, at, 4) != 1 && Peek(s, at, 4) != 2 then None
    else
      var m := if Peek(s, at, 4) == 1 then Numeric else Alphanumeric;
      var c := CountBits(m, version);
      if |s| - at - 4 < c then None
      else
        var n := Peek(s, at + 4, c);
        match SegmentAt(m, s, at + 4 + c, n)
        case None => None
        case Some(g) =>
          AddText(g.text, StreamText(s, g.end, version))
  }

  function AddText(t: string, r: Option<string>): Option<string> {
    match r
    case None => None
    case Some(u) => Some(t + u)
  }

  // ---------------------------------------------------------------- the parsing loops

  /** Reads n bits that are there; fewer than 31 of them, so the result is their number. */
  method ReadNumber(source: BitSource, n: nat) returns (v: nat)
    requires source.Valid() && 1 <= n <= 14 && n <= source.Available()
    modifies source
    ensures source.Valid() && source.Position() == old(source.Position()) + n
    ensures v == Peek(Stream(source.bytes), old(source.Position()), n)
  {
    hide Number, Stream, Pow2;
    var r := source.ReadBits(n);
    SmallValue(source.bytes, old(source.Position()), n);
    v := r.value;
  }

  lemma SmallValue(bytes: seq<bv8>, from: nat, n: nat)
    requires from + n <= 8 * |bytes| && n <= 14
    ensures ReadValue(bytes, from, n) == Number(Stream(bytes)[from..from + n])
  {
    hide Number, Stream, Pow2;
    ResultBound(bytes, from, n);
    Pow2Monotone(n, 14);
    assert Pow2(14) < 0x8000_0000 by {
      Pow2Is256();
      Pow2Add(8, 6);
      Pow2Monotone(6, 8);
    }
  }

  method DecodeNumericSegment(source: BitSource, count: nat) returns (r: Option<string>)
    requires source.Valid()
    modifies source
    ensures source.Valid()
    ensures source.Position() <= |Stream(source.bytes)|
    ensures match NumericAt(Stream(source.bytes), old(source.Position()), count)
            case None => r == None
            case Some(g) => r == Some(g.text) && source.Position() == g.end
  {
    hide Peek;
    ghost var s := Stream(source.bytes);
    var n, text := count, "";
    PrependNothing(NumericAt(s, source.Position(), n));
    while n >= 3
      invariant source.Valid() && 0 <= n <= count && source.Position() <= |s|
      invariant NumericAt(s, old(source.Position()), count) == Prepend(text, NumericAt(s, source.Position(), n))
    {
      if source.Available() < 10 {
        return None;
      }
      var v := ReadNumber(source, 10);
      if v >= 1000 {
        return None;
      }
      PrependTwice(text, ThreeDigits(v), NumericAt(s, source.Position(), n - 3));
      text := text + [AlphanumericChar(v / 100), AlphanumericChar(v / 10 % 10), AlphanumericChar(v % 10)];
      n := n - 3;
    }
    if n == 2 {
      if source.Available() < 7 {
        return None;
      }
      var v := ReadNumber(source, 7);
      if v >= 100 {
        return None;
      }
      text := text + [AlphanumericChar(v / 10), AlphanumericChar(v % 10)];
    } else if n == 1 {
      if source.Available() < 4 {
        return None;
      }
      var v := ReadNumber(source, 4);
      if v >= 10 {
        return None;
      }
      text := text + [AlphanumericChar(v)];
    }
    assert text + "" == text;
    return Some(text);
  }

  lemma PrependNothing(r: Option<Segment>)
    ensures Prepend("", r) == r
  {
    if r.Some? {
      assert "" + r.value.text == r.value.text;
    }
  }

  lemma PrependTwice(a: string, b: string, r: Option<Segment>)
    ensures Prepend(a, Prepend(b, r)) == Prepend(a + b, r)
  {
    if r.Some? {
      assert a + (b + r.value.text) == a + b + r.value.text;
    }
  }

  method DecodeAlphanumericSegment(source: BitSource, count: nat) returns (r: Option<string>)
    requires source.Valid()
    modifies source
    ensures source.Valid()
    ensures source.Position() <= |Stream(source.bytes)|
    ensures match AlphanumericAt(Stream(source.bytes), old(source.Position()), count)
            case None => r == None
            case Some(g) => r == Some(g.text) && source.Position() == g.end
  {
    hide Peek;
    ghost var s := Stream(source.bytes);
    var n, text := count, "";
    PrependNothing(AlphanumericAt(s, source.Position(), n));
    while n > 1
      invariant source.Valid() && 0 <= n <= count && source.Position() <= |s|
      invariant AlphanumericAt(s, old(source.Position()), count) == Prepend(text, AlphanumericAt(s, source.Position(), n))
    {
      if source.Available() < 11 {
        return None;
      }
      var v := ReadNumber(source, 11);
      if v / 45 >= 45 {
        return None;
      }
      PrependTwice(text, PairOf(v), AlphanumericAt(s, source.Position(), n - 2));
      text := text + [AlphanumericChar(v / 45), AlphanumericChar(v % 45)];
      n := n - 2;
    }
    if n == 1 {
      if source.Available() < 6 {
        return None;
      }
      var v := ReadNumber(source, 6);
      if v >= 45 {
        return None;
      }
      text := text + [AlphanumericChar(v)];
    }
    assert text + "" == text;
    return Some(text);
  }

  lemma AddNothing(r: Option<string>)
    ensures AddText("", r) == r
  {
    if r.Some? {
      assert "" + r.value == r.value;
    }
  }

  lemma AddTwice(a: string, b: string, r: Option<string>)
    ensures AddText(a, AddText(b, r)) == AddText(a + b, r)
  {
    if r.Some? {
      assert a + (b + r.value) == a + b + r.value;
    }
  }

  /** The segment loop. Modes other than numeric, alphanumeric and terminator end as a format error here. */
  method Decode(bytes: seq<bv8>, version: nat) returns (r: Result<string, FormatError>)
    ensures match StreamText(Stream(bytes), 0, version)
            case None => r == Err(FormatError)
            case Some(t) => r == Ok(t)
  {
    hide Peek, NumericAt, AlphanumericAt, Stream, CountBits;
    var source := new BitSource(bytes);
    ghost var s := Stream(bytes);
    var text := "";
    AddNothing(StreamText(s, 0, version));
    while true
      invariant source.Valid() && source.bytes == bytes && source.Position() <= |s|
      invariant StreamText(s, 0, version) == AddText(text, StreamText(s, source.Position(), version))
      decreases |s| - source.Position()
    {
      if source.Available() < 4 {
        assert text + "" == text;
        return Ok(text);
      }
      var mode := ReadNumber(source, 4);
      if mode == 0 {
        assert text + "" == text;
        return Ok(text);
      }
      if mode != 1 && mode != 2 {
        return Err(FormatError);
      }
      var c := CountBits(if mode == 1 then Numeric else Alphanumeric, version);
      if source.Available() < c {
        return Err(FormatError);
      }
      var n := ReadNumber(source, c);
      var segment: Option<string>;
      if mode == 1 {
        segment := DecodeNumericSegment(source, n);
      } else {
        segment := DecodeAlphanumericSegment(source, n);
      }
      if segment == None {
        return Err(FormatError);
      }
      AddTwice(text, segment.value, StreamText(s, source.Position(), version));
      text := text + segment.value;
    }
  }

  // ---------------------------------------------------------------- round trip

  /** The digits just written are the number just peeked. */
  lemma PeekDigits(before: seq<bool>, v: nat, n: nat, after: seq<bool>)
    requires v < Pow2(n)
    ensures Peek(before + Digits(v, n) + after, |before|, n) == v
  {
    var s := before + Digits(v, n) + after;
    assert s[|before|..|before| + n] == Digits(v, n);
    DigitsRoundTrip(v, n);
  }

  lemma SmallPowers()
    ensures Pow2(4) == 16 && Pow2(6) == 64 && Pow2(7) == 128 && Pow2(10) == 1024 && Pow2(11) == 2048
  {
    assert Pow2(4) == 16;
    assert Pow2(7) == 128;
    assert Pow2(10) == 1024;
  }

  lemma DigitChars(a: nat, b: nat, c: nat)
    requires a < 10 && b < 10 && c < 10
    ensures (100 * a + 10 * b + c) / 100 == a && (100 * a + 10 * b + c) / 10 % 10 == b && (100 * a + 10 * b + c) % 10 == c
    ensures (10 * b + c) / 10 == b && (10 * b + c) % 10 == c
  {
  }

  lemma {:induction false} NumericRoundTrip(before: seq<bool>, t: string, after: seq<bool>)
    requires forall i :: 0 <= i < |t| ==> IsDigit(t[i])
    ensures NumericAt(before + NumericBits(t) + after, |before|, |t|)
         == Some(Segment(t, |before| + |NumericBits(t)|))
    decreases |t|
  {
    hide Digits, Number, Pow2, Peek;
    SmallPowers();
    var s := before + NumericBits(t) + after;
    if |t| >= 3 {
      var a, b, c := GetDigit(t[0]), GetDigit(t[1]), GetDigit(t[2]);
      var v := 100 * a + 10 * b + c;
      var d := Digits(v, 10);
      var rest := NumericBits(t[3..]);
      assert s == before + d + (rest + after);
      PeekDigits(before, v, 10, rest + after);
      DigitChars(a, b, c);
      assert s == (before + d) + rest + after;
      NumericRoundTrip(before + d, t[3..], after);
      assert t == ThreeDigits(v) + t[3..];
    } else if |t| == 2 {
      var v := 10 * GetDigit(t[0]) + GetDigit(t[1]);
      PeekDigits(before, v, 7, after);
      DigitChars(0, GetDigit(t[0]), GetDigit(t[1]));
      assert t == TwoDigits(v);
    } else if |t| == 1 {
      PeekDigits(before, GetDigit(t[0]), 4, after);
      assert t == [AlphanumericChar(GetDigit(t[0]))];
    }
  }

  lemma {:induction false} AlphanumericRoundTrip(before: seq<bool>, t: string, after: seq<bool>)
    requires forall i :: 0 <= i < |t| ==> IsAlphanumeric(t[i])
    ensures AlphanumericAt(before + AlphanumericBits(t) + after, |before|, |t|)
         == Some(Segment(t, |before| + |AlphanumericBits(t)|))
    decreases |t|
  {
    hide Digits, Number, Pow2, Peek, AlphanumericChar, AlphanumericCode;
    SmallPowers();
    var s := before + AlphanumericBits(t) + after;
    if |t| >= 2 {
      var a, b := Code(t[0]), Code(t[1]);
      var v := 45 * a + b;
      var d := Digits(v, 11);
      var rest := AlphanumericBits(t[2..]);
      assert s == before + d + (rest + after);
      PeekDigits(before, v, 11, rest + after);
      DivModIs(v, 45, a, b);
      TablesAgree(t[0]);
      TablesAgree(t[1]);
      assert s == (before + d) + rest + after;
      AlphanumericRoundTrip(before + d, t[2..], after);
      assert t == PairOf(v) + t[2..];
    } else if |t| == 1 {
      PeekDigits(before, Code(t[0]), 6, after);
      TablesAgree(t[0]);
      assert t == [AlphanumericChar(Code(t[0]))];
    }
  }

  /** After the data come four zero bits, or fewer than four bits in all. */
  lemma EndsWithTerminator(s: seq<bool>, capacity: nat)
    requires |s| <= 8 * capacity
    ensures var t := Terminated(s, capacity);
            s <= t && (|t| - |s| >= 4 ==> Peek(t, |s|, 4) == 0)
  {
    hide Padding;
    var t := Terminated(s, capacity);
    if |t| - |s| >= 4 {
      assert t[|s|..|s| + 4] == Falses(4);
      NumberZeros(4, []);
      assert Falses(4) == seq(4, _ => false) + [];
    }
  }

  /** The mode and the length read back from in front of the data. */
  lemma HeaderRoundTrip(m: Mode, n: nat, c: nat, data: seq<bool>)
    requires n < Pow2(c)
    ensures var s := Digits(ModeBits(m), 4) + Digits(n, c) + data;
            Peek(s, 0, 4) == ModeBits(m) && Peek(s, 4, c) == n
  {
    hide Digits, Number, Pow2, Peek;
    SmallPowers();
    var mode, count := Digits(ModeBits(m), 4), Digits(n, c);
    var s := mode + count + data;
    assert s == [] + mode + (count + data);
    PeekDigits([], ModeBits(m), 4, count + data);
    PeekDigits(mode, n, c, data);
  }

  /** The data segment read back from behind the header. */
  lemma SegmentRoundTrip(m: Mode, text: string, head: seq<bool>, after: seq<bool>)
    requires Encodable(m, text)
    ensures var s := head + DataBits(m, text) + after;
            SegmentAt(m, s, |head|, |text|) == Some(Segment(text, |head| + |DataBits(m, text)|))
  {
    hide NumericBits, AlphanumericBits, NumericAt, AlphanumericAt;
    if m == Numeric {
      NumericRoundTrip(head, text, after);
    } else {
      AlphanumericRoundTrip(head, text, after);
    }
  }

  /** Decoding what the encoder wrote gives the text back, whatever the padding. */
  lemma TextRoundTrip(m: Mode, text: string, version: nat, capacity: nat)
    requires Picks(m, text) && |text| < Pow2(CountBits(m, version))
    requires |HeaderBits(m, text, version)| <= 8 * capacity
    ensures StreamText(Terminated(HeaderBits(m, text, version), capacity), 0, version) == Some(text)
  {
    hide Digits, Number, Pow2, Peek, Terminated, CountBits, DataBits, SegmentAt;
    var h := HeaderBits(m, text, version);
    var s := Terminated(h, capacity);
    EndsWithTerminator(h, capacity);
    var after, c, data := s[|h|..], CountBits(m, version), DataBits(m, text);
    var head := Digits(ModeBits(m), 4) + Digits(|text|, c);
    assert s == head + data + after == head + (data + after);
    HeaderRoundTrip(m, |text|, c, data + after);
    SegmentRoundTrip(m, text, head, after);
    assert StreamText(s, |h|, version) == Some("");
    assert AddText(text, Some("")) == Some(text) by {
      assert text + "" == text;
    }
  }

  /** The bytes the encoder's stream packs into decode to the text. */
  lemma PackedTextRoundTrip(m: Mode, text: string, version: nat, capacity: nat)
    requires Picks(m, text) && |text| < Pow2(CountBits(m, version))
    requires |HeaderBits(m, text, version)| <= 8 * capacity
    ensures StreamText(Stream(Packed(Terminated(HeaderBits(m, text, version), capacity), capacity)), 0, version) == Some(text)
  {
    hide StreamText, HeaderBits, Pow2, CountBits;
    var t := Terminated(HeaderBits(m, text, version), capacity);
    TextRoundTrip(m, text, version, capacity);
    PackedStream(t, capacity);
    assert t + seq(0, _ => false) == t;
  }
}
