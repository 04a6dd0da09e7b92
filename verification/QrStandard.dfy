/** The stages of a QR symbol in the numbers of ISO/IEC 18004:2015, stated without the tables and recursions that the
    encoder and the decoder share: field widths, the character table, group values, padding, masks, and the order of
    the modules. */
module QrStandard {
  import opened BinaryDigits
  import opened BitArray
  import opened BitSource
  import opened QrText
  import opened QrTextDecoder
  import opened Wrappers

  // ---------------------------------------------------------------- header

  predicate Digits10(t: string) {
    forall i :: 0 <= i < |t| ==> '0' <= t[i] <= '9'
  }

  predicate Letters45(t: string) {
    forall i :: 0 <= i < |t| ==> IsAlphanumeric(t[i])
  }

  /** A terminator of four zeros, or fewer than four bits. */
  predicate Terminates(tail: seq<bool>) {
    |tail| < 4 || tail[..4] == [false, false, false, false]
  }

  lemma TerminatorIsZero(s: seq<bool>, tail: seq<bool>)
    requires Terminates(tail) && |tail| >= 4
    ensures Peek(s + tail, |s|, 4) == 0
  {
    assert (s + tail)[|s|..|s| + 4] == tail[..4];
    NumberZeros(4, []);
    assert tail[..4] == seq(4, _ => false) + [];
  }

  /** A piece of text in its mode. */
  datatype Piece = Piece(mode: Mode, text: string)

  predicate Sendable(p: Piece, version: nat) {
    Encodable(p.mode, p.text) && |p.text| < Pow2(CountBits(p.mode, version))
  }

  function PieceBits(ps: seq<Piece>, version: nat): seq<bool>
    requires forall i :: 0 <= i < |ps| ==> Sendable(ps[i], version)
  {
    if ps == [] then []
    else
      assert Sendable(ps[0], version);
      HeaderBits(ps[0].mode, ps[0].text, version) + PieceBits(ps[1..], version)
  }

  function PieceText(ps: seq<Piece>): string {
    if ps == [] then "" else ps[0].text + PieceText(ps[1..])
  }

  /** The header of a piece read at its place. */
  lemma HeaderAt(before: seq<bool>, m: Mode, n: nat, c: nat, data: seq<bool>)
    requires n < Pow2(c)
    ensures var s := before + Digits(ModeBits(m), 4) + Digits(n, c) + data;
            Peek(s, |before|, 4) == ModeBits(m) && Peek(s, |before| + 4, c) == n
  {
    hide Digits, Number, Pow2, Peek;
    SmallPowers();
    var mode, count := Digits(ModeBits(m), 4), Digits(n, c);
    var s := before + mode + count + data;
    assert s == before + mode + (count + data) == (before + mode) + count + data;
    PeekDigits(before, ModeBits(m), 4, count + data);
    PeekDigits(before + mode, n, c, data);
  }

  /** The segment loop at a piece of mode m and length n. */
  lemma LoopAtPiece(s: seq<bool>, at: nat, m: Mode, n: nat, version: nat)
    requires m != Byte && at + 4 + CountBits(m, version) <= |s|
    requires Peek(s, at, 4) == ModeBits(m) && Peek(s, at + 4, CountBits(m, version)) == n
    ensures StreamText(s, at, version) ==
              match SegmentAt(m, s, at + 4 + CountBits(m, version), n)
              case None => None
              case Some(g) => AddText(g.text, StreamText(s, g.end, version))
  {
    hide Peek, CountBits, SegmentAt;
  }

  /** One piece read, whatever stands before and behind it. */
  lemma PieceAt(before: seq<bool>, m: Mode, t: string, version: nat, rest: seq<bool>)
    requires Encodable(m, t) && |t| < Pow2(CountBits(m, version))
    ensures var s, h := before + HeaderBits(m, t, version) + rest, HeaderBits(m, t, version);
            StreamText(s, |before|, version) == AddText(t, StreamText(s, |before| + |h|, version))
  {
    hide Digits, Number, Pow2, Peek, CountBits, DataBits, SegmentAt, StreamText, ModeBits;
    var c, data := CountBits(m, version), DataBits(m, t);
    var mode, count := Digits(ModeBits(m), 4), Digits(|t|, c);
    var s := before + HeaderBits(m, t, version) + rest;
    var head := before + mode + count;
    PieceApart(before, mode, count, data, rest);
    HeaderAt(before, m, |t|, c, data + rest);
    SegmentRoundTrip(m, t, head, rest);
    LoopAtPiece(s, |before|, m, |t|, version);
  }

  lemma PieceApart(before: seq<bool>, mode: seq<bool>, count: seq<bool>, data: seq<bool>, rest: seq<bool>)
    ensures before + (mode + count + data) + rest == before + mode + count + data + rest
    ensures before + mode + count + (data + rest) == before + mode + count + data + rest
  {
  }

  /** Any pieces one after another, behind them a terminator, are read as their texts one after another. */
  lemma {:induction false} PiecesRead(before: seq<bool>, ps: seq<Piece>, version: nat, tail: seq<bool>)
    requires (forall i :: 0 <= i < |ps| ==> Sendable(ps[i], version)) && Terminates(tail)
    ensures StreamText(before + PieceBits(ps, version) + tail, |before|, version) == Some(PieceText(ps))
    decreases |ps|
  {
    hide HeaderBits, Terminates, Peek, Pow2, SegmentAt;
    if ps == [] {
      assert before + [] + tail == before + tail;
      if |tail| >= 4 {
        TerminatorIsZero(before, tail);
      }
    } else {
      var h := HeaderBits(ps[0].mode, ps[0].text, version);
      var rest := PieceBits(ps[1..], version);
      var s := before + PieceBits(ps, version) + tail;
      assert s == before + h + (rest + tail) == (before + h) + rest + tail;
      PieceAt(before, ps[0].mode, ps[0].text, version, rest + tail);
      PiecesRead(before + h, ps[1..], version, tail);
      hide StreamText;
    }
  }

  /** The case of one piece. */
  lemma StreamReads(m: Mode, t: string, version: nat, tail: seq<bool>)
    requires Encodable(m, t) && |t| < Pow2(CountBits(m, version)) && Terminates(tail)
    ensures StreamText(HeaderBits(m, t, version) + tail, 0, version) == Some(t)
  {
    hide HeaderBits, Terminates, StreamText;
    var ps := [Piece(m, t)];
    assert ps[1..] == [];
    PiecesRead([], ps, version, tail);
    assert [] + (HeaderBits(m, t, version) + []) + tail == HeaderBits(m, t, version) + tail;
    assert t + "" == t;
  }

  /** Every digit text short enough for its length field is read back from such a stream. */
  lemma NumericStreamReads(t: string, version: nat, tail: seq<bool>)
    requires Digits10(t) && Terminates(tail)
    requires |t| < if version <= 9 then 1024 else if version <= 26 then 4096 else 16384
    ensures StreamText(NumericStream(t, version) + tail, 0, version) == Some(t)
  {
    hide StreamText, Digits, NumericBits, Terminates;
    HeadersAre(t, version);
    PowersOfTwo();
    StreamReads(Numeric, t, version, tail);
  }

  lemma AlphanumericStreamReads(t: string, version: nat, tail: seq<bool>)
    requires Letters45(t) && Terminates(tail)
    requires |t| < if version <= 9 then 512 else if version <= 26 then 2048 else 8192
    ensures StreamText(AlphanumericStream(t, version) + tail, 0, version) == Some(t)
  {
    hide StreamText, Digits, AlphanumericBits, Terminates;
    HeadersAre(t, version);
    PowersOfTwo();
    StreamReads(Alphanumeric, t, version, tail);
  }

  lemma PowersOfTwo()
    ensures Pow2(9) == 512 && Pow2(10) == 1024 && Pow2(11) == 2048 && Pow2(12) == 4096 && Pow2(13) == 8192 && Pow2(14) == 16384
  {
    SmallPowers();
    assert Pow2(9) == 2 * Pow2(8) && Pow2(10) == 2 * Pow2(9);
    assert Pow2(12) == 2 * Pow2(11) && Pow2(13) == 2 * Pow2(12) && Pow2(14) == 2 * Pow2(13);
  }

  // ---------------------------------------------------------------- groups

  /** Table 5: the characters in the order of their values. */
  const LETTERS: string := "0123456789" + "ABCDEFGHIJKLM" + "NOPQRSTUVWXYZ" + " $%*+-./:"

  lemma DigitLetter(k: nat)
    requires k < 10
    ensures "0123456789"[k] == (k + 48) as char
  {
  }

  lemma EarlyLetter(k: nat)
    requires k < 13
    ensures "ABCDEFGHIJKLM"[k] == (k + 65) as char
  {
  }

  lemma LateLetter(k: nat)
    requires k < 13
    ensures "NOPQRSTUVWXYZ"[k] == (k + 78) as char
  {
  }

  lemma SignCode(k: nat)
    requires k < 9
    ensures " $%*+-./:"[k] == SPECIALS[k] && AlphanumericCode(SPECIALS[k]) == 36 + k
  {
  }

  /** Both tables of the program are this one. */
  lemma TableIsStandard(k: nat)
    requires k < 45
    ensures |LETTERS| == 45 && AlphanumericChar(k) == LETTERS[k]
    ensures IsAlphanumeric(LETTERS[k]) && Code(LETTERS[k]) == k
  {
    if k < 10 {
      DigitLetter(k);
    } else if k < 23 {
      EarlyLetter(k - 10);
    } else if k < 36 {
      LateLetter(k - 23);
    } else {
      hide AlphanumericCode;
      SignCode(k - 36);
    }
  }

  /** And it has no other characters. */
  lemma LettersAre(c: char)
    ensures IsAlphanumeric(c) <==> c in LETTERS
  {
    if IsAlphanumeric(c) {
      TableIsStandard(Code(c));
      TablesAgree(c);
    }
    if c in LETTERS {
      var k :| 0 <= k < |LETTERS| && LETTERS[k] == c;
      TableIsStandard(k);
    }
  }

  function DigitValue(c: char): nat
    requires '0' <= c <= '9'
  {
    c as int - '0' as int
  }

  /** Three digits in ten bits, two in seven, one in four: nothing else, and in this order. */
  lemma {:induction false} NumericGroup(t: string, k: nat)
    requires Digits10(t) && 3 * k < |t|
    ensures |NumericBits(t)| == 10 * (|t| / 3) + (if |t| % 3 == 2 then 7 else if |t| % 3 == 1 then 4 else 0)
    ensures var group := NumericBits(t)[10 * k..];
            if 3 * k + 3 <= |t| then
              |group| >= 10 && Number(group[..10]) == 100 * DigitValue(t[3 * k]) + 10 * DigitValue(t[3 * k + 1]) + DigitValue(t[3 * k + 2])
            else if 3 * k + 2 == |t| then |group| == 7 && Number(group) == 10 * DigitValue(t[3 * k]) + DigitValue(t[3 * k + 1])
            else |group| == 4 && Number(group) == DigitValue(t[3 * k])
    decreases |t|
  {
    hide Digits, Number, Pow2;
    SmallPowers();
    if |t| <= 3 {
      assert k == 0;
      OneGroup(t);
      assert NumericBits(t)[..|NumericBits(t)|] == NumericBits(t);
    } else {
      var first := 100 * GetDigit(t[0]) + 10 * GetDigit(t[1]) + GetDigit(t[2]);
      DigitsRoundTrip(first, 10);
      var rest := NumericBits(t[3..]);
      assert NumericBits(t) == Digits(first, 10) + rest;
      NumericGroup(t[3..], if k == 0 then 0 else k - 1);
      hide NumericBits;
      if k == 0 {
        Front(Digits(first, 10), rest);
      } else {
        Back(Digits(first, 10), rest, 10 * (k - 1));
      }
    }
  }

  lemma Front(a: seq<bool>, b: seq<bool>)
    ensures (a + b)[0..] == a + b && (a + b)[..|a|] == a
  {
  }

  lemma Back(a: seq<bool>, b: seq<bool>, at: nat)
    requires at <= |b|
    ensures (a + b)[|a| + at..] == b[at..]
  {
  }

  lemma OneGroup(t: string)
    requires Digits10(t) && 0 < |t| <= 3
    ensures |NumericBits(t)| == if |t| == 3 then 10 else if |t| == 2 then 7 else 4
    ensures NumericBits(t)[0..] == NumericBits(t)
    ensures Number(NumericBits(t)) ==
              if |t| == 3 then 100 * DigitValue(t[0]) + 10 * DigitValue(t[1]) + DigitValue(t[2])
              else if |t| == 2 then 10 * DigitValue(t[0]) + DigitValue(t[1])
              else DigitValue(t[0])
  {
    hide Digits, Number, Pow2;
    SmallPowers();
    var a := GetDigit(t[0]);
    if |t| == 3 {
      var v := 100 * a + 10 * GetDigit(t[1]) + GetDigit(t[2]);
      DigitsRoundTrip(v, 10);
      assert NumericBits(t) == Digits(v, 10) + [];
      assert Digits(v, 10) + [] == Digits(v, 10);
    } else if |t| == 2 {
      DigitsRoundTrip(10 * a + GetDigit(t[1]), 7);
    } else {
      DigitsRoundTrip(a, 4);
    }
  }

  /** Two characters in eleven bits, a last one in six. */
  lemma {:induction false} AlphanumericGroup(t: string, k: nat, i: nat, j: nat)
    requires Letters45(t) && 2 * k < |t| && i < 45 && LETTERS[i] == t[2 * k]
    requires 2 * k + 1 < |t| ==> j < 45 && LETTERS[j] == t[2 * k + 1]
    ensures |AlphanumericBits(t)| == 11 * (|t| / 2) + 6 * (|t| % 2)
    ensures var group := AlphanumericBits(t)[11 * k..];
            if 2 * k + 1 < |t| then |group| >= 11 && Number(group[..11]) == 45 * i + j
            else |group| == 6 && Number(group) == i
    decreases |t|
  {
    hide Digits, Number, Pow2, AlphanumericCode;
    SmallPowers();
    TableIsStandard(i);
    if 2 * k + 1 < |t| {
      TableIsStandard(j);
    }
    if |t| == 1 {
      DigitsRoundTrip(i, 6);
      assert AlphanumericBits(t)[0..] == AlphanumericBits(t);
    } else {
      var first := 45 * Code(t[0]) + Code(t[1]);
      DigitsRoundTrip(first, 11);
      var rest := AlphanumericBits(t[2..]);
      assert AlphanumericBits(t) == Digits(first, 11) + rest;
      if k == 0 {
        assert AlphanumericBits(t)[..11] == Digits(first, 11) && AlphanumericBits(t)[0..] == AlphanumericBits(t);
        AlphanumericLength(t[2..]);
      } else {
        AlphanumericGroup(t[2..], k - 1, i, j);
        assert AlphanumericBits(t)[11 * k..] == rest[11 * (k - 1)..];
      }
    }
  }

  lemma {:induction false} AlphanumericLength(t: string)
    requires Letters45(t)
    ensures |AlphanumericBits(t)| == 11 * (|t| / 2) + 6 * (|t| % 2)
    decreases |t|
  {
    hide Digits, AlphanumericCode;
    if |t| >= 2 {
      AlphanumericLength(t[2..]);
    }
  }

  // ---------------------------------------------------------------- the segment decoders accept nothing else

  lemma DigitsOfThree(v: nat)
    requires v < 1000
    ensures Digits10(ThreeDigits(v)) && |ThreeDigits(v)| == 3
    ensures var t := ThreeDigits(v); 100 * DigitValue(t[0]) + 10 * DigitValue(t[1]) + DigitValue(t[2]) == v
  {
    assert v / 100 < 10 && v / 10 % 10 < 10 && v % 10 < 10;
    assert 100 * (v / 100) + 10 * (v / 10 % 10) + v % 10 == v;
  }

  lemma DigitsOfTwo(v: nat)
    requires v < 100
    ensures Digits10(TwoDigits(v)) && |TwoDigits(v)| == 2
    ensures var t := TwoDigits(v); 10 * DigitValue(t[0]) + DigitValue(t[1]) == v
  {
  }

  lemma PeekedDigits(s: seq<bool>, at: nat, n: nat)
    requires at + n <= |s|
    ensures Digits(Peek(s, at, n), n) == s[at..at + n]
  {
    DigitsOfNumber(s[at..at + n]);
  }

  /** What the numeric decoder accepts is written by the encoder with exactly the bits it read. */
  lemma {:induction false} NumericExactly(s: seq<bool>, at: nat, n: nat)
    requires at <= |s|
    ensures match NumericAt(s, at, n)
            case Some(g) => |g.text| == n && Digits10(g.text) && g.end <= |s| && s[at..g.end] == NumericBits(g.text)
            case None => forall t :: Digits10(t) && |t| == n ==> !(NumericBits(t) <= s[at..])
    decreases n
  {
    hide Digits, Number, Pow2, Peek, NumericBits;
    match NumericAt(s, at, n)
    case Some(g) => NumericAccepted(s, at, n);
    case None =>
      forall t | Digits10(t) && |t| == n ensures !(NumericBits(t) <= s[at..]) {
        if NumericBits(t) <= s[at..] {
          var after := s[at..][|NumericBits(t)|..];
          assert s == s[..at] + NumericBits(t) + after;
          NumericRoundTrip(s[..at], t, after);
        }
      }
  }

  lemma {:induction false} NumericAccepted(s: seq<bool>, at: nat, n: nat)
    requires at <= |s| && NumericAt(s, at, n).Some?
    ensures var g := NumericAt(s, at, n).value;
            |g.text| == n && Digits10(g.text) && g.end <= |s| && s[at..g.end] == NumericBits(g.text)
    decreases n
  {
    hide Digits, Number, Pow2, Peek;
    var g := NumericAt(s, at, n).value;
    if n >= 3 {
      var v := Peek(s, at, 10);
      DigitsOfThree(v);
      PeekedDigits(s, at, 10);
      NumericAccepted(s, at + 10, n - 3);
      var rest := NumericAt(s, at + 10, n - 3).value;
      assert g.text[3..] == rest.text;
      assert g.text[0] == ThreeDigits(v)[0] && g.text[1] == ThreeDigits(v)[1] && g.text[2] == ThreeDigits(v)[2];
      assert s[at..g.end] == s[at..at + 10] + s[at + 10..g.end];
    } else if n == 2 {
      DigitsOfTwo(Peek(s, at, 7));
      PeekedDigits(s, at, 7);
    } else if n == 1 {
      PeekedDigits(s, at, 4);
    }
  }

  lemma PairCodes(v: nat)
    requires v / 45 < 45
    ensures IsAlphanumeric(AlphanumericChar(v / 45)) && IsAlphanumeric(AlphanumericChar(v % 45))
    ensures 45 * Code(AlphanumericChar(v / 45)) + Code(AlphanumericChar(v % 45)) == v
  {
    hide AlphanumericCode, AlphanumericChar;
    TableIsStandard(v / 45);
    TableIsStandard(v % 45);
  }

  /** And so is what the alphanumeric decoder accepts. */
  lemma {:induction false} AlphanumericExactly(s: seq<bool>, at: nat, n: nat)
    requires at <= |s|
    ensures match AlphanumericAt(s, at, n)
            case Some(g) => |g.text| == n && Letters45(g.text) && g.end <= |s| && s[at..g.end] == AlphanumericBits(g.text)
            case None => forall t :: Letters45(t) && |t| == n ==> !(AlphanumericBits(t) <= s[at..])
    decreases n
  {
    hide Digits, Number, Pow2, Peek, AlphanumericBits, AlphanumericCode;
    match AlphanumericAt(s, at, n)
    case Some(g) => AlphanumericAccepted(s, at, n);
    case None =>
      forall t | Letters45(t) && |t| == n ensures !(AlphanumericBits(t) <= s[at..]) {
        if AlphanumericBits(t) <= s[at..] {
          var after := s[at..][|AlphanumericBits(t)|..];
          assert s == s[..at] + AlphanumericBits(t) + after;
          AlphanumericRoundTrip(s[..at], t, after);
        }
      }
  }

  lemma {:induction false} AlphanumericAccepted(s: seq<bool>, at: nat, n: nat)
    requires at <= |s| && AlphanumericAt(s, at, n).Some?
    ensures var g := AlphanumericAt(s, at, n).value;
            |g.text| == n && Letters45(g.text) && g.end <= |s| && s[at..g.end] == AlphanumericBits(g.text)
    decreases n
  {
    hide Digits, Number, Pow2, Peek, AlphanumericCode, AlphanumericChar;
    var g := AlphanumericAt(s, at, n).value;
    if n > 1 {
      var v := Peek(s, at, 11);
      PairCodes(v);
      PeekedDigits(s, at, 11);
      AlphanumericAccepted(s, at + 11, n - 2);
      assert g.text[2..] == AlphanumericAt(s, at + 11, n - 2).value.text;
      assert g.text[0] == AlphanumericChar(v / 45) && g.text[1] == AlphanumericChar(v % 45);
      assert s[at..g.end] == s[at..at + 11] + s[at + 11..g.end];
    } else if n == 1 {
      TableIsStandard(Peek(s, at, 6));
      PeekedDigits(s, at, 6);
    }
  }

  // ---------------------------------------------------------------- termination and padding

  /** Zeros behind s: up to four, then to the next byte boundary, never beyond the capacity. */
  function ZerosBehind(size: nat, capacity: nat): nat
    requires size <= 8 * capacity
  {
    if 8 * capacity - size <= 4 then 8 * capacity - size else 4 + (8 - (size + 4) % 8) % 8
  }

  const PAD0 := [true, true, true, false, true, true, false, false]
  const PAD1 := [false, false, false, true, false, false, false, true]

  /** Section 7.4.10: zeros, then the bytes 11101100 and 00010001 in turn, up to the capacity. */
  lemma TerminatedIs(s: seq<bool>, capacity: nat)
    requires |s| <= 8 * capacity
    ensures var t, z := Terminated(s, capacity), ZerosBehind(|s|, capacity);
            && |t| == 8 * capacity && s <= t
            && (|s| + z) % 8 == 0 && |s| + z <= 8 * capacity
            && (forall i :: |s| <= i < |s| + z ==> !t[i])
            && forall b :: 0 <= b && |s| + z + 8 * b < 8 * capacity ==>
                 t[|s| + z + 8 * b..|s| + z + 8 * b + 8] == if b % 2 == 0 then PAD0 else PAD1
  {
    hide Padding, Digits;
    var t, z := Terminated(s, capacity), ZerosBehind(|s|, capacity);
    var s2 := Aligned(Ending(s, 8 * capacity));
    ZerosAre(s, capacity);
    var n := capacity - |s2| / 8;
    forall b | 0 <= b && |s| + z + 8 * b < 8 * capacity
      ensures t[|s| + z + 8 * b..|s| + z + 8 * b + 8] == if b % 2 == 0 then PAD0 else PAD1
    {
      PaddingAt(0, n, b);
      BehindIt(s2, Padding(0, n), 8 * b);
    }
  }

  lemma BehindIt(a: seq<bool>, b: seq<bool>, at: nat)
    requires at + 8 <= |b|
    ensures (a + b)[|a| + at..|a| + at + 8] == b[at..at + 8]
  {
  }

  lemma ZerosCount(size: nat, capacity: nat)
    requires size <= 8 * capacity
    ensures var ending := Min(4, 8 * capacity - size);
            ZerosBehind(size, capacity) == ending + (8 - (size + ending) % 8) % 8
    ensures (size + ZerosBehind(size, capacity)) % 8 == 0 && size + ZerosBehind(size, capacity) <= 8 * capacity
  {
    RoundUp(size + Min(4, 8 * capacity - size), capacity);
    if 8 * capacity - size <= 4 {
      RoundUp(8 * capacity, capacity);
    }
  }

  lemma RoundUp(a: nat, c: nat)
    requires a <= 8 * c
    ensures (a + (8 - a % 8) % 8) % 8 == 0 && a + (8 - a % 8) % 8 <= 8 * c
    ensures a == 8 * c ==> a % 8 == 0 && (8 - a % 8) % 8 == 0
  {
    var q, r := a / 8, a % 8;
    assert a == 8 * q + r;
    if r == 0 {
      assert (8 - r) % 8 == 0;
    } else {
      assert (8 - r) % 8 == 8 - r && a + (8 - r) == 8 * (q + 1);
      assert q < c;
    }
  }

  lemma ZerosAre(s: seq<bool>, capacity: nat)
    requires |s| <= 8 * capacity
    ensures var s2, z := Aligned(Ending(s, 8 * capacity)), ZerosBehind(|s|, capacity);
            |s2| == |s| + z && s <= s2 && (forall i :: |s| <= i < |s2| ==> !s2[i]) && |s2| % 8 == 0 && |s2| <= 8 * capacity
  {
    ZerosCount(|s|, capacity);
    hide ZerosBehind, Min;
  }

  /** The k-th padding byte. */
  function Pad(k: nat): (s: seq<bool>)
    ensures |s| == 8
  {
    if k % 2 == 0 then PAD0 else PAD1
  }

  lemma PaddingFirst(k: nat, n: nat)
    requires n > 0
    ensures Padding(k, n) == Pad(k) + Padding(k + 1, n - 1)
  {
    PadBytes();
    hide Digits;
  }

  lemma {:induction false} PaddingAt(k: nat, n: nat, b: nat)
    requires b < n
    ensures Padding(k, n)[8 * b..8 * b + 8] == Pad(k + b)
    decreases b
  {
    hide Digits, Padding, Pad;
    PaddingFirst(k, n);
    if b == 0 {
      FirstEight(Pad(k), Padding(k + 1, n - 1));
    } else {
      PaddingAt(k + 1, n - 1, b - 1);
      Shifted(Pad(k), Padding(k + 1, n - 1), 8 * (b - 1));
    }
  }

  lemma FirstEight(first: seq<bool>, rest: seq<bool>)
    requires |first| == 8
    ensures (first + rest)[0..8] == first
  {
  }

  lemma Shifted(first: seq<bool>, rest: seq<bool>, at: nat)
    requires |first| == 8 && at + 8 <= |rest|
    ensures (first + rest)[at + 8..at + 16] == rest[at..at + 8]
  {
  }

  lemma PadBytes()
    ensures Digits(236, 8) == PAD0 && Digits(17, 8) == PAD1
  {
    FirstPad();
    SecondPad();
  }

  lemma FirstPad()
    ensures Digits(236, 8) == PAD0
  {
    assert Digits(14, 4) == [true, true, true, false];
    OneMoreBit(29, 5);
    OneMoreBit(59, 6);
    OneMoreBit(118, 7);
    OneMoreBit(236, 8);
    hide Digits;
  }

  lemma SecondPad()
    ensures Digits(17, 8) == PAD1
  {
    assert Digits(1, 4) == [false, false, false, true];
    OneMoreBit(2, 5);
    OneMoreBit(4, 6);
    OneMoreBit(8, 7);
    OneMoreBit(17, 8);
    hide Digits;
  }

  lemma OneMoreBit(v: nat, n: nat)
    requires n > 0
    ensures Digits(v, n) == Digits(v / 2, n - 1) + [v % 2 == 1]
  {
  }
}
