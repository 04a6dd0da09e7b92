/** The QR data bit stream for numeric and alphanumeric text: mode, length, groups, termination and
    padding on the encoder's side, the parsing loop on the decoder's. */
module QrText {
  import opened BinaryDigits
  import opened BitArray
  import opened BitSource
  import opened Wrappers

  datatype Mode = Numeric | Alphanumeric | Byte

  datatype StreamError = TextTooLong | DoesNotFit | OtherMode

  datatype FormatError = FormatError

  // ---------------------------------------------------------------- tables

  predicate IsDigit(c: char) {
    '0' <= c <= '9'
  }

  function GetDigit(c: char): (d: nat)
    requires IsDigit(c)
    ensures d < 10
  {
    c as int - 48
  }

  /** The encoder's code table, by ranges; -1 for characters outside the set. */
  function AlphanumericCode(c: char): int {
    if '0' <= c <= '9' then c as int - 48
    else if 'A' <= c <= 'Z' then c as int - 55
    else match c
      case ' ' => 36
      case '$' => 37
      case '%' => 38
      case '*' => 39
      case '+' => 40
      case '-' => 41
      case '.' => 42
      case '/' => 43
      case ':' => 44
      case _ => -1
  }

  /** The decoder's 45-character table, by ranges: digits, capital letters, then nine others. */
  const SPECIALS := " $%*+-./:"

  function AlphanumericChar(k: nat): (c: char)
    requires k < 45
  {
    if k < 10 then (k + 48) as char
    else if k < 36 then (k + 55) as char
    else SPECIALS[k - 36]
  }

  predicate IsAlphanumeric(c: char) {
    AlphanumericCode(c) >= 0
  }

  function Code(c: char): (k: nat)
    requires IsAlphanumeric(c)
    ensures k < 45
  {
    AlphanumericCode(c)
  }

  /** The two tables are inverse to each other. */
  lemma TablesAgree(c: char)
    requires IsAlphanumeric(c)
    ensures AlphanumericChar(Code(c)) == c
  {
    match c
    case ' ' => assert SPECIALS[0] == c;
    case '$' => assert SPECIALS[1] == c;
    case '%' => assert SPECIALS[2] == c;
    case '*' => assert SPECIALS[3] == c;
    case '+' => assert SPECIALS[4] == c;
    case '-' => assert SPECIALS[5] == c;
    case '.' => assert SPECIALS[6] == c;
    case '/' => assert SPECIALS[7] == c;
    case ':' => assert SPECIALS[8] == c;
    case _ =>
  }

  function ModeBits(m: Mode): nat {
    match m
    case Numeric => 1
    case Alphanumeric => 2
    case Byte => 4
  }

  /** The width of the length field, by version range; byte mode is not part of this model. */
  function CountBits(m: Mode, version: nat): (n: nat)
    ensures 9 <= n <= 14 || m == Byte
  {
    var range := if version <= 9 then 0 else if version <= 26 then 1 else 2;
    match m
    case Numeric => [10, 12, 14][range]
    case Alphanumeric => [9, 11, 13][range]
    case Byte => 0
  }

  /** One pass over the text: digits only, else digits and table characters, else bytes. */
  method ChooseMode(text: string) returns (m: Mode)
    ensures m == Numeric <==> text != "" && forall i :: 0 <= i < |text| ==> IsDigit(text[i])
    ensures m == Alphanumeric <==> (forall i :: 0 <= i < |text| ==> IsAlphanumeric(text[i])) &&
                                   exists i :: 0 <= i < |text| && !IsDigit(text[i])
  {
    var digit, other := false, false;
    for i := 0 to |text|
      invariant digit <==> exists k :: 0 <= k < i && IsDigit(text[k])
      invariant other <==> exists k :: 0 <= k < i && !IsDigit(text[k])
      invariant forall k :: 0 <= k < i ==> IsAlphanumeric(text[k])
      invariant i > 0 ==> digit || other
    {
      if IsDigit(text[i]) {
        digit := true;
      } else {
        if AlphanumericCode(text[i]) == -1 {
          assert !IsDigit(text[i]) && !IsAlphanumeric(text[i]);
          return Byte;
        }
        other := true;
      }
    }
    assert !other ==> forall k :: 0 <= k < |text| ==> IsDigit(text[k]);
    return if other then Alphanumeric else if digit then Numeric else Byte;
  }

  // ---------------------------------------------------------------- groups

  /** Digits in threes, the rest in two or one. */
  function NumericBits(s: string): seq<bool>
    requires forall i :: 0 <= i < |s| ==> IsDigit(s[i])
  {
    if s == "" then []
    else
      var a := GetDigit(s[0]);
      if |s| >= 3 then Digits(100 * a + 10 * GetDigit(s[1]) + GetDigit(s[2]), 10) + NumericBits(s[3..])
      else if |s| == 2 then Digits(10 * a + GetDigit(s[1]), 7)
      else Digits(a, 4)
  }

  /** Characters in pairs, the rest alone. */
  function AlphanumericBits(s: string): seq<bool>
    requires forall i :: 0 <= i < |s| ==> IsAlphanumeric(s[i])
  {
    if s == "" then []
    else
      var a := Code(s[0]);
      if |s| >= 2 then Digits(45 * a + Code(s[1]), 11) + AlphanumericBits(s[2..])
      else Digits(a, 6)
  }

  predicate Encodable(m: Mode, s: string) {
    match m
    case Numeric => forall i :: 0 <= i < |s| ==> IsDigit(s[i])
    case Alphanumeric => forall i :: 0 <= i < |s| ==> IsAlphanumeric(s[i])
    case Byte => false
  }

  function DataBits(m: Mode, s: string): seq<bool>
    requires Encodable(m, s)
  {
    if m == Numeric then NumericBits(s) else AlphanumericBits(s)
  }

  method AppendNumericBytes(s: string, bits: BitArray)
    requires bits.Valid() && forall i :: 0 <= i < |s| ==> IsDigit(s[i])
    modifies bits, bits.bits
    ensures bits.Valid() && (bits.bits == old(bits.bits) || fresh(bits.bits))
    ensures bits.Contents() == old(bits.Contents()) + NumericBits(s)
  {
    hide Digits;
    var n := 0;
    while n < |s|
      invariant 0 <= n <= |s| && bits.Valid() && (bits.bits == old(bits.bits) || fresh(bits.bits))
      invariant bits.Contents() + NumericBits(s[n..]) == old(bits.Contents()) + NumericBits(s)
    {
      var a := GetDigit(s[n]);
      ghost var rest := s[n..];
      if n + 2 < |s| {
        assert rest[3..] == s[n + 3..];
        var _ := bits.AppendBits(100 * a + 10 * GetDigit(s[n + 1]) + GetDigit(s[n + 2]), 10);
        n := n + 3;
      } else if n + 1 < |s| {
        var _ := bits.AppendBits(10 * a + GetDigit(s[n + 1]), 7);
        n := n + 2;
      } else {
        var _ := bits.AppendBits(a, 4);
        n := n + 1;
      }
    }
    assert s[n..] == "";
  }

  method AppendAlphanumericBytes(s: string, bits: BitArray)
    requires bits.Valid() && forall i :: 0 <= i < |s| ==> IsAlphanumeric(s[i])
    modifies bits, bits.bits
    ensures bits.Valid() && (bits.bits == old(bits.bits) || fresh(bits.bits))
    ensures bits.Contents() == old(bits.Contents()) + AlphanumericBits(s)
  {
    hide Digits;
    var n := 0;
    while n < |s|
      invariant 0 <= n <= |s| && bits.Valid() && (bits.bits == old(bits.bits) || fresh(bits.bits))
      invariant bits.Contents() + AlphanumericBits(s[n..]) == old(bits.Contents()) + AlphanumericBits(s)
    {
      var a := Code(s[n]);
      ghost var rest := s[n..];
      if n + 1 < |s| {
        assert rest[2..] == s[n + 2..];
        var _ := bits.AppendBits(45 * a + Code(s[n + 1]), 11);
        n := n + 2;
      } else {
        var _ := bits.AppendBits(a, 6);
        n := n + 1;
      }
    }
    assert s[n..] == "";
  }

  // ---------------------------------------------------------------- termination

  function Min(a: nat, b: nat): nat {
    if a <= b then a else b
  }

  function Falses(n: nat): (s: seq<bool>)
    ensures |s| == n && forall i :: 0 <= i < n ==> !s[i]
  {
    seq(n, _ => false)
  }

  /** n padding bytes, 236 and 17 in turn, from the k-th on. */
  function Padding(k: nat, n: nat): (s: seq<bool>)
    ensures |s| == 8 * n
    decreases n
  {
    if n == 0 then [] else Digits(if k % 2 == 1 then 17 else 236, 8) + Padding(k + 1, n - 1)
  }

  /** Up to four zero bits, zero bits to a byte boundary, then padding bytes up to the capacity. */
  function Terminated(s: seq<bool>, capacity: nat): (t: seq<bool>)
    requires |s| <= 8 * capacity
    ensures |t| == 8 * capacity
  {
    var s2 := Aligned(Ending(s, 8 * capacity));
    s2 + Padding(0, capacity - |s2| / 8)
  }

  function Ending(s: seq<bool>, limit: nat): (t: seq<bool>)
    requires |s| <= limit
    ensures |s| <= |t| <= limit
  {
    s + Falses(Min(4, limit - |s|))
  }

  function Aligned(s: seq<bool>): (t: seq<bool>)
    ensures |t| % 8 == 0 && |s| <= |t| < |s| + 8
  {
    s + Falses((8 - |s| % 8) % 8)
  }

  lemma TerminatedExtends(s: seq<bool>, capacity: nat)
    requires |s| <= 8 * capacity
    ensures s <= Terminated(s, capacity)
  {
    hide Padding, Falses;
  }

  method AppendFalses(bits: BitArray, n: nat)
    requires bits.Valid()
    modifies bits, bits.bits
    ensures bits.Valid() && (bits.bits == old(bits.bits) || fresh(bits.bits))
    ensures bits.Contents() == old(bits.Contents()) + Falses(n)
  {
    for k := 0 to n
      invariant bits.Valid() && (bits.bits == old(bits.bits) || fresh(bits.bits))
      invariant bits.Contents() == old(bits.Contents()) + Falses(k)
    {
      bits.AppendBit(false);
    }
  }

  method AppendPadding(bits: BitArray, n: nat)
    requires bits.Valid()
    modifies bits, bits.bits
    ensures bits.Valid() && (bits.bits == old(bits.bits) || fresh(bits.bits))
    ensures bits.Contents() == old(bits.Contents()) + Padding(0, n)
  {
    hide Digits;
    for k := 0 to n
      invariant bits.Valid() && (bits.bits == old(bits.bits) || fresh(bits.bits))
      invariant bits.Contents() + Padding(k, n - k) == old(bits.Contents()) + Padding(0, n)
    {
      var _ := bits.AppendBits(if k % 2 == 1 then 17 else 236, 8);
    }
  }

  method TerminateBits(capacity: nat, bits: BitArray) returns (r: Result<(), StreamError>)
    requires bits.Valid()
    modifies bits, bits.bits
    ensures bits.Valid() && (bits.bits == old(bits.bits) || fresh(bits.bits))
    ensures r.Ok? <==> |old(bits.Contents())| <= 8 * capacity
    ensures r.Ok? ==> bits.Contents() == Terminated(old(bits.Contents()), capacity)
    ensures r.Err? ==> r.error == DoesNotFit && bits.Contents() == old(bits.Contents())
  {
    hide Padding, Falses, Ending, Aligned, CleanTail;
    var limit := 8 * capacity;
    if bits.size > limit {
      return Err(DoesNotFit);
    }
    ghost var s := bits.Contents();
    AppendEnding(bits, limit);
    var n := bits.size % 8;
    if n > 0 {
      AppendFalses(bits, 8 - n);
    }
    AlignedIs(Ending(s, limit), n);
    AppendPadding(bits, capacity - bits.GetSizeInBytes());
    if bits.size != limit {
      return Err(DoesNotFit);
    }
    return Ok(());
  }

  lemma AlignedIs(s: seq<bool>, n: nat)
    requires n == |s| % 8
    ensures Aligned(s) == s + Falses(if n > 0 then 8 - n else 0)
    ensures n == 0 ==> Aligned(s) == s
  {
  }

  /** The terminator: at most four zero bits, fewer when the capacity ends. */
  method AppendEnding(bits: BitArray, limit: nat)
    requires bits.Valid() && bits.size <= limit
    modifies bits, bits.bits
    ensures bits.Valid() && (bits.bits == old(bits.bits) || fresh(bits.bits))
    ensures bits.Contents() == Ending(old(bits.Contents()), limit)
  {
    ghost var s := bits.Contents();
    var t := 0;
    while t < 4 && bits.size < limit
      invariant bits.Valid() && (bits.bits == old(bits.bits) || fresh(bits.bits))
      invariant 0 <= t <= Min(4, limit - |s|) && bits.Contents() == s + Falses(t)
    {
      bits.AppendBit(false);
      t := t + 1;
    }
  }

  // ---------------------------------------------------------------- the encoder's stream

  function HeaderBits(m: Mode, s: string, version: nat): seq<bool>
    requires Encodable(m, s)
  {
    Digits(ModeBits(m), 4) + Digits(|s|, CountBits(m, version)) + DataBits(m, s)
  }

  /** Section 7.4.3: the indicator 0001, the length in 10, 12 or 14 bits, the groups. */
  function NumericStream(t: string, version: nat): seq<bool>
    requires Encodable(Numeric, t)
  {
    Digits(1, 4) + Digits(|t|, if version <= 9 then 10 else if version <= 26 then 12 else 14) + NumericBits(t)
  }

  /** Section 7.4.4: the indicator 0010, the length in 9, 11 or 13 bits, the pairs. */
  function AlphanumericStream(t: string, version: nat): seq<bool>
    requires Encodable(Alphanumeric, t)
  {
    Digits(2, 4) + Digits(|t|, if version <= 9 then 9 else if version <= 26 then 11 else 13) + AlphanumericBits(t)
  }

  lemma HeadersAre(t: string, version: nat)
    ensures Encodable(Numeric, t) ==> HeaderBits(Numeric, t, version) == NumericStream(t, version)
    ensures Encodable(Alphanumeric, t) ==> HeaderBits(Alphanumeric, t, version) == AlphanumericStream(t, version)
  {
    hide Digits, NumericBits, AlphanumericBits;
  }

  /** The mode the encoder picks for a text it can write. */
  ghost predicate Picks(m: Mode, s: string) {
    s != "" && Encodable(m, s) && (m == Alphanumeric ==> !Encodable(Numeric, s))
  }

  /** Mode, length and text into a fresh bit array, terminated for the capacity in bytes. */
  method EncodeText(text: string, version: nat, capacity: nat) returns (r: Result<BitArray, StreamError>)
    ensures r.Ok? ==> fresh(r.value) && fresh(r.value.bits) && r.value.Valid()
    ensures forall m :: Picks(m, text) && |text| >= Pow2(CountBits(m, version)) ==> r == Err(TextTooLong)
    ensures forall m :: Picks(m, text) && |text| < Pow2(CountBits(m, version)) ==>
              if |HeaderBits(m, text, version)| > 8 * capacity then r == Err(DoesNotFit)
              else r.Ok? && r.value.Contents() == Terminated(HeaderBits(m, text, version), capacity)
    ensures (forall m :: !Picks(m, text)) <==> r == Err(OtherMode)
    ensures r.Ok? ==>
              Encodable(Alphanumeric, text) &&
              (if Encodable(Numeric, text) then NumericStream(text, version) else AlphanumericStream(text, version)) <= r.value.Contents()
  {
    hide Digits, Pow2, NumericBits, AlphanumericBits, CountBits, Terminated, HeaderBits;
    var mode := ChooseMode(text);
    OnePick(text);
    if mode == Byte {
      assert forall m :: !Picks(m, text);
      return Err(OtherMode);
    }
    assert Picks(mode, text);
    if |text| >= Pow2(CountBits(mode, version)) {
      return Err(TextTooLong);
    }
    var out := HeaderAndData(text, mode, version);
    var fits := TerminateBits(capacity, out);
    if fits.Err? {
      return Err(fits.error);
    }
    HeadersAre(text, version);
    TerminatedExtends(HeaderBits(mode, text, version), capacity);
    return Ok(out);
  }

  /** The header and the data are built apart and then joined, with the length between them. */
  method HeaderAndData(text: string, mode: Mode, version: nat) returns (out: BitArray)
    requires Encodable(mode, text) && |text| < Pow2(CountBits(mode, version))
    ensures fresh(out) && fresh(out.bits) && out.Valid()
    ensures out.Contents() == HeaderBits(mode, text, version)
  {
    hide Digits, Pow2, CountBits, DataBits, CleanTail, BitsOf, Encodable;
    var data := new BitArray();
    AppendBytes(text, mode, data);
    ghost var tail := data.Contents();
    out := Header(mode, |text|, version);
    assert data.Valid() && data.Contents() == tail;
    out.AppendBitArray(data);
  }

  /** Mode and length. */
  method Header(mode: Mode, n: nat, version: nat) returns (out: BitArray)
    ensures fresh(out) && fresh(out.bits) && out.Valid()
    ensures out.Contents() == Digits(ModeBits(mode), 4) + Digits(n, CountBits(mode, version))
  {
    hide Digits, CountBits, CleanTail, BitsOf;
    var header := new BitArray();
    var _ := header.AppendBits(ModeBits(mode), 4);
    out := new BitArray();
    out.AppendBitArray(header);
    CountFits(mode, version);
    var _ := out.AppendBits(n, CountBits(mode, version));
  }

  lemma CountFits(m: Mode, version: nat)
    ensures CountBits(m, version) <= 14
  {
  }

  method AppendBytes(s: string, mode: Mode, bits: BitArray)
    requires bits.Valid() && Encodable(mode, s)
    modifies bits, bits.bits
    ensures bits.Valid() && (bits.bits == old(bits.bits) || fresh(bits.bits))
    ensures bits.Contents() == old(bits.Contents()) + DataBits(mode, s)
  {
    if mode == Numeric {
      AppendNumericBytes(s, bits);
    } else {
      AppendAlphanumericBytes(s, bits);
    }
  }

  lemma OnePick(s: string)
    ensures forall m, m' :: Picks(m, s) && Picks(m', s) ==> m == m'
    ensures Encodable(Numeric, s) ==> Encodable(Alphanumeric, s)
  {
  }

  /** The version check compares with an unfloored quotient. */
  predicate WillFit(bits: nat, capacity: nat) {
    capacity as real >= (bits + 7) as real / 8.0
  }

  /** It implies that the bits fit, and refuses exactly the streams that leave fewer than seven bits free. */
  lemma WillFitExactly(bits: nat, capacity: nat)
    ensures WillFit(bits, capacity) <==> bits + 7 <= 8 * capacity
    ensures WillFit(bits, capacity) ==> bits <= 8 * capacity
    ensures bits <= 8 * capacity && !WillFit(bits, capacity) <==> 8 * capacity - 7 < bits <= 8 * capacity
  {
  }
}
