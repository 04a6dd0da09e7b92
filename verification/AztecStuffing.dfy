/** Aztec bit stuffing: the encoder breaks up words whose leading bits are all equal, so that no word
    is all zeros or all ones, and the decoder drops the inserted bits again. */
module AztecStuffing {
  import opened BinaryDigits
  import opened BitArray
  import opened BitSource
  import opened Wrappers

  datatype StuffingError = ForbiddenWord

  // ---------------------------------------------------------------- what is written

  function Ones(n: nat): (s: seq<bool>)
    ensures |s| == n
  {
    seq(n, _ => true)
  }

  /** The e bits of s from `at` on, with ones beyond its end. */
  function Window(s: seq<bool>, at: nat, e: nat): (w: seq<bool>)
    ensures |w| == e
  {
    seq(e, i requires 0 <= i < e => at + i >= |s| || s[at + i])
  }

  predicate AllEqual(s: seq<bool>, b: bool) {
    forall i :: 0 <= i < |s| ==> s[i] == b
  }

  /** The words written for s from `at` on. */
  function StuffedWords(s: seq<bool>, at: nat, e: nat): (words: seq<seq<bool>>)
    requires e >= 2
    ensures forall i :: 0 <= i < |words| ==> |words[i]| == e
    decreases |s| - at
  {
    if at >= |s| then []
    else
      var w := Window(s, at, e);
      if AllEqual(w[..e - 1], w[0]) then [w[..e - 1] + [!w[0]]] + StuffedWords(s, at + (e - 1), e)
      else [w] + StuffedWords(s, at + e, e)
  }

  function Concat(words: seq<seq<bool>>): seq<bool> {
    if words == [] then [] else words[0] + Concat(words[1..])
  }

  // ---------------------------------------------------------------- numbers of words

  lemma {:induction false} NumberOfEqual(s: seq<bool>)
    ensures Number(s) == 0 <==> AllEqual(s, false)
    ensures Number(s) == Pow2(|s|) - 1 <==> AllEqual(s, true)
    decreases |s|
  {
    if s != [] {
      var i := s[..|s| - 1];
      NumberLast(s);
      NumberOfEqual(i);
      assert s == i + [s[|s| - 1]];
      NumberBound(i);
    }
  }

  /** A word under the encoder's mask, which is ones except in the last bit. */
  function Masked(o: nat): nat {
    o - o % 2
  }

  /** The last bit split from the others, as the encoder's mask does it. */
  lemma MaskedNumber(w: seq<bool>)
    requires |w| >= 1
    ensures Masked(Number(w)) == 2 * Number(w[..|w| - 1])
  {
    hide *;
    NumberLast(w);
    MaskedOdd(Number(w[..|w| - 1]), w[|w| - 1]);
  }

  lemma MaskedOdd(n: nat, b: bool)
    ensures Masked(2 * n + One(b)) == 2 * n
  {
  }

  lemma NumberPush(s: seq<bool>, b: bool)
    ensures Number(s + [b]) == 2 * Number(s) + One(b)
  {
    NumberLast(s + [b]);
    assert (s + [b])[..|s|] == s;
  }

  // ---------------------------------------------------------------- the encoder's loop

  /** The word at s as a number, bit by bit. */
  method WordAt(bits: BitArray, s: nat, e: nat) returns (o: nat)
    requires bits.Valid()
    ensures o == Number(Window(bits.Contents(), s, e))
  {
    hide Number, Pow2, CleanTail, BitsOf;
    ghost var w := Window(bits.Contents(), s, e);
    o := 0;
    NumberEmpty();
    for r := 0 to e
      invariant o == Number(w[..r]) * Pow2(e - r)
    {
      ShiftOneMore(Number(w[..r]), e - r);
      NumberPush(w[..r], w[r]);
      assert w[..r + 1] == w[..r] + [w[r]];
      AddWeight(Number(w[..r]), w[r], Pow2(e - r - 1));
      var one := s + r >= bits.size;
      if !one {
        one := bits.Get(s + r);
      }
      if one {
        o := o + Pow2(e - 1 - r);
      }
    }
    assert w[..e] == w;
    ShiftByZero(Number(w));
  }

  lemma AddWeight(n: nat, b: bool, p: nat)
    ensures 2 * (n * p) + (if b then p else 0) == (2 * n + One(b)) * p
  {
  }

  /** What the mask tests decide about a word. */
  lemma MaskTests(w: seq<bool>)
    requires |w| >= 2
    ensures Masked(Number(w)) == Pow2(|w|) - 2 <==> AllEqual(w[..|w| - 1], true)
    ensures Masked(Number(w)) == 0 <==> AllEqual(w[..|w| - 1], false)
  {
    hide *;
    MaskedNumber(w);
    NumberOfEqual(w[..|w| - 1]);
    Pow2Unfold(|w|);
  }

  /** What is appended for a word w whose number is o and whose bits but the last are h. */
  lemma AppendedWord(w: seq<bool>, h: seq<bool>, o: nat, e: nat)
    requires |w| == e >= 2 && h == w[..e - 1] && o == Number(w)
    ensures Digits(Masked(o), e) == h + [false]
    ensures Digits(Masked(o) + 1, e) == h + [true]
    ensures Digits(o, e) == w
  {
    hide *;
    MaskedNumber(w);
    LastDigit(h);
    DigitsOfNumber(w);
  }

  lemma LastDigit(h: seq<bool>)
    ensures Digits(2 * Number(h), |h| + 1) == h + [false]
    ensures Digits(2 * Number(h) + 1, |h| + 1) == h + [true]
  {
    DigitsPush(h, false);
    DigitsPush(h, true);
  }

  lemma DigitsPush(h: seq<bool>, b: bool)
    ensures Digits(2 * Number(h) + One(b), |h| + 1) == h + [b]
  {
    hide *;
    NumberPush(h, b);
    var w := h + [b];
    assert |w| == |h| + 1;
    DigitsOfNumber(w);
  }

  /** The word as it is written: the last bit turned when the others are all equal. */
  function WrittenWord(w: seq<bool>): (v: seq<bool>)
    requires |w| >= 2
    ensures |v| == |w|
  {
    if AllEqual(w[..|w| - 1], w[0]) then w[..|w| - 1] + [!w[0]] else w
  }

  /** How many bits of the input a word takes. */
  function Taken(w: seq<bool>): (n: nat)
    requires |w| >= 2
    ensures n <= |w|
  {
    if AllEqual(w[..|w| - 1], w[0]) then |w| - 1 else |w|
  }

  /** Appends one word; the next starts one bit earlier when a bit was inserted. */
  method AppendWord(out: BitArray, o: nat, e: nat, s0: nat, ghost w: seq<bool>) returns (s: nat)
    requires out.Valid() && 2 <= e <= 30 && |w| == e && o == Number(w)
    modifies out, out.bits
    ensures out.Valid() && (out.bits == old(out.bits) || fresh(out.bits))
    ensures out.Contents() == old(out.Contents()) + WrittenWord(w) && s == s0 + Taken(w)
  {
    hide Number, Digits, AllEqual, CleanTail, BitsOf, Pow2, Masked;
    var mask := Pow2(e) - 2;
    MaskTests(w);
    AppendedWord(w, w[..e - 1], o, e);
    EqualToFirst(w[..e - 1]);
    assert w[..e - 1][0] == w[0];
    var t: int := s0;
    if Masked(o) == mask {
      var _ := out.AppendBits(Masked(o), e);
      t := t - 1;
    } else if Masked(o) != 0 {
      var _ := out.AppendBits(o, e);
    } else {
      var _ := out.AppendBits(Masked(o) + 1, e);
      t := t - 1;
    }
    s := t + e;
  }

  method StuffBits(bits: BitArray, e: nat) returns (out: BitArray)
    requires bits.Valid() && 2 <= e <= 30
    ensures fresh(out) && fresh(out.bits) && out.Valid()
    ensures out.Contents() == Concat(StuffedWords(bits.Contents(), 0, e))
  {
    hide Number, Window, CleanTail, BitsOf, Concat, WrittenWord, Taken, StuffedWords;
    ghost var t := bits.Contents();
    out := new BitArray();
    var s := 0;
    assert out.Contents() + Concat(StuffedWords(t, 0, e)) == Concat(StuffedWords(t, 0, e));
    while s < bits.size
      invariant out.Valid() && fresh(out) && fresh(out.bits)
      invariant bits.Valid() && bits.Contents() == t
      invariant out.Contents() + Concat(StuffedWords(t, s, e)) == Concat(StuffedWords(t, 0, e))
      decreases |t| - s
    {
      var o := WordAt(bits, s, e);
      ghost var w, before := Window(t, s, e), out.Contents();
      StuffedUnfold(t, s, e);
      s := AppendWord(out, o, e, s, w);
      assert before + (WrittenWord(w) + Concat(StuffedWords(t, s, e))) == before + WrittenWord(w) + Concat(StuffedWords(t, s, e));
    }
    NoMoreWords(t, s, e);
    assert out.Contents() + [] == out.Contents();
  }

  lemma NoMoreWords(t: seq<bool>, s: nat, e: nat)
    requires e >= 2 && s >= |t|
    ensures Concat(StuffedWords(t, s, e)) == []
  {
  }

  lemma EqualToFirst(s: seq<bool>)
    requires |s| >= 1
    ensures AllEqual(s, s[0]) <==> AllEqual(s, true) || AllEqual(s, false)
    ensures AllEqual(s, true) ==> s[0]
    ensures AllEqual(s, false) ==> !s[0]
  {
  }

  lemma StuffedUnfold(t: seq<bool>, s: nat, e: nat)
    requires e >= 2 && s < |t|
    ensures var w := Window(t, s, e);
            && Taken(w) > 0
            && StuffedWords(t, s, e) == [WrittenWord(w)] + StuffedWords(t, s + Taken(w), e)
            && Concat(StuffedWords(t, s, e)) == WrittenWord(w) + Concat(StuffedWords(t, s + Taken(w), e))
  {
    hide Window, AllEqual;
    var w := Window(t, s, e);
    assert StuffedWords(t, s, e)[1..] == StuffedWords(t, s + Taken(w), e);
  }

  // ---------------------------------------------------------------- the decoder's loops

  /** A shift of a signed 32-bit integer by one place. */
  function ShiftedLeft(n: int): int {
    ToInt32((2 * n) % 0x1_0000_0000)
  }

  /** The signed 32-bit integer with the low 32 bits of a number. */
  function Wrapped(n: nat): int {
    ToInt32(n % 0x1_0000_0000)
  }

  lemma WrappedResidue(n: nat) returns (q: int)
    ensures Wrapped(n) == n + q * 0x1_0000_0000
  {
    q := -(n / 0x1_0000_0000) - if n % 0x1_0000_0000 < 0x8000_0000 then 0 else 1;
  }

  lemma SameResidue(a: int, b: int, k: int)
    requires a == b + k * 0x1_0000_0000
    ensures a % 0x1_0000_0000 == b % 0x1_0000_0000
  {
  }

  lemma EvenResidue(a: nat)
    ensures (2 * a) % 0x1_0000_0000 % 2 == 0 && (2 * a) % 0x1_0000_0000 + 1 < 0x1_0000_0000
    ensures (2 * a + 1) % 0x1_0000_0000 == (2 * a) % 0x1_0000_0000 + 1
  {
    var q, r := a / 0x8000_0000, a % 0x8000_0000;
    assert 2 * a == 0x1_0000_0000 * q + 2 * r;
    DivModIs(2 * a, 0x1_0000_0000, q, 2 * r);
    DivModIs(2 * a + 1, 0x1_0000_0000, q, 2 * r + 1);
  }

  /** Shifting in one more bit wraps as the whole number does. */
  lemma WrappedPush(a: nat, b: bool)
    ensures ShiftedLeft(Wrapped(a)) + One(b) == Wrapped(2 * a + One(b))
  {
    var q := WrappedResidue(a);
    hide Wrapped;
    SameResidue(2 * Wrapped(a), 2 * a, 2 * q);
    EvenResidue(a);
    WrappedIs(2 * a);
    WrappedIs(2 * a + 1);
  }

  lemma WrappedIs(n: nat)
    ensures Wrapped(n) == ToInt32(n % 0x1_0000_0000)
    ensures n < 0x8000_0000 ==> Wrapped(n) == n
  {
  }

  /** Reading `length` bits as a number in a signed 32-bit integer; bits beyond the end count as zero. */
  method ReadCode(raw: seq<bool>, start: nat, length: nat) returns (n: int)
    ensures var code := Number(seq(length, i requires 0 <= i < length => start + i < |raw| && raw[start + i]));
            n == Wrapped(code) && (length < 32 ==> n == code)
  {
    hide Number, Wrapped, ShiftedLeft;
    ghost var w := seq(length, i requires 0 <= i < length => start + i < |raw| && raw[start + i]);
    n := 0;
    NumberEmpty();
    WrappedIs(0);
    for i := 0 to length
      invariant n == Wrapped(Number(w[..i]))
    {
      NumberPush(w[..i], w[i]);
      WrappedPush(Number(w[..i]), w[i]);
      assert w[..i + 1] == w[..i] + [w[i]];
      n := ShiftedLeft(n);
      if start + i < |raw| && raw[start + i] {
        n := n + 1;
      }
    }
    assert w[..length] == w;
    if length < 32 {
      ShortCode(w);
    }
  }

  lemma ShortCode(w: seq<bool>)
    requires |w| < 32
    ensures Wrapped(Number(w)) == Number(w)
  {
    hide Number, Wrapped, Pow2;
    NumberBound(w);
    Pow2Monotone(|w|, 31);
    Pow2Is32();
    Pow2Unfold(32);
    WrappedIs(Number(w));
  }

  /** Read from the concatenation, word t is the word that was written there. */
  lemma {:induction false} WordsReadBack(words: seq<seq<bool>>, e: nat, t: nat)
    requires t < |words| && forall i :: 0 <= i < |words| ==> |words[i]| == e
    ensures t * e + e <= |Concat(words)| && Concat(words)[t * e..t * e + e] == words[t]
    decreases |words|
  {
    if t > 0 {
      WordsReadBack(words[1..], e, t - 1);
      assert t * e == (t - 1) * e + e;
      var rest := Concat(words[1..]);
      assert (words[0] + rest)[t * e..t * e + e] == rest[(t - 1) * e..(t - 1) * e + e];
    }
  }

  predicate IsStuffed(word: nat, e: nat) {
    word == 1 || word == Pow2(e) - 2
  }

  /** The bits that one word stands for. */
  function UnstuffedWord(word: nat, e: nat): (s: seq<bool>)
    requires e >= 1
    ensures |s| == if IsStuffed(word, e) then e - 1 else e
  {
    if IsStuffed(word, e) then seq(e - 1, _ => word > 1) else Digits(word, e)
  }

  function Unstuffed(words: seq<nat>, e: nat): seq<bool>
    requires e >= 1
  {
    if words == [] then [] else Unstuffed(words[..|words| - 1], e) + UnstuffedWord(words[|words| - 1], e)
  }

  predicate Allowed(word: nat, e: nat) {
    0 < word < Pow2(e) - 1
  }

  lemma {:induction false} PrefixShorter(words: seq<nat>, e: nat, t: nat)
    requires e >= 1 && t <= |words|
    ensures |Unstuffed(words[..t], e)| <= |Unstuffed(words, e)|
    decreases |words| - t
  {
    hide UnstuffedWord;
    if t == |words| {
      assert words[..t] == words;
    } else {
      PrefixShorter(words, e, t + 1);
      assert words[..t + 1][..t] == words[..t];
    }
  }

  lemma OneMoreWord(words: seq<nat>, e: nat, t: nat)
    requires e >= 1 && t < |words|
    ensures Unstuffed(words[..t + 1], e) == Unstuffed(words[..t], e) + UnstuffedWord(words[t], e)
  {
    assert words[..t + 1][..t] == words[..t];
  }

  /** Counts the stuffed words, refusing the two forbidden ones. */
  method CountStuffed(words: seq<nat>, e: nat) returns (r: Result<nat, StuffingError>)
    requires e >= 2 && forall t :: 0 <= t < |words| ==> words[t] < Pow2(e)
    ensures r.Ok? <==> forall t :: 0 <= t < |words| ==> Allowed(words[t], e)
    ensures r.Ok? ==> |words| * e - r.value == |Unstuffed(words, e)|
  {
    hide Pow2, Digits, Unstuffed;
    var mask := Pow2(e) - 1;
    var h := 0;
    NothingUnstuffed(e);
    for t := 0 to |words|
      invariant forall i :: 0 <= i < t ==> Allowed(words[i], e)
      invariant t * e - h == |Unstuffed(words[..t], e)|
    {
      var word := words[t];
      if word == 0 || word == mask {
        return Err(ForbiddenWord);
      }
      OneMoreWord(words, e, t);
      if word == 1 || word == mask - 1 {
        h := h + 1;
      }
      assert (t + 1) * e == t * e + e;
    }
    assert words[..|words|] == words;
    return Ok(h);
  }

  lemma NothingUnstuffed(e: nat)
    requires e >= 1
    ensures Unstuffed([], e) == []
  {
  }

  /** Fills in the bits of one word. */
  method FillWord(l: array<bool>, c0: nat, word: nat, e: nat) returns (c: nat)
    requires e >= 2 && Allowed(word, e) && c0 + |UnstuffedWord(word, e)| <= l.Length
    modifies l
    ensures c == c0 + |UnstuffedWord(word, e)|
    ensures l[..c] == old(l[..c0]) + UnstuffedWord(word, e)
  {
    hide Pow2, Digits;
    c := c0;
    ghost var before := l[..c0];
    if word == 1 || word == Pow2(e) - 2 {
      for i := 0 to e - 1
        invariant l[..c0] == before
        invariant forall k :: c0 <= k < c0 + i ==> l[k] == (word > 1)
      {
        l[c0 + i] := word > 1;
      }
      c := c + e - 1;
    } else {
      for i := 0 to e
        invariant c == c0 + i && l[..c0] == before
        invariant forall k :: c0 <= k < c0 + i ==> l[k] == Digits(word, e)[k - c0]
      {
        DigitsAt(word, e, i);
        l[c] := word / Pow2(e - 1 - i) % 2 == 1;
        c := c + 1;
      }
    }
  }

  /** The un-stuffing half of the decoder's bit correction. */
  method UnstuffWords(words: seq<nat>, e: nat) returns (r: Result<seq<bool>, StuffingError>)
    requires e >= 2 && forall t :: 0 <= t < |words| ==> words[t] < Pow2(e)
    ensures r.Ok? <==> forall t :: 0 <= t < |words| ==> Allowed(words[t], e)
    ensures r.Ok? ==> r.value == Unstuffed(words, e)
  {
    hide Pow2, Unstuffed, UnstuffedWord, Allowed;
    var stuffed := CountStuffed(words, e);
    if stuffed.Err? {
      return Err(stuffed.error);
    }
    var l := new bool[|words| * e - stuffed.value];
    var c := 0;
    NothingUnstuffed(e);
    for t := 0 to |words|
      invariant c == |Unstuffed(words[..t], e)| <= l.Length
      invariant l[..c] == Unstuffed(words[..t], e)
    {
      OneMoreWord(words, e, t);
      PrefixShorter(words, e, t + 1);
      c := FillWord(l, c, words[t], e);
    }
    assert words[..|words|] == words && l[..] == l[..l.Length];
    return Ok(l[..]);
  }

  // ---------------------------------------------------------------- the round trip

  function WordNumbers(words: seq<seq<bool>>): (numbers: seq<nat>)
    ensures |numbers| == |words|
  {
    seq(|words|, i requires 0 <= i < |words| => Number(words[i]))
  }

  /** A word as written is allowed, and stands for the bits it was written for. */
  lemma WordRoundTrip(w: seq<bool>)
    requires |w| >= 2
    ensures Allowed(Number(WrittenWord(w)), |w|)
    ensures UnstuffedWord(Number(WrittenWord(w)), |w|) == w[..Taken(w)]
  {
    hide Number, Digits;
    var e := |w|;
    var h, v := w[..e - 1], WrittenWord(w);
    EqualToFirst(h);
    assert Pow2(e) == 2 * Pow2(e - 1) && Pow2(e - 1) == 2 * Pow2(e - 2);
    assert v == h + [v[e - 1]];
    NumberPush(h, v[e - 1]);
    NumberOfEqual(h);
    NumberBound(h);
    DigitsOfNumber(w);
    if AllEqual(h, w[0]) {
      assert h == seq(e - 1, _ => w[0]);
    }
  }

  /** No word is all zeros or all ones, and un-stuffing gives the bits back, followed by fewer ones than a word has bits. */
  lemma StuffingRoundTrip(s: seq<bool>, e: nat)
    requires e >= 2
    ensures var words := WordNumbers(StuffedWords(s, 0, e));
            && (forall i :: 0 <= i < |words| ==> Allowed(words[i], e))
            && exists k :: 0 <= k < e && Unstuffed(words, e) == s + Ones(k)
  {
    var k := RoundTripFrom(s, 0, e, []);
    assert s[..0] + s[0..] == s;
    var words := WordNumbers(StuffedWords(s, 0, e));
    assert [] + words == words;
  }

  lemma {:induction false} RoundTripFrom(s: seq<bool>, at: nat, e: nat, before: seq<nat>) returns (k: nat)
    requires e >= 2 && at < |s| + e
    requires at <= |s| ==> Unstuffed(before, e) == s[..at]
    requires at > |s| ==> Unstuffed(before, e) == s + Ones(at - |s|)
    ensures k < e && Unstuffed(before + WordNumbers(StuffedWords(s, at, e)), e) == s + Ones(k)
    ensures var words := WordNumbers(StuffedWords(s, at, e));
            forall i :: 0 <= i < |words| ==> Allowed(words[i], e)
    decreases |s| - at
  {
    hide Number, Allowed, UnstuffedWord, Unstuffed, Window, WrittenWord, Taken, StuffedWords, WordNumbers;
    var words := WordNumbers(StuffedWords(s, at, e));
    if at >= |s| {
      k := at - |s|;
      NoWords(s, at, e);
      assert before + [] == before;
      assert s[..|s|] == s && s + Ones(0) == s;
    } else {
      var w := Window(s, at, e);
      WordRoundTrip(w);
      StuffedUnfold(s, at, e);
      var next := at + Taken(w);
      var word, rest := Number(WrittenWord(w)), WordNumbers(StuffedWords(s, next, e));
      FirstNumber(WrittenWord(w), StuffedWords(s, next, e));
      LastWord(before, word, e);
      PrefixWindow(s, at, Taken(w), e);
      k := RoundTripFrom(s, next, e, before + [word]);
      assert before + ([word] + rest) == before + [word] + rest;
      AllowedFirst(word, rest, e);
    }
  }

  lemma AllowedFirst(word: nat, rest: seq<nat>, e: nat)
    requires Allowed(word, e) && forall i :: 0 <= i < |rest| ==> Allowed(rest[i], e)
    ensures forall i :: 0 <= i < |[word] + rest| ==> Allowed(([word] + rest)[i], e)
  {
  }

  lemma NoWords(s: seq<bool>, at: nat, e: nat)
    requires e >= 2 && at >= |s|
    ensures WordNumbers(StuffedWords(s, at, e)) == []
  {
  }

  lemma FirstNumber(w: seq<bool>, words: seq<seq<bool>>)
    ensures WordNumbers([w] + words) == [Number(w)] + WordNumbers(words)
  {
  }

  lemma LastWord(before: seq<nat>, word: nat, e: nat)
    requires e >= 1
    ensures Unstuffed(before + [word], e) == Unstuffed(before, e) + UnstuffedWord(word, e)
  {
    assert (before + [word])[..|before|] == before;
  }

  lemma PrefixWindow(s: seq<bool>, at: nat, n: nat, e: nat)
    requires at < |s| && n <= e
    ensures at + n <= |s| ==> s[..at] + Window(s, at, e)[..n] == s[..at + n]
    ensures at + n > |s| ==> s[..at] + Window(s, at, e)[..n] == s + Ones(at + n - |s|)
  {
  }
}
