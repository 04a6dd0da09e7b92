/** The two independently written money formatters of the admin console and the payment page, on integer
    minor units, and what can be read back from their text. */
module MoneyFormat {
  import opened Wrappers

  // ---------------------------------------------------------------- numerals

  function Digit(d: nat): char
    requires d < 10
  {
    '0' + d as char
  }

  predicate IsDigit(c: char) {
    '0' <= c <= '9'
  }

  function DigitValue(c: char): (d: nat)
    requires IsDigit(c)
    ensures d < 10
  {
    c as int - '0' as int
  }

  predicate IsNumeral(s: string) {
    s != "" && forall i :: 0 <= i < |s| ==> IsDigit(s[i])
  }

  /** The decimal numeral of a number. */
  function Decimal(n: nat): (s: string)
    ensures IsNumeral(s)
  {
    if n < 10 then [Digit(n)] else Decimal(n / 10) + [Digit(n % 10)]
  }

  function Value(s: string): nat
    requires forall i :: 0 <= i < |s| ==> IsDigit(s[i])
  {
    if s == "" then 0 else 10 * Value(s[..|s| - 1]) + DigitValue(s[|s| - 1])
  }

  lemma {:induction false} DecimalRoundTrip(n: nat)
    ensures Value(Decimal(n)) == n
  {
    if n >= 10 {
      DecimalRoundTrip(n / 10);
      assert Decimal(n)[..|Decimal(n)| - 1] == Decimal(n / 10);
    } else {
      assert Decimal(n)[..0] == "";
    }
  }

  // ---------------------------------------------------------------- grouping

  /** Groups of three digits from the right, a space between groups. */
  function Grouped(s: string): string {
    if |s| <= 3 then s else Grouped(s[..|s| - 3]) + " " + s[|s| - 3..]
  }

  /** The space in front of a digit, unless it is the first: when the digits still to come fill whole groups. */
  function Separator(first: bool, left: nat): string {
    if !first && left % 3 == 0 then " " else ""
  }

  /** What the loop has written after i digits. */
  function GroupedUpTo(s: string, i: nat): string
    requires i <= |s|
  {
    if i == 0 then "" else GroupedUpTo(s, i - 1) + Separator(i == 1, |s| - (i - 1)) + [s[i - 1]]
  }

  lemma {:induction false} SamePrefix(s: string, i: nat)
    requires |s| > 3 && i <= |s| - 3
    ensures GroupedUpTo(s, i) == GroupedUpTo(s[..|s| - 3], i)
  {
    hide Separator;
    if i > 0 {
      SamePrefix(s, i - 1);
      SameSeparator(i == 1, |s| - 3 - (i - 1));
    }
  }

  lemma SameSeparator(first: bool, left: nat)
    ensures Separator(first, left + 3) == Separator(first, left)
  {
  }

  /** The loop's test on the digits still to come is grouping from the right. */
  lemma {:induction false} LoopGroups(s: string)
    ensures GroupedUpTo(s, |s|) == Grouped(s)
    decreases |s|
  {
    hide GroupedUpTo;
    if |s| > 3 {
      var head := s[..|s| - 3];
      LoopGroups(head);
      SamePrefix(s, |head|);
      LastGroup(s);
    } else {
      ShortGroup(s);
    }
  }

  lemma OneMoreDigit(s: string, i: nat, before: string)
    requires i < |s| && GroupedUpTo(s, i) == before
    ensures GroupedUpTo(s, i + 1) == before + Separator(i == 0, |s| - i) + [s[i]]
  {
  }

  lemma Separators()
    ensures Separator(false, 3) == " " && Separator(false, 2) == "" && Separator(false, 1) == ""
    ensures forall left: nat :: Separator(true, left) == ""
  {
  }

  lemma LastGroup(s: string)
    requires |s| > 3
    ensures GroupedUpTo(s, |s|) == GroupedUpTo(s, |s| - 3) + " " + s[|s| - 3..]
  {
    hide GroupedUpTo, Separator;
    var n := |s|;
    Separators();
    var before := GroupedUpTo(s, n - 3) + " ";
    FirstInGroup(s, n - 3);
    InsideGroup(s, before, n - 3, n - 2);
    InsideGroup(s, before, n - 3, n - 1);
    assert s[n - 3..n] == s[n - 3..];
  }

  lemma FirstInGroup(s: string, i: nat)
    requires 0 < i < |s| && Separator(false, |s| - i) == " "
    ensures GroupedUpTo(s, i + 1) == GroupedUpTo(s, i) + " " + s[i..i + 1]
  {
    hide *;
    OneMoreDigit(s, i, GroupedUpTo(s, i));
    assert s[i..i + 1] == [s[i]];
  }

  lemma InsideGroup(s: string, before: string, from: nat, i: nat)
    requires 0 < from <= i < |s| && Separator(false, |s| - i) == "" && GroupedUpTo(s, i) == before + s[from..i]
    ensures GroupedUpTo(s, i + 1) == before + s[from..i + 1]
  {
    hide *;
    OneMoreDigit(s, i, before + s[from..i]);
    assert s[from..i + 1] == s[from..i] + [s[i]];
    assert before + s[from..i] + "" + [s[i]] == before + (s[from..i] + [s[i]]);
  }

  lemma ShortGroup(s: string)
    requires |s| <= 3
    ensures GroupedUpTo(s, |s|) == s
  {
    hide GroupedUpTo, Separator;
    Separators();
    NothingGrouped(s);
    if |s| >= 1 {
      OneMoreDigit(s, 0, "");
      assert "" + "" + [s[0]] == s[..1];
    }
    if |s| >= 2 {
      OneMoreDigit(s, 1, s[..1]);
      assert |s| == 2 ==> s[..1] + "" + [s[1]] == s;
      assert |s| == 3 ==> s[..1] + "" + [s[1]] == s[..2];
    }
    if |s| == 3 {
      OneMoreDigit(s, 2, s[..2]);
      assert s[..2] + "" + [s[2]] == s;
    }
  }

  lemma NothingGrouped(s: string)
    ensures GroupedUpTo(s, 0) == ""
  {
  }

  /** The place of a space: a multiple of four characters from the right end. */
  predicate Fourth(left: int) {
    left % 4 == 0
  }

  lemma FourthAgain(left: int)
    ensures Fourth(left + 4) == Fourth(left)
    ensures Fourth(4) && !Fourth(3) && !Fourth(2) && !Fourth(1)
  {
  }

  /** Spaces are at the fourth places from the right and nowhere else, and not in front. */
  predicate SpacedRight(t: string) {
    (forall i :: 0 <= i < |t| ==> (t[i] == ' ' <==> Fourth(|t| - i))) && (t != "" ==> t[0] != ' ')
  }

  /** Exactly every fourth character from the right is a space: every group but the first has three digits, and the
      first has at least one. */
  lemma {:induction false} SpacesEveryFourth(s: string)
    requires forall i :: 0 <= i < |s| ==> s[i] != ' '
    ensures SpacedRight(Grouped(s))
    decreases |s|
  {
    hide Fourth, SpacedRight;
    if |s| > 3 {
      SpacesEveryFourth(s[..|s| - 3]);
      NotEmpty(s[..|s| - 3]);
      hide Grouped;
      GroupOnce(s);
      OneGroupMore(Grouped(s[..|s| - 3]), s[|s| - 3..]);
    } else {
      OneGroup(s);
    }
  }

  lemma NotEmpty(s: string)
    requires s != ""
    ensures Grouped(s) != ""
  {
  }

  lemma OneGroup(s: string)
    requires |s| <= 3 && forall i :: 0 <= i < |s| ==> s[i] != ' '
    ensures SpacedRight(s)
  {
    hide Fourth;
    FourthAgain(0);
  }

  lemma OneGroupMore(head: string, last: string)
    requires SpacedRight(head) && head != "" && |last| == 3 && forall i :: 0 <= i < 3 ==> last[i] != ' '
    ensures SpacedRight(head + " " + last)
  {
    hide Fourth;
    FourthAgain(0);
    var t := head + " " + last;
    forall i | 0 <= i < |t| ensures t[i] == ' ' <==> Fourth(|t| - i) {
      if i < |head| {
        FourthAgain(|head| - i);
        assert t[i] == head[i];
      } else if i > |head| {
        assert t[i] == last[i - |head| - 1];
      }
    }
    assert t[0] == head[0];
  }

  /** A text without its spaces. */
  function Unspaced(t: string): string {
    if t == "" then "" else Unspaced(t[..|t| - 1]) + if t[|t| - 1] == ' ' then "" else [t[|t| - 1]]
  }

  lemma {:induction false} UnspacedAppend(t: string, u: string)
    ensures Unspaced(t + u) == Unspaced(t) + Unspaced(u)
    decreases |u|
  {
    if u == "" {
      assert t + u == t;
    } else {
      assert (t + u)[..|t + u| - 1] == t + u[..|u| - 1];
      UnspacedAppend(t, u[..|u| - 1]);
    }
  }

  lemma {:induction false} UnspacedPlain(s: string)
    requires forall i :: 0 <= i < |s| ==> s[i] != ' '
    ensures Unspaced(s) == s
    decreases |s|
  {
    if s != "" {
      UnspacedPlain(s[..|s| - 1]);
    }
  }

  /** Taking the spaces out gives the digits back. */
  lemma {:induction false} Ungrouped(s: string)
    requires forall i :: 0 <= i < |s| ==> s[i] != ' '
    ensures Unspaced(Grouped(s)) == s
    decreases |s|
  {
    hide Unspaced;
    if |s| > 3 {
      var head, tail := s[..|s| - 3], s[|s| - 3..];
      Ungrouped(head);
      UnspacedPlain(tail);
      OneSpace(Grouped(head), tail);
      assert head + tail == s;
    } else {
      UnspacedPlain(s);
    }
  }

  lemma OneSpace(t: string, u: string)
    ensures Unspaced(t + " " + u) == Unspaced(t) + Unspaced(u)
  {
    UnspacedAppend(t + " ", u);
    assert (t + " ")[..|t|] == t;
    assert Unspaced(t) + "" == Unspaced(t);
  }

  // ---------------------------------------------------------------- the two formatters

  function Abs(n: int): nat {
    if n < 0 then -n else n
  }

  /** A number below 100 padded to two digits. */
  function Padded(frac: nat): string {
    if frac < 10 then "0" + Decimal(frac) else Decimal(frac)
  }

  /** The hundredths behind a comma, if there are any. */
  function Hundredths(frac: nat): string {
    if frac != 0 then "," + Padded(frac) else ""
  }

  /** The text of an amount: sign, grouped units, and hundredths only when there are any. */
  function AmountText(amount: int): string {
    var abs := Abs(amount);
    (if amount < 0 then "-" else "") + Grouped(Decimal(abs / 100)) + Hundredths(abs % 100)
  }

  /** The currency word behind an amount; `upper` is the host's upper-casing. */
  function CurrencyWord(currency: string, upper: string -> string): string {
    var ccy := upper(if currency == "" then "AOA" else currency);
    if ccy == "AOA" then "Kz" else ccy
  }

  function MoneyText(amount: int, currency: string, upper: string -> string): string {
    AmountText(amount) + " " + CurrencyWord(currency, upper)
  }

  /** The payment page's grouping loop. */
  method PayGroupThousands(n: int) returns (out: string)
    ensures out == Grouped(Decimal(Abs(n)))
  {
    var s := Decimal(Abs(n));
    out := "";
    for i := 0 to |s|
      invariant out == GroupedUpTo(s, i)
    {
      OneMoreDigit(s, i, out);
      if i > 0 && (|s| - i) % 3 == 0 {
        out := out + " ";
      }
      out := out + [s[i]];
    }
    LoopGroups(s);
  }

  lemma AmountTextIs(amount: int, out: string)
    requires out == Grouped(Decimal(Abs(amount) / 100)) + Hundredths(Abs(amount) % 100)
    ensures (if amount < 0 then "-" + out else out) == AmountText(amount)
  {
    hide Decimal, Grouped, Hundredths;
    assert "" + out == out;
  }

  lemma NoHundredths(out: string, frac: nat)
    ensures (if frac != 0 then out + ("," + Padded(frac)) else out) == out + Hundredths(frac)
  {
    hide Padded;
    assert out + "" == out;
  }

  method FormatMoneyDisplay(amountMinor: int, currency: string, upper: string -> string) returns (text: string)
    ensures text == MoneyText(amountMinor, currency, upper)
  {
    hide Decimal, Grouped, Padded, Hundredths, AmountText;
    var ccy := upper(if currency == "" then "AOA" else currency);
    var abs := Abs(amountMinor);
    var major := abs / 100;
    var frac := abs % 100;
    var out := PayGroupThousands(major);
    NoHundredths(out, frac);
    if frac != 0 {
      out := out + ("," + Padded(frac));
    }
    AmountTextIs(amountMinor, out);
    if amountMinor < 0 {
      out := "-" + out;
    }
    return out + " " + (if ccy == "AOA" then "Kz" else ccy);
  }

  /** The console's grouping loop, which keeps a sign of its own. */
  method AdminGroupThousands(n: int) returns (out: string)
    ensures out == (if n < 0 then "-" else "") + Grouped(Decimal(Abs(n)))
  {
    var neg := n < 0;
    var s := Decimal(Abs(n));
    out := "";
    for i := 0 to |s|
      invariant out == GroupedUpTo(s, i)
    {
      OneMoreDigit(s, i, out);
      if i > 0 && (|s| - i) % 3 == 0 {
        out := out + " ";
      }
      out := out + [s[i]];
    }
    LoopGroups(s);
    out := (if neg then "-" else "") + out;
  }

  const DASH: string := "\U{2014}"

  method FormatAmountMinor(amountMinor: Option<int>) returns (text: string)
    ensures text == if amountMinor == None then DASH else AmountText(amountMinor.value)
  {
    if amountMinor == None {
      return DASH;
    }
    hide Decimal, Grouped, Padded, Hundredths, AmountText;
    var abs := Abs(amountMinor.value);
    var major := abs / 100;
    var frac := abs % 100;
    var out := AdminGroupThousands(major);
    assert "" + Grouped(Decimal(major)) == Grouped(Decimal(major));
    NoHundredths(out, frac);
    if frac != 0 {
      out := out + ("," + Padded(frac));
    }
    AmountTextIs(amountMinor.value, out);
    return if amountMinor.value < 0 then "-" + out else out;
  }

  /** A missing currency is the empty one. */
  method FormatMoney(amountMinor: Option<int>, currency: Option<string>, upper: string -> string) returns (text: string)
    ensures text == if amountMinor == None then DASH
                    else MoneyText(amountMinor.value, if currency == None then "" else currency.value, upper)
  {
    if amountMinor == None {
      return DASH;
    }
    var c := if currency == None then "" else currency.value;
    var ccy := upper(if c == "" then "AOA" else c);
    var amount := FormatAmountMinor(amountMinor);
    return amount + " " + (if ccy == "AOA" then "Kz" else ccy);
  }

  // ---------------------------------------------------------------- reading back

  function IndexOfComma(s: string): (k: nat)
    ensures k <= |s| && (forall i :: 0 <= i < k ==> s[i] != ',') && (k < |s| ==> s[k] == ',')
  {
    if s == "" || s[0] == ',' then 0 else 1 + IndexOfComma(s[1..])
  }

  /** The number written in the digits of a text; other characters do not count. */
  function ReadDigits(s: string): nat {
    if s == "" then 0
    else if IsDigit(s[|s| - 1]) then 10 * ReadDigits(s[..|s| - 1]) + DigitValue(s[|s| - 1])
    else ReadDigits(s[..|s| - 1])
  }

  /** Units before the comma, hundredths behind it, negative behind a minus sign. */
  function ReadAmount(text: string): int {
    var neg := text != "" && text[0] == '-';
    var body := Unspaced(if neg then text[1..] else text);
    var k := IndexOfComma(body);
    var abs := 100 * ReadDigits(body[..k]) + if k < |body| then ReadDigits(body[k + 1..]) else 0;
    if neg then -abs else abs
  }

  lemma {:induction false} ReadNumeral(s: string)
    requires forall i :: 0 <= i < |s| ==> IsDigit(s[i])
    ensures ReadDigits(s) == Value(s)
    decreases |s|
  {
    if s != "" {
      ReadNumeral(s[..|s| - 1]);
    }
  }

  lemma PaddedValue(frac: nat)
    requires frac < 100
    ensures |Padded(frac)| == 2 && IsNumeral(Padded(frac)) && Value(Padded(frac)) == frac
  {
    DecimalRoundTrip(frac);
    if frac < 10 {
      var p := "0" + Decimal(frac);
      assert p[..1] == "0" && "0"[..0] == "";
    } else {
      assert Decimal(frac) == [Digit(frac / 10)] + [Digit(frac % 10)];
    }
  }

  /** The part behind the sign, without its spaces. */
  lemma BodyUnspaced(abs: nat)
    ensures var tail := Hundredths(abs % 100);
            Unspaced(Grouped(Decimal(abs / 100)) + tail) == Decimal(abs / 100) + tail
  {
    hide Decimal, Grouped, Padded;
    var s := Decimal(abs / 100);
    assert |Padded(abs % 100)| >= 0;
    var tail := Hundredths(abs % 100);
    PaddedValue(abs % 100);
    Ungrouped(s);
    UnspacedPlain(tail);
    UnspacedAppend(Grouped(s), tail);
  }

  lemma {:induction false} CommaBehind(s: string, tail: string)
    requires (forall i :: 0 <= i < |s| ==> s[i] != ',') && (tail != "" ==> tail[0] == ',')
    ensures IndexOfComma(s + tail) == |s|
    decreases |s|
  {
    if s == "" {
      assert s + tail == tail;
    } else {
      assert (s + tail)[1..] == s[1..] + tail;
      CommaBehind(s[1..], tail);
    }
  }

  lemma ReadBody(abs: nat)
    ensures var body := Decimal(abs / 100) + Hundredths(abs % 100);
            var k := IndexOfComma(body);
            100 * ReadDigits(body[..k]) + (if k < |body| then ReadDigits(body[k + 1..]) else 0) == abs
  {
    hide Decimal, Padded, ReadDigits, IndexOfComma;
    var s, tail := Decimal(abs / 100), Hundredths(abs % 100);
    PaddedValue(abs % 100);
    DecimalRoundTrip(abs / 100);
    ReadNumeral(s);
    ReadNumeral(Padded(abs % 100));
    CommaBehind(s, tail);
    assert (s + tail)[..|s|] == s;
    assert tail != "" ==> (s + tail)[|s| + 1..] == tail[1..] == Padded(abs % 100);
  }

  lemma FirstOfGrouped(s: string)
    requires IsNumeral(s)
    ensures Grouped(s) != "" && IsDigit(Grouped(s)[0])
  {
    if |s| > 3 {
      FirstOfGrouped(s[..|s| - 3]);
    }
  }

  /** Every integer amount is read back from its text. */
  lemma AmountRoundTrip(amount: int)
    ensures ReadAmount(AmountText(amount)) == amount
  {
    hide Decimal, Grouped, Hundredths, Unspaced, ReadDigits, IndexOfComma;
    var abs := Abs(amount);
    var text, rest := AmountText(amount), Grouped(Decimal(abs / 100)) + Hundredths(abs % 100);
    FirstOfGrouped(Decimal(abs / 100));
    BodyUnspaced(abs);
    ReadBody(abs);
    if amount < 0 {
      assert text == "-" + rest;
      assert text[0] == '-' && text[1..] == rest;
    } else {
      assert text == rest;
      assert rest[0] == Grouped(Decimal(abs / 100))[0];
    }
  }

  /** For a fixed currency no two amounts print the same. */
  lemma MoneyInjective(a: int, b: int, currency: string, upper: string -> string)
    requires MoneyText(a, currency, upper) == MoneyText(b, currency, upper)
    ensures a == b
  {
    hide AmountText, CurrencyWord;
    var word := " " + CurrencyWord(currency, upper);
    var t, u := AmountText(a), AmountText(b);
    assert MoneyText(a, currency, upper) == t + word && MoneyText(b, currency, upper) == u + word;
    assert |t| == |u|;
    assert t == (t + word)[..|t|] && u == (u + word)[..|u|];
    AmountRoundTrip(a);
    AmountRoundTrip(b);
  }

  /** The console's dash is the text of no amount. */
  lemma DashIsNoAmount(amount: int)
    ensures AmountText(amount) != DASH
  {
    hide Decimal, Grouped, Hundredths;
    var digits := Grouped(Decimal(Abs(amount) / 100));
    FirstOfGrouped(Decimal(Abs(amount) / 100));
    if amount < 0 {
      assert AmountText(amount)[0] == '-';
    } else {
      assert AmountText(amount)[0] == digits[0];
    }
  }

  /** The examples that the source documents. */
  lemma DocumentedTexts(upper: string -> string)
    requires upper("AOA") == "AOA" && upper("usd") == "USD"
    ensures MoneyText(5000000, "AOA", upper) == "50 000 Kz" && MoneyText(1050, "", upper) == "10,50 Kz"
    ensures MoneyText(1, "AOA", upper) == "0,01 Kz" && MoneyText(0, "AOA", upper) == "0 Kz"
    ensures MoneyText(-425000050, "usd", upper) == "-4 250 000,50 USD"
  {
    hide AmountText;
    AmountTexts();
    assert "USD"[0] != "AOA"[0];
  }

  lemma AmountTexts()
    ensures AmountText(5000000) == "50 000" && AmountText(1050) == "10,50" && AmountText(1) == "0,01" && AmountText(0) == "0"
    ensures AmountText(-425000050) == "-4 250 000,50"
  {
    hide Decimal, Grouped;
    Decimals();
    GroupedTexts();
  }

  lemma GroupedTexts()
    ensures Grouped("50000") == "50 000" && Grouped("4250000") == "4 250 000" && Grouped("10") == "10" && Grouped("0") == "0"
  {
    GroupOnce("50000");
    GroupOnce("4250000");
    GroupOnce("4250");
    ShortTexts();
    hide Grouped;
    assert "50000"[..2] == "50" && "50000"[2..] == "000" && "4250000"[..4] == "4250" && "4250000"[4..] == "000";
    assert "4250"[..1] == "4" && "4250"[1..] == "250";
  }

  lemma ShortTexts()
    ensures Grouped("50") == "50" && Grouped("4") == "4" && Grouped("10") == "10" && Grouped("0") == "0"
  {
  }

  lemma Decimals()
    ensures Decimal(0) == "0" && Decimal(1) == "1" && Decimal(10) == "10" && Decimal(50) == "50"
    ensures Decimal(50000) == "50000" && Decimal(4250000) == "4250000"
  {
    assert Decimal(5) == "5" && Decimal(50) == "50" && Decimal(500) == "500" && Decimal(5000) == "5000";
    assert Decimal(4) == "4" && Decimal(42) == "42" && Decimal(425) == "425" && Decimal(4250) == "4250";
    assert Decimal(42500) == "42500" && Decimal(425000) == "425000";
  }

  lemma GroupOnce(s: string)
    requires |s| > 3
    ensures Grouped(s) == Grouped(s[..|s| - 3]) + " " + s[|s| - 3..]
  {
  }

  // ---------------------------------------------------------------- totals

  /** An item as the two accessors show it. */
  datatype Item = Item(amount: Option<int>, currency: Option<string>)

  function CurrencyOf(it: Item, upper: string -> string): string {
    upper(if it.currency == None || it.currency.value == "" then "AOA" else it.currency.value)
  }

  /** The amounts of one currency added up. */
  function TotalIn(items: seq<Item>, c: string, upper: string -> string): int {
    if items == [] then 0
    else
      var last := items[|items| - 1];
      TotalIn(items[..|items| - 1], c, upper) +
      if last.amount.Some? && CurrencyOf(last, upper) == c then last.amount.value else 0
  }

  ghost predicate Occurs(items: seq<Item>, c: string, upper: string -> string) {
    exists i :: 0 <= i < |items| && items[i].amount.Some? && CurrencyOf(items[i], upper) == c
  }

  /** One total per currency that has an amount, and no amount counted under another currency. */
  method TotalsByCurrency(items: seq<Item>, upper: string -> string) returns (out: map<string, int>)
    ensures forall c :: c in out <==> Occurs(items, c, upper)
    ensures forall c :: c in out ==> out[c] == TotalIn(items, c, upper)
  {
    hide Occurs, TotalIn, CurrencyOf;
    out := map[];
    NothingOccurs(upper);
    for i := 0 to |items|
      invariant Totals(out, items[..i], upper)
    {
      var it := items[i];
      assert items[..i + 1] == items[..i] + [it];
      ghost var before := out;
      if it.amount == None {
        AddedItem(before, items[..i], it, upper);
        continue;
      }
      var c := CurrencyOf(it, upper);
      out := out[c := (if c in out then out[c] else 0) + it.amount.value];
      AddedItem(before, items[..i], it, upper);
    }
    assert items[..|items|] == items;
  }

  ghost predicate Totals(out: map<string, int>, items: seq<Item>, upper: string -> string) {
    && (forall c :: c in out <==> Occurs(items, c, upper))
    && (forall c :: c in out ==> out[c] == TotalIn(items, c, upper))
    && (forall c :: c !in out ==> TotalIn(items, c, upper) == 0)
  }

  lemma NothingOccurs(upper: string -> string)
    ensures Totals(map[], [], upper)
  {
  }

  lemma AddedItem(out: map<string, int>, items: seq<Item>, it: Item, upper: string -> string)
    requires Totals(out, items, upper)
    ensures var c := CurrencyOf(it, upper);
            Totals(if it.amount == None then out else out[c := (if c in out then out[c] else 0) + it.amount.value], items + [it], upper)
  {
    hide Occurs, CurrencyOf;
    forall c ensures Occurs(items + [it], c, upper) <==> Occurs(items, c, upper) || (it.amount.Some? && CurrencyOf(it, upper) == c) {
      OccursOneMore(items, it, c, upper);
    }
    assert (items + [it])[..|items|] == items;
  }

  lemma OccursOneMore(items: seq<Item>, it: Item, c: string, upper: string -> string)
    ensures Occurs(items + [it], c, upper) <==> Occurs(items, c, upper) || (it.amount.Some? && CurrencyOf(it, upper) == c)
  {
    var all := items + [it];
    if Occurs(items, c, upper) {
      var i :| 0 <= i < |items| && items[i].amount.Some? && CurrencyOf(items[i], upper) == c;
      assert all[i] == items[i];
    }
    assert all[|items|] == it;
  }

  /** An amount is totalled under the currency whose word it is printed with. */
  lemma SameCurrency(it: Item, upper: string -> string)
    ensures var c := CurrencyOf(it, upper);
            CurrencyWord(if it.currency == None then "" else it.currency.value, upper) == if c == "AOA" then "Kz" else c
  {
  }

  /** All the amounts, whatever their currency. */
  function Total(items: seq<Item>): int {
    if items == [] then 0
    else Total(items[..|items| - 1]) + if items[|items| - 1].amount.Some? then items[|items| - 1].amount.value else 0
  }

  function TotalOver(items: seq<Item>, currencies: seq<string>, upper: string -> string): int {
    if currencies == [] then 0 else TotalIn(items, currencies[0], upper) + TotalOver(items, currencies[1..], upper)
  }

  /** Nothing is lost or counted twice: the totals of all the currencies that occur add up to all the amounts. */
  lemma {:induction false} TotalsConserve(items: seq<Item>, currencies: seq<string>, upper: string -> string)
    requires forall i, j :: 0 <= i < j < |currencies| ==> currencies[i] != currencies[j]
    requires forall i :: 0 <= i < |items| && items[i].amount.Some? ==> CurrencyOf(items[i], upper) in currencies
    ensures TotalOver(items, currencies, upper) == Total(items)
    decreases |items|
  {
    if items == [] {
      NothingTotals(currencies, upper);
    } else {
      var init, last := items[..|items| - 1], items[|items| - 1];
      TotalsConserve(init, currencies, upper);
      OneMoreItem(init, last, currencies, upper);
      assert init + [last] == items;
    }
  }

  lemma {:induction false} NothingTotals(currencies: seq<string>, upper: string -> string)
    ensures TotalOver([], currencies, upper) == 0
    decreases |currencies|
  {
    if currencies != [] {
      NothingTotals(currencies[1..], upper);
    }
  }

  lemma {:induction false} OneMoreItem(items: seq<Item>, it: Item, currencies: seq<string>, upper: string -> string)
    requires forall i, j :: 0 <= i < j < |currencies| ==> currencies[i] != currencies[j]
    ensures TotalOver(items + [it], currencies, upper) == TotalOver(items, currencies, upper) +
              if it.amount.Some? && CurrencyOf(it, upper) in currencies then it.amount.value else 0
    decreases |currencies|
  {
    if currencies != [] {
      OneMoreItem(items, it, currencies[1..], upper);
      assert (items + [it])[..|items|] == items;
      assert currencies == [currencies[0]] + currencies[1..];
    }
  }
}
