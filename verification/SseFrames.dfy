/** The incremental parser of server-sent event frames on the hosted payment page. */
module SseFrames {
  import opened WhiteSpace
  import opened Wrappers

  /** The frame the page sees: last event name, data lines joined, last usable retry. */
  datatype Frame = Frame(event: string, data: string, retry: Option<real>)

  // ---------------------------------------------------------------- separators

  const BREAK: string := "\n\n"

  /** A blank line starts at i. */
  predicate BreakAt(s: string, i: int) {
    0 <= i && i + 2 <= |s| && s[i] == '\n' && s[i + 1] == '\n'
  }

  predicate NoBreak(s: string) {
    forall i :: 0 <= i < |s| ==> !BreakAt(s, i)
  }

  /** The first blank line from `from` on, or -1. */
  function IndexOfBreak(s: string, from: nat): (cut: int)
    ensures cut == -1 || (from <= cut && cut + 2 <= |s| && BreakAt(s, cut))
    ensures cut == -1 ==> forall i :: from <= i ==> !BreakAt(s, i)
    ensures cut >= 0 ==> forall i :: from <= i < cut ==> !BreakAt(s, i)
    decreases |s| - from
  {
    if from + 2 > |s| then -1 else if BreakAt(s, from) then from else IndexOfBreak(s, from + 1)
  }

  /** The text in front of every blank line, and what is left behind the last. */
  function Raws(s: string): seq<string>
    decreases |s|
  {
    var cut := IndexOfBreak(s, 0);
    if cut < 0 then [] else [s[..cut]] + Raws(s[cut + 2..])
  }

  function Rest(s: string): string
    decreases |s|
  {
    var cut := IndexOfBreak(s, 0);
    if cut < 0 then s else Rest(s[cut + 2..])
  }

  /** Raw frames written one after another, each followed by a blank line. */
  function Written(raws: seq<string>): string {
    if raws == [] then "" else raws[0] + BREAK + Written(raws[1..])
  }

  /** A raw frame that ends where its blank line starts: not even its own last newline makes an earlier one. */
  predicate IsRaw(raw: string) {
    NoBreak(raw + "\n")
  }

  lemma FirstBreak(raw: string, tail: string)
    requires IsRaw(raw)
    ensures IndexOfBreak(raw + BREAK + tail, 0) == |raw|
  {
    var s := raw + BREAK + tail;
    assert BreakAt(s, |raw|);
    forall i | 0 <= i < |raw| ensures !BreakAt(s, i) {
      assert !BreakAt(raw + "\n", i);
      assert s[i] == (raw + "\n")[i] && s[i + 1] == (raw + "\n")[i + 1];
    }
  }

  lemma CutIsRaw(s: string)
    requires IndexOfBreak(s, 0) >= 0
    ensures var cut := IndexOfBreak(s, 0);
            && IsRaw(s[..cut]) && s == s[..cut] + BREAK + s[cut + 2..]
  {
    var cut := IndexOfBreak(s, 0);
    forall i | 0 <= i < |s[..cut] + "\n"| ensures !BreakAt(s[..cut] + "\n", i) {
      if i < cut {
        assert !BreakAt(s, i);
      }
    }
  }

  lemma RawsUnfold(s: string)
    ensures var cut := IndexOfBreak(s, 0);
            if cut < 0 then Raws(s) == [] && Rest(s) == s && NoBreak(s)
            else Raws(s) == [s[..cut]] + Raws(s[cut + 2..]) && Rest(s) == Rest(s[cut + 2..])
  {
  }

  /** Frames, separators and rest rebuild the input, and the rest holds no separator. */
  lemma {:induction false} Rebuild(s: string)
    ensures Written(Raws(s)) + Rest(s) == s
    ensures NoBreak(Rest(s)) && forall i :: 0 <= i < |Raws(s)| ==> IsRaw(Raws(s)[i])
    decreases |s|
  {
    hide IsRaw, NoBreak, BreakAt, Raws, Rest;
    var cut := IndexOfBreak(s, 0);
    RawsUnfold(s);
    if cut >= 0 {
      CutIsRaw(s);
      var head, tail := s[..cut], s[cut + 2..];
      Rebuild(tail);
      WrittenFirst(head, Raws(tail), Rest(tail));
    }
  }

  lemma WrittenFirst(head: string, raws: seq<string>, rest: string)
    ensures Written([head] + raws) + rest == head + BREAK + (Written(raws) + rest)
  {
    assert ([head] + raws)[1..] == raws;
  }

  /** There is no other way to split a text like that. */
  lemma {:induction false} SplitUnique(raws: seq<string>, rest: string)
    requires NoBreak(rest) && forall i :: 0 <= i < |raws| ==> IsRaw(raws[i])
    ensures Raws(Written(raws) + rest) == raws && Rest(Written(raws) + rest) == rest
    decreases |raws|
  {
    hide IsRaw;
    if raws == [] {
      assert Written(raws) + rest == rest;
    } else {
      var tail := Written(raws[1..]) + rest;
      assert Written(raws) + rest == raws[0] + BREAK + tail;
      FirstBreak(raws[0], tail);
      SplitUnique(raws[1..], rest);
      assert (raws[0] + BREAK + tail)[|raws[0]| + 2..] == tail;
      assert (raws[0] + BREAK + tail)[..|raws[0]|] == raws[0];
    }
  }

  /** Parsing in two pieces, carrying the rest over, is parsing the whole. */
  lemma {:induction false} TwoChunks(a: string, b: string)
    ensures Raws(a + b) == Raws(a) + Raws(Rest(a) + b)
    ensures Rest(a + b) == Rest(Rest(a) + b)
    decreases |a|
  {
    var cut := IndexOfBreak(a, 0);
    if cut >= 0 {
      CutIsRaw(a);
      var tail := a[cut + 2..];
      assert a + b == a[..cut] + BREAK + (tail + b);
      FirstBreak(a[..cut], tail + b);
      assert (a + b)[..cut] == a[..cut] && (a + b)[cut + 2..] == tail + b;
      TwoChunks(tail, b);
    }
  }

  function Concat(chunks: seq<string>): string {
    if chunks == [] then "" else Concat(chunks[..|chunks| - 1]) + chunks[|chunks| - 1]
  }

  /** What is left, and the frames seen, after feeding the chunks one at a time. */
  function Carried(chunks: seq<string>): string {
    if chunks == [] then "" else Rest(Carried(chunks[..|chunks| - 1]) + chunks[|chunks| - 1])
  }

  function Seen(chunks: seq<string>): seq<string> {
    if chunks == [] then []
    else Seen(chunks[..|chunks| - 1]) + Raws(Carried(chunks[..|chunks| - 1]) + chunks[|chunks| - 1])
  }

  /** However a stream is cut into chunks, the frames and the final rest are those of the whole stream. */
  lemma {:induction false} ChunkInvariance(chunks: seq<string>)
    ensures Seen(chunks) == Raws(Concat(chunks)) && Carried(chunks) == Rest(Concat(chunks))
    decreases |chunks|
  {
    if chunks != [] {
      var before := chunks[..|chunks| - 1];
      ChunkInvariance(before);
      TwoChunks(Concat(before), chunks[|chunks| - 1]);
    }
  }

  // ---------------------------------------------------------------- one frame

  predicate StartsWith(s: string, prefix: string) {
    |prefix| <= |s| && s[..|prefix|] == prefix
  }

  /** The pieces between newlines; a text without any is one piece. */
  function Lines(s: string): (lines: seq<string>)
    ensures |lines| >= 1
  {
    if s == "" then [""]
    else
      var before := Lines(s[..|s| - 1]);
      if s[|s| - 1] == '\n' then before + [""]
      else before[..|before| - 1] + [before[|before| - 1] + [s[|s| - 1]]]
  }

  /** The pieces with newlines between them. */
  function Joined(lines: seq<string>): string {
    if lines == [] then ""
    else if |lines| == 1 then lines[0]
    else Joined(lines[..|lines| - 1]) + "\n" + lines[|lines| - 1]
  }

  lemma LinesOfEmpty()
    ensures Lines("") == [""]
  {
  }

  /** One more character: a newline starts a line, any other ends up on the last. */
  lemma LinesPush(t: string, c: char)
    ensures var before := Lines(t);
            Lines(t + [c]) == if c == '\n' then before + [""] else before[..|before| - 1] + [before[|before| - 1] + [c]]
  {
    assert (t + [c])[..|t|] == t;
  }

  lemma JoinedOne(line: string)
    ensures Joined([line]) == line
  {
  }

  lemma JoinedPush(lines: seq<string>, last: string)
    requires lines != []
    ensures Joined(lines + [last]) == Joined(lines) + "\n" + last
  {
    assert (lines + [last])[..|lines|] == lines;
  }

  /** A character on the last line is a character at the end of the text. */
  lemma JoinedExtends(lines: seq<string>, last: string, c: char)
    ensures Joined(lines + [last + [c]]) == Joined(lines + [last]) + [c]
  {
    hide Joined;
    if lines == [] {
      assert [] + [last + [c]] == [last + [c]] && [] + [last] == [last];
      JoinedOne(last);
      JoinedOne(last + [c]);
    } else {
      JoinedPush(lines, last);
      JoinedPush(lines, last + [c]);
      assert Joined(lines) + "\n" + (last + [c]) == Joined(lines) + "\n" + last + [c];
    }
  }

  lemma {:induction false} LinesJoined(s: string)
    ensures Joined(Lines(s)) == s
    ensures forall i :: 0 <= i < |Lines(s)| ==> '\n' !in Lines(s)[i]
    decreases |s|
  {
    hide Lines, Joined;
    if s == "" {
      LinesOfEmpty();
      JoinedOne("");
    } else {
      var t, c := s[..|s| - 1], s[|s| - 1];
      LinesJoined(t);
      LinesPush(t, c);
      assert s == t + [c];
      var before := Lines(t);
      if c == '\n' {
        JoinedPush(before, "");
      } else {
        var init, last := before[..|before| - 1], before[|before| - 1];
        assert init + [last] == before;
        JoinedExtends(init, last, c);
      }
    }
  }

  lemma {:induction false} JoinedLines(lines: seq<string>)
    requires |lines| >= 1 && forall i :: 0 <= i < |lines| ==> '\n' !in lines[i]
    ensures Lines(Joined(lines)) == lines
    decreases |lines|
  {
    hide Lines, Joined;
    var init, last := lines[..|lines| - 1], lines[|lines| - 1];
    assert lines == init + [last];
    LinesOfEmpty();
    if init == [] {
      JoinedOne(last);
      LastLine("", [], last);
      assert "" + last == last;
    } else {
      JoinedLines(init);
      JoinedPush(init, last);
      LinesPush(Joined(init), '\n');
      LastLine(Joined(init) + "\n", init, last);
    }
  }

  lemma {:induction false} LastLine(t: string, lines: seq<string>, l: string)
    requires '\n' !in l && Lines(t) == lines + [""]
    ensures Lines(t + l) == lines + [l]
    decreases |l|
  {
    hide Lines;
    if l == "" {
      assert t + l == t;
    } else {
      var k, c := l[..|l| - 1], l[|l| - 1];
      assert k + [c] == l && t + l == t + k + [c];
      LastLine(t, lines, k);
      LinesPush(t + k, c);
    }
  }

  /** What a frame's lines have set so far. */
  datatype Fields = Fields(event: string, data: seq<string>, retry: Option<real>)

  /** The effect of one line; `number` reads a numeral and gives None for what is not one, or zero. */
  function LineApplied(f: Fields, line: string, number: string -> Option<real>): Fields {
    if StartsWith(line, ":") then f
    else if StartsWith(line, "retry:") then f.(retry := number(Trim(line[6..])))
    else if StartsWith(line, "event:") then f.(event := Trim(line[6..]))
    else if StartsWith(line, "data:") then f.(data := f.data + [TrimStart(line[5..])])
    else f
  }

  function LinesApplied(lines: seq<string>, number: string -> Option<real>): Fields {
    if lines == [] then Fields("message", [], None)
    else LineApplied(LinesApplied(lines[..|lines| - 1], number), lines[|lines| - 1], number)
  }

  function FrameOf(raw: string, number: string -> Option<real>): Frame {
    var f := LinesApplied(Lines(raw), number);
    Frame(f.event, Joined(f.data), f.retry)
  }

  function FramesOf(raws: seq<string>, number: string -> Option<real>): (frames: seq<Frame>)
    ensures |frames| == |raws|
  {
    seq(|raws|, i requires 0 <= i < |raws| => FrameOf(raws[i], number))
  }

  method ParseFrames(buffer: string, number: string -> Option<real>) returns (frames: seq<Frame>, rest: string)
    ensures frames == FramesOf(Raws(buffer), number) && rest == Rest(buffer)
  {
    hide FrameOf, LineApplied;
    frames, rest := [], buffer;
    ghost var raws: seq<string> := [];
    var cut := IndexOfBreak(rest, 0);
    while cut >= 0
      invariant cut == IndexOfBreak(rest, 0)
      invariant Raws(buffer) == raws + Raws(rest) && Rest(buffer) == Rest(rest)
      invariant frames == FramesOf(raws, number)
      decreases |rest|
    {
      var raw := rest[..cut];
      rest := rest[cut + 2..];
      var frame := ParseFrame(raw, number);
      raws := raws + [raw];
      frames := frames + [frame];
      cut := IndexOfBreak(rest, 0);
    }
    assert raws + [] == raws;
  }

  /** The loop over the lines of one frame. */
  method ParseFrame(raw: string, number: string -> Option<real>) returns (frame: Frame)
    ensures frame == FrameOf(raw, number)
  {
    var event, data, retry := "message", [], None;
    var lines := Lines(raw);
    for i := 0 to |lines|
      invariant LinesApplied(lines[..i], number) == Fields(event, data, retry)
    {
      var line := lines[i];
      assert lines[..i + 1][..i] == lines[..i];
      if StartsWith(line, ":") {
        continue;
      }
      if StartsWith(line, "retry:") {
        retry := number(Trim(line[6..]));
      } else if StartsWith(line, "event:") {
        event := Trim(line[6..]);
      } else if StartsWith(line, "data:") {
        data := data + [TrimStart(line[5..])];
      }
    }
    assert lines[..|lines|] == lines;
    return Frame(event, Joined(data), retry);
  }

  // ---------------------------------------------------------------- a frame written and read

  /** A frame as a server writes it: an event line and one data line for each line of the data. */
  function Rendered(event: string, data: string): string {
    Joined(["event: " + event] + DataLines(Lines(data)))
  }

  function DataLines(lines: seq<string>): (r: seq<string>)
    ensures |r| == |lines| && forall i :: 0 <= i < |r| ==> r[i] == "data: " + lines[i]
  {
    seq(|lines|, i requires 0 <= i < |lines| => "data: " + lines[i])
  }

  /** No line of the data starts with white space. */
  predicate Flush(data: string) {
    forall i :: 0 <= i < |Lines(data)| ==> StartsFlush(Lines(data)[i])
  }

  function StartTrimmed(lines: seq<string>): (r: seq<string>)
    ensures |r| == |lines| && forall i :: 0 <= i < |r| ==> r[i] == TrimStart(lines[i])
  {
    seq(|lines|, i requires 0 <= i < |lines| => TrimStart(lines[i]))
  }

  lemma EventLine(f: Fields, event: string, number: string -> Option<real>)
    ensures LineApplied(f, "event: " + event, number) == f.(event := Trim(event))
  {
    hide Trim;
    var line := "event: " + event;
    assert line[..6] == "event:" && line[6..] == " " + event && line[0] == 'e';
    TrimFixed(event);
  }

  lemma DataLine(f: Fields, text: string, number: string -> Option<real>)
    ensures LineApplied(f, "data: " + text, number) == f.(data := f.data + [TrimStart(text)])
  {
    hide TrimStart;
    var line := "data: " + text;
    assert line[..5] == "data:" && line[5..] == " " + text && line[0] == 'd';
    TrimStartFixed(text);
  }

  lemma {:induction false} DataLinesApplied(event: string, lines: seq<string>, number: string -> Option<real>)
    ensures LinesApplied(["event: " + event] + DataLines(lines), number) == Fields(Trim(event), StartTrimmed(lines), None)
    decreases |lines|
  {
    hide LineApplied, Trim, TrimStart, LinesApplied;
    var head := ["event: " + event];
    if lines == [] {
      assert head + DataLines(lines) == [] + head && StartTrimmed(lines) == [];
      LinesOneMore([], head[0], number);
      EventLine(Fields("message", [], None), event, number);
    } else {
      var init, last := lines[..|lines| - 1], lines[|lines| - 1];
      DataLinesApplied(event, init, number);
      assert head + DataLines(lines) == (head + DataLines(init)) + ["data: " + last];
      LinesOneMore(head + DataLines(init), "data: " + last, number);
      DataLine(Fields(Trim(event), StartTrimmed(init), None), last, number);
      assert StartTrimmed(init) + [TrimStart(last)] == StartTrimmed(lines);
    }
  }

  lemma LinesOneMore(lines: seq<string>, line: string, number: string -> Option<real>)
    ensures LinesApplied(lines + [line], number) == LineApplied(LinesApplied(lines, number), line, number)
    ensures LinesApplied([], number) == Fields("message", [], None)
  {
    assert (lines + [line])[..|lines|] == lines;
  }

  /** What any name without a newline and any data are read back as. */
  lemma FrameRead(event: string, data: string, number: string -> Option<real>)
    requires '\n' !in event
    ensures FrameOf(Rendered(event, data), number) == Frame(Trim(event), Joined(StartTrimmed(Lines(data))), None)
  {
    hide LinesApplied, Lines, Joined, Trim, TrimStart;
    var lines := ["event: " + event] + DataLines(Lines(data));
    LinesJoined(data);
    forall i | 0 <= i < |lines| ensures '\n' !in lines[i] {
      if i > 0 {
        assert lines[i] == "data: " + Lines(data)[i - 1];
      }
    }
    JoinedLines(lines);
    DataLinesApplied(event, Lines(data), number);
  }

  /** A frame comes back as it was written if and only if its name is trimmed and no data line starts with white space. */
  lemma FrameRoundTrip(event: string, data: string, number: string -> Option<real>)
    requires '\n' !in event
    ensures FrameOf(Rendered(event, data), number) == Frame(event, data, None) <==> Trimmed(event) && Flush(data)
  {
    hide FrameOf, Rendered, Lines, Joined, Trim, TrimStart, StartsFlush, Trimmed;
    FrameRead(event, data, number);
    TrimFixed(event);
    var lines := Lines(data);
    var read := StartTrimmed(lines);
    LinesJoined(data);
    forall i | 0 <= i < |lines| ensures '\n' !in read[i] && (read[i] == lines[i] <==> StartsFlush(lines[i])) {
      TrimStartFixed(lines[i]);
    }
    JoinedLines(read);
    assert Flush(data) ==> read == lines;
  }

  // ---------------------------------------------------------------- what a frame's lines mean

  /** Line k is the last one with the prefix. */
  predicate LastLineWith(lines: seq<string>, prefix: string, k: nat)
    requires k < |lines|
  {
    prefix <= lines[k] && forall l :: k < l < |lines| ==> !(prefix <= lines[l])
  }

  predicate NoLineWith(lines: seq<string>, prefix: string) {
    forall l :: 0 <= l < |lines| ==> !(prefix <= lines[l])
  }

  /** The texts of the data lines, in order, without the white space in front. */
  function DataOf(lines: seq<string>): seq<string> {
    if lines == [] then []
    else (if "data:" <= lines[0] then [TrimStart(lines[0][5..])] else []) + DataOf(lines[1..])
  }

  lemma PrefixIs(line: string, prefix: string)
    ensures StartsWith(line, prefix) <==> prefix <= line
  {
  }

  /** No line is of two kinds. */
  lemma OneKind(line: string)
    ensures ("event:" <= line) && "retry:" <= line ==> false
    ensures ("data:" <= line) && ("retry:" <= line || "event:" <= line) ==> false
    ensures (":" <= line) && ("data:" <= line || "retry:" <= line || "event:" <= line) ==> false
  {
    assert "event:" <= line ==> line[0] == 'e';
    assert "retry:" <= line ==> line[0] == 'r';
    assert "data:" <= line ==> line[0] == 'd';
    assert ":" <= line ==> line[0] == ':';
  }

  /** What one more line does, by its kind. */
  lemma OneMoreLine(lines: seq<string>, number: string -> Option<real>)
    requires lines != []
    ensures var f, g, l := LinesApplied(lines[..|lines| - 1], number), LinesApplied(lines, number), lines[|lines| - 1];
            && g.event == (if "event:" <= l then Trim(l[6..]) else f.event)
            && g.retry == (if "retry:" <= l then number(Trim(l[6..])) else f.retry)
            && g.data == f.data + (if "data:" <= l then [TrimStart(l[5..])] else [])
  {
    hide Trim, TrimStart, StartsWith;
    var l := lines[|lines| - 1];
    OneKind(l);
    PrefixIs(l, ":");
    PrefixIs(l, "retry:");
    PrefixIs(l, "event:");
    PrefixIs(l, "data:");
  }

  lemma {:induction false} DataPush(lines: seq<string>, l: string)
    ensures DataOf(lines + [l]) == DataOf(lines) + (if "data:" <= l then [TrimStart(l[5..])] else [])
    decreases |lines|
  {
    hide TrimStart;
    if lines == [] {
      assert [] + [l] == [l] && [l][1..] == [];
    } else {
      assert (lines + [l])[1..] == lines[1..] + [l];
      DataPush(lines[1..], l);
    }
  }

  /** The last event line names the event. */
  lemma {:induction false} EventMeans(lines: seq<string>, number: string -> Option<real>)
    ensures NoLineWith(lines, "event:") ==> LinesApplied(lines, number).event == "message"
    ensures forall k: nat :: k < |lines| && LastLineWith(lines, "event:", k) ==> LinesApplied(lines, number).event == Trim(lines[k][6..])
    decreases |lines|
  {
    hide Trim, TrimStart, LastLineWith, NoLineWith;
    if lines != [] {
      var init, l := lines[..|lines| - 1], lines[|lines| - 1];
      EventMeans(init, number);
      OneMoreLine(lines, number);
      hide LinesApplied;
      assert lines == init + [l];
      LastLineStep(init, l, "event:");
    }
  }

  /** The last retry line gives the time. */
  lemma {:induction false} RetryMeans(lines: seq<string>, number: string -> Option<real>)
    ensures NoLineWith(lines, "retry:") ==> LinesApplied(lines, number).retry == None
    ensures forall k: nat :: k < |lines| && LastLineWith(lines, "retry:", k) ==> LinesApplied(lines, number).retry == number(Trim(lines[k][6..]))
    decreases |lines|
  {
    hide Trim, TrimStart, LastLineWith, NoLineWith;
    if lines != [] {
      var init, l := lines[..|lines| - 1], lines[|lines| - 1];
      RetryMeans(init, number);
      OneMoreLine(lines, number);
      hide LinesApplied;
      assert lines == init + [l];
      LastLineStep(init, l, "retry:");
    }
  }

  /** The data lines make up the data. */
  lemma {:induction false} DataMeans(lines: seq<string>, number: string -> Option<real>)
    ensures LinesApplied(lines, number).data == DataOf(lines)
    decreases |lines|
  {
    hide Trim, TrimStart;
    if lines != [] {
      var init, l := lines[..|lines| - 1], lines[|lines| - 1];
      DataMeans(init, number);
      OneMoreLine(lines, number);
      hide LinesApplied;
      assert lines == init + [l];
      DataPush(init, l);
    }
  }

  lemma LastLineStep(init: seq<string>, l: string, prefix: string)
    ensures forall k: nat :: k < |init| ==>
              (LastLineWith(init + [l], prefix, k) <==> LastLineWith(init, prefix, k) && !(prefix <= l)) && (init + [l])[k] == init[k]
    ensures LastLineWith(init + [l], prefix, |init|) <==> prefix <= l
    ensures NoLineWith(init + [l], prefix) <==> NoLineWith(init, prefix) && !(prefix <= l)
  {
    var lines := init + [l];
    forall k: nat | k < |init| ensures lines[k] == init[k] {
    }
    assert lines[|init|] == l;
  }

  /** The frame a raw text stands for: the last event line names the event, the last retry line gives the time, the data lines
      make up the data, and comments and other lines count for nothing. */
  lemma FrameMeans(raw: string, number: string -> Option<real>)
    ensures var f, lines := FrameOf(raw, number), Lines(raw);
            && (NoLineWith(lines, "event:") ==> f.event == "message")
            && (forall k: nat :: k < |lines| && LastLineWith(lines, "event:", k) ==> f.event == Trim(lines[k][6..]))
            && (NoLineWith(lines, "retry:") ==> f.retry == None)
            && (forall k: nat :: k < |lines| && LastLineWith(lines, "retry:", k) ==> f.retry == number(Trim(lines[k][6..])))
            && f.data == Joined(DataOf(lines))
  {
    hide Trim, TrimStart, Lines, LinesApplied, Joined, DataOf, LastLineWith, NoLineWith;
    EventMeans(Lines(raw), number);
    RetryMeans(Lines(raw), number);
    DataMeans(Lines(raw), number);
  }
}
