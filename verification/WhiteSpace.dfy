/** White space as the language's trim functions see it. */
module WhiteSpace {

  /** The white space and line terminators that trim removes. */
  predicate IsSpace(c: char) {
    c == ' ' || '\t' <= c <= '\r' || c == '\U{A0}' || c == '\U{1680}' || '\U{2000}' <= c <= '\U{200A}' ||
    c == '\U{2028}' || c == '\U{2029}' || c == '\U{202F}' || c == '\U{205F}' || c == '\U{3000}' || c == '\U{FEFF}'
  }

  /** The code points, one by one: those of ECMA-262 sections 12.2 and 12.3. */
  lemma SpacesAre(c: char)
    ensures IsSpace(c) <==> (c as int) in {
              0x9, 0xA, 0xB, 0xC, 0xD, 0x20, 0xA0, 0x1680, 0x2000, 0x2001, 0x2002, 0x2003, 0x2004,
              0x2005, 0x2006, 0x2007, 0x2008, 0x2009, 0x200A, 0x2028, 0x2029, 0x202F, 0x205F, 0x3000, 0xFEFF}
  {
  }

  predicate Blank(s: string) {
    forall i :: 0 <= i < |s| ==> IsSpace(s[i])
  }

  function TrimStart(s: string): (t: string)
    ensures |t| <= |s| && (t != "" ==> !IsSpace(t[0]))
    ensures forall c :: c in t ==> c in s
  {
    if s != "" && IsSpace(s[0]) then TrimStart(s[1..]) else s
  }

  function TrimEnd(s: string): (t: string)
    ensures |t| <= |s| && (t != "" ==> !IsSpace(t[|t| - 1]))
  {
    if s != "" && IsSpace(s[|s| - 1]) then TrimEnd(s[..|s| - 1]) else s
  }

  function Trim(s: string): string {
    TrimEnd(TrimStart(s))
  }

  predicate StartsFlush(s: string) {
    s == "" || !IsSpace(s[0])
  }

  predicate Trimmed(s: string) {
    s == "" || (!IsSpace(s[0]) && !IsSpace(s[|s| - 1]))
  }

  /** Trimming the start changes nothing exactly when there is no white space there. */
  lemma TrimStartFixed(s: string)
    ensures TrimStart(s) == s <==> StartsFlush(s)
    ensures TrimStart(" " + s) == TrimStart(s)
  {
    hide IsSpace;
    if s != "" && IsSpace(s[0]) {
      assert |TrimStart(s[1..])| < |s|;
    }
    assert (" " + s)[1..] == s;
    SpaceIsSpace();
  }

  lemma SpaceIsSpace()
    ensures IsSpace(' ')
  {
  }

  /** Trimming changes nothing exactly when neither end has white space. */
  lemma TrimFixed(s: string)
    ensures Trim(s) == s <==> Trimmed(s)
    ensures Trim(" " + s) == Trim(s)
  {
    hide IsSpace;
    TrimStartFixed(s);
    if !StartsFlush(s) {
      assert |TrimStart(s[1..])| < |s|;
      assert |Trim(s)| < |s|;
    }
  }

  /** What trimming takes off is white space, and what is left has none at its ends. */
  lemma TrimTakes(s: string) returns (from: nat, to: nat)
    ensures from <= to <= |s| && Trim(s) == s[from..to]
    ensures Blank(s[..from]) && Blank(s[to..]) && Trimmed(Trim(s))
    ensures Blank(s) <==> Trim(s) == ""
  {
    hide IsSpace;
    from := TrimStartTakes(s);
    var rest := s[from..];
    var kept := TrimEndTakes(rest);
    to := from + kept;
    assert rest[..kept] == s[from..to] && rest[kept..] == s[to..];
    BlankParts(s, from);
    assert from < |s| ==> rest[0] == s[from] && !IsSpace(rest[0]);
  }

  lemma {:induction false} TrimStartTakes(s: string) returns (from: nat)
    ensures from <= |s| && TrimStart(s) == s[from..] && Blank(s[..from])
    decreases |s|
  {
    hide IsSpace;
    if s != "" && IsSpace(s[0]) {
      from := TrimStartTakes(s[1..]);
      from := from + 1;
      assert s[1..][from - 1..] == s[from..];
      assert s[..from] == [s[0]] + s[1..][..from - 1];
    } else {
      from := 0;
    }
  }

  lemma {:induction false} TrimEndTakes(s: string) returns (to: nat)
    ensures to <= |s| && TrimEnd(s) == s[..to] && Blank(s[to..])
    ensures s != "" && !IsSpace(s[0]) ==> to > 0
    decreases |s|
  {
    hide IsSpace;
    if s != "" && IsSpace(s[|s| - 1]) {
      var init := s[..|s| - 1];
      to := TrimEndTakes(init);
      assert init[..to] == s[..to] && s[to..] == init[to..] + [s[|s| - 1]];
    } else {
      to := |s|;
    }
  }

  lemma BlankParts(s: string, from: nat)
    requires from <= |s| && Blank(s[..from]) && (from < |s| ==> !IsSpace(s[from]))
    ensures Blank(s) <==> from == |s|
  {
    hide IsSpace;
    if from == |s| {
      assert s[..from] == s;
    }
  }
}
