/**
 The streaming line search of syscalls/ece391grep.c: a file is read in chunks into a
 1024-byte buffer, and the part of a line that a chunk cuts off is carried to the front.
 */
module Grep {
  import opened Bytes
  import opened Sequences
  import opened Support

  const BUFSIZE := 1024
  const NEWLINE: Byte := 10
  const COLON: Byte := 58

  // ---------------------------------------------------------------------------------
  // The search of a whole file
  // ---------------------------------------------------------------------------------

  predicate OneLine(s: seq<Byte>) { forall k :: 0 <= k < |s| ==> s[k] != NEWLINE }

  function FirstNewline(text: seq<Byte>): (n: nat)
    ensures n <= |text|
  {
    if text == [] || text[0] == NEWLINE then 0 else 1 + FirstNewline(text[1..])
  }

  predicate OccursAt(line: seq<Byte>, pattern: seq<Byte>, i: nat) {
    i <= |line| && pattern <= line[i..]
  }

  /** The pattern occurs in the line; an empty pattern is taken to occur nowhere. */
  predicate Contains(line: seq<Byte>, pattern: seq<Byte>) {
    pattern != [] && exists i :: 0 <= i <= |line| && OccursAt(line, pattern, i)
  }

  /** What grep prints for a line. */
  function Report(name: seq<Byte>, line: seq<Byte>, pattern: seq<Byte>): seq<Byte> {
    if Contains(line, pattern) then name + [COLON] + line + [NEWLINE] else []
  }

  /** The lines of text that contain the pattern, once each and in order. */
  function Grepped(name: seq<Byte>, text: seq<Byte>, pattern: seq<Byte>): seq<Byte>
    decreases |text|
  {
    var n := FirstNewline(text);
    Report(name, text[..n], pattern) + if n == |text| then [] else Grepped(name, text[n + 1..], pattern)
  }

  lemma {:induction false} FirstNewlineAfter(line: seq<Byte>, rest: seq<Byte>)
    requires OneLine(line) && (rest == [] || rest[0] == NEWLINE)
    ensures FirstNewline(line + rest) == |line|
    decreases |line|
  {
    if line == [] {
      assert line + rest == rest;
    } else {
      assert (line + rest)[1..] == line[1..] + rest;
      FirstNewlineAfter(line[1..], rest);
    }
  }

  lemma {:induction false} NewlineNotBefore(line: seq<Byte>, rest: seq<Byte>)
    requires OneLine(line)
    ensures FirstNewline(line + rest) >= |line|
    decreases |line|
  {
    if line != [] {
      assert (line + rest)[1..] == line[1..] + rest;
      NewlineNotBefore(line[1..], rest);
    }
  }

  // ---------------------------------------------------------------------------------
  // The search that the buffer allows
  // ---------------------------------------------------------------------------------

  /** A line that is longer than the buffer is searched in pieces of the buffer's size. */
  function InPieces(name: seq<Byte>, text: seq<Byte>, pattern: seq<Byte>): seq<Byte>
    decreases |text|
  {
    var n := FirstNewline(text);
    if n > BUFSIZE then Report(name, text[..BUFSIZE], pattern) + InPieces(name, text[BUFSIZE..], pattern)
    else Report(name, text[..n], pattern) + if n == |text| then [] else InPieces(name, text[n + 1..], pattern)
  }

  /** Some line does not fit the buffer and contains the pattern. */
  predicate LongMatch(text: seq<Byte>, pattern: seq<Byte>)
    decreases |text|
  {
    var n := FirstNewline(text);
    (n > BUFSIZE && Contains(text[..n], pattern)) || (n < |text| && LongMatch(text[n + 1..], pattern))
  }

  /** The newline at the front of a text adds an empty line, which no pattern matches. */
  lemma PiecesNewline(name: seq<Byte>, rest: seq<Byte>, pattern: seq<Byte>)
    requires rest != [] && rest[0] == NEWLINE
    ensures InPieces(name, rest, pattern) == InPieces(name, rest[1..], pattern)
  {
    assert !Contains(rest[..0], pattern);
  }

  lemma NothingLeft(name: seq<Byte>, pattern: seq<Byte>)
    ensures InPieces(name, [], pattern) == []
  {
    var none: seq<Byte> := [];
    assert FirstNewline(none) == 0 && none[..0] == none;
  }

  /** Searching what fits of a line and then the text after it is searching the whole. */
  lemma PiecesLine(name: seq<Byte>, line: seq<Byte>, rest: seq<Byte>, pattern: seq<Byte>)
    requires OneLine(line) && |line| <= BUFSIZE && (rest == [] || rest[0] == NEWLINE || |line| == BUFSIZE)
    ensures InPieces(name, line + rest, pattern) == Report(name, line, pattern) + InPieces(name, rest, pattern)
  {
    var text := line + rest;
    assert text[..|line|] == line && text[|line|..] == rest;
    NewlineNotBefore(line, rest);
    if rest == [] || rest[0] == NEWLINE {
      FirstNewlineAfter(line, rest);
      if rest == [] {
        assert !Contains(rest[..0], pattern);
      } else {
        assert text[|line| + 1..] == rest[1..];
        PiecesNewline(name, rest, pattern);
      }
    } else {
      NewlineNotBefore(line + [rest[0]], rest[1..]);
      assert line + [rest[0]] + rest[1..] == text;
    }
  }

  lemma Regroup(carry: seq<Byte>, file: seq<Byte>, pos: nat, cnt: nat)
    requires pos + cnt <= |file|
    ensures (carry + file[pos..pos + cnt]) + file[pos + cnt..] == carry + file[pos..]
  {
    assert file[pos..] == file[pos..pos + cnt] + file[pos + cnt..];
  }

  // ---------------------------------------------------------------------------------
  // When the pieces do not matter
  // ---------------------------------------------------------------------------------

  /** A piece contains the pattern only if its line does. */
  lemma PieceContains(line: seq<Byte>, from: nat, to: nat, pattern: seq<Byte>)
    requires from <= to <= |line| && Contains(line[from..to], pattern)
    ensures Contains(line, pattern)
  {
    var piece := line[from..to];
    var i :| 0 <= i <= |piece| && OccursAt(piece, pattern, i);
    assert piece[i..] <= line[from + i..];
    assert OccursAt(line, pattern, from + i);
  }

  lemma NoPieceContains(line: seq<Byte>, k: nat, pattern: seq<Byte>)
    requires k <= |line| && !Contains(line, pattern)
    ensures !Contains(line[..k], pattern) && !Contains(line[k..], pattern)
  {
    assert line[0..k] == line[..k] && line[k..|line|] == line[k..];
    if Contains(line[0..k], pattern) { PieceContains(line, 0, k, pattern); }
    if Contains(line[k..|line|], pattern) { PieceContains(line, k, |line|, pattern); }
  }

  lemma Cut(line: seq<Byte>, more: seq<Byte>, k: nat)
    requires k <= |line|
    ensures (line + more)[..k] == line[..k] && (line + more)[k..] == line[k..] + more
  {}

  /** Without a match the pieces of a long line print nothing. */
  lemma {:induction false} PiecesSilent(name: seq<Byte>, line: seq<Byte>, more: seq<Byte>, pattern: seq<Byte>)
    requires OneLine(line) && (more == [] || more[0] == NEWLINE) && !Contains(line, pattern)
    ensures InPieces(name, line + more, pattern) == if more == [] then [] else InPieces(name, more[1..], pattern)
    decreases |line|
  {
    FirstNewlineAfter(line, more);
    if |line| > BUFSIZE {
      NoPieceContains(line, BUFSIZE, pattern);
      Cut(line, more, BUFSIZE);
      PiecesSilent(name, line[BUFSIZE..], more, pattern);
    } else {
      PiecesLine(name, line, more, pattern);
      NothingLeft(name, pattern);
      if more != [] { PiecesNewline(name, more, pattern); }
    }
  }

  lemma Halves(text: seq<Byte>, n: nat)
    requires n <= |text|
    ensures text == text[..n] + text[n..] && (n < |text| ==> text[n..][1..] == text[n + 1..])
  {}

  lemma LongLineSilent(name: seq<Byte>, text: seq<Byte>, pattern: seq<Byte>)
    requires var n := FirstNewline(text); n > BUFSIZE && !Contains(text[..n], pattern)
    ensures InPieces(name, text, pattern)
      == if FirstNewline(text) == |text| then [] else InPieces(name, text[FirstNewline(text) + 1..], pattern)
  {
    var n := FirstNewline(text);
    var (line, more) := (text[..n], text[n..]);
    NotBeforeNewline(text);
    Halves(text, n);
    PiecesSilent(name, line, more, pattern);
    assert InPieces(name, text, pattern) == InPieces(name, line + more, pattern);
    assert n < |text| ==> more[1..] == text[n + 1..];
  }

  lemma {:induction false} WholeWithoutLong(name: seq<Byte>, text: seq<Byte>, pattern: seq<Byte>)
    requires !LongMatch(text, pattern)
    ensures InPieces(name, text, pattern) == Grepped(name, text, pattern)
    decreases |text|
  {
    var n := FirstNewline(text);
    if n < |text| { WholeWithoutLong(name, text[n + 1..], pattern); }
    if n > BUFSIZE { LongLineSilent(name, text, pattern); }
  }

  /** How long the lines of a text are at most. */
  function LongestLine(text: seq<Byte>): (m: nat)
    decreases |text|
  {
    var n := FirstNewline(text);
    var rest := if n == |text| then 0 else LongestLine(text[n + 1..]);
    if n < rest then rest else n
  }

  lemma {:induction false} NotBeforeNewline(text: seq<Byte>)
    ensures OneLine(text[..FirstNewline(text)])
    ensures FirstNewline(text) < |text| ==> text[FirstNewline(text)] == NEWLINE
    decreases |text|
  {
    if text != [] && text[0] != NEWLINE {
      NotBeforeNewline(text[1..]);
      assert text[..FirstNewline(text)] == [text[0]] + text[1..][..FirstNewline(text[1..])];
    }
  }

  /** What a report puts in front of an output. */
  lemma ReportLongest(name: seq<Byte>, line: seq<Byte>, pattern: seq<Byte>, rest: seq<Byte>)
    requires OneLine(name) && OneLine(line)
    ensures LongestLine(Report(name, line, pattern) + rest)
      == if Contains(line, pattern) && |name| + 1 + |line| > LongestLine(rest) then |name| + 1 + |line| else LongestLine(rest)
  {
    var shown := name + [COLON] + line;
    if Contains(line, pattern) {
      assert Report(name, line, pattern) + rest == shown + ([NEWLINE] + rest);
      FirstNewlineAfter(shown, [NEWLINE] + rest);
      assert (shown + ([NEWLINE] + rest))[|shown| + 1..] == rest;
    } else {
      assert Report(name, line, pattern) + rest == rest;
    }
  }

  /** In pieces no printed line is longer than the buffer allows. */
  lemma {:induction false} PiecesShort(name: seq<Byte>, text: seq<Byte>, pattern: seq<Byte>)
    requires OneLine(name)
    ensures LongestLine(InPieces(name, text, pattern)) <= |name| + 1 + BUFSIZE
    decreases |text|
  {
    var n := FirstNewline(text);
    NotBeforeNewline(text);
    if n > BUFSIZE {
      assert text[..BUFSIZE] == text[..n][..BUFSIZE];
      PiecesShort(name, text[BUFSIZE..], pattern);
      ReportLongest(name, text[..BUFSIZE], pattern, InPieces(name, text[BUFSIZE..], pattern));
    } else if n == |text| {
      ReportLongest(name, text[..n], pattern, []);
    } else {
      PiecesShort(name, text[n + 1..], pattern);
      ReportLongest(name, text[..n], pattern, InPieces(name, text[n + 1..], pattern));
    }
  }

  /** In the search of the whole file a long line that matches is printed as a whole. */
  lemma {:induction false} WholeLong(name: seq<Byte>, text: seq<Byte>, pattern: seq<Byte>)
    requires OneLine(name) && LongMatch(text, pattern)
    ensures LongestLine(Grepped(name, text, pattern)) > |name| + 1 + BUFSIZE
    decreases |text|
  {
    var n := FirstNewline(text);
    NotBeforeNewline(text);
    var rest := if n == |text| then [] else Grepped(name, text[n + 1..], pattern);
    assert Grepped(name, text, pattern) == Report(name, text[..n], pattern) + rest;
    ReportLongest(name, text[..n], pattern, rest);
    if !(n > BUFSIZE && Contains(text[..n], pattern)) {
      WholeLong(name, text[n + 1..], pattern);
    }
  }

  /** The buffer does not show exactly when no line that is longer contains the pattern. */
  lemma WholeExactly(name: seq<Byte>, text: seq<Byte>, pattern: seq<Byte>)
    ensures OneLine(name) ==>
      (InPieces(name, text, pattern) == Grepped(name, text, pattern) <==> !LongMatch(text, pattern))
  {
    if !LongMatch(text, pattern) {
      WholeWithoutLong(name, text, pattern);
    } else if OneLine(name) {
      PiecesShort(name, text, pattern);
      WholeLong(name, text, pattern);
    }
  }

  /** A line of 1025 bytes is printed as 1024 and one. */
  lemma LongLineBroken(name: seq<Byte>)
    requires OneLine(name)
    ensures var text: seq<Byte> := seq(1025, _ => 97);
      LongMatch(text, [97]) && InPieces(name, text, [97]) != Grepped(name, text, [97])
  {
    var text: seq<Byte> := seq(1025, _ => 97);
    FirstNewlineAfter(text, []);
    assert text + [] == text && text[..|text|] == text;
    assert [97] <= text[0..];
    assert OccursAt(text, [97], 0);
    WholeExactly(name, text, [97]);
  }

  // ---------------------------------------------------------------------------------
  // What a reader of the output finds in it
  // ---------------------------------------------------------------------------------

  /** The lines of a text; what is behind the last newline is one more unless it is empty. */
  function LinesOf(text: seq<Byte>): (lines: seq<seq<Byte>>)
    decreases |text|
  {
    if text == [] then []
    else
      var n := FirstNewline(text);
      [text[..n]] + if n == |text| then [] else LinesOf(text[n + 1..])
  }

  function Unlined(lines: seq<seq<Byte>>): seq<Byte> {
    if lines == [] then [] else lines[0] + [10] + Unlined(lines[1..])
  }

  /** The text behind the first line. */
  function AfterLine(text: seq<Byte>): seq<Byte> {
    var n := FirstNewline(text);
    if n == |text| then [] else text[n + 1..]
  }

  lemma LinesStep(text: seq<Byte>)
    requires text != []
    ensures LinesOf(text) == [text[..FirstNewline(text)]] + LinesOf(AfterLine(text))
  {}

  /** A text with a newline at its end. */
  function Ended(text: seq<Byte>): seq<Byte> {
    if text == [] || text[|text| - 1] == 10 then text else text + [10]
  }

  lemma EndedBehind(line: seq<Byte>, rest: seq<Byte>)
    ensures Ended(line + [10] + rest) == line + [10] + Ended(rest)
  {
    var text := line + [10] + rest;
    if rest == [] {
      assert text[|text| - 1] == 10 && text == line + [10];
    } else {
      assert text[|text| - 1] == rest[|rest| - 1];
      assert line + [10] + (rest + [10]) == text + [10];
    }
  }

  lemma Cutting(text: seq<Byte>, n: nat)
    requires n < |text|
    ensures text == text[..n] + [text[n]] + text[n + 1..]
  {}

  lemma FirstLine(text: seq<Byte>)
    requires text != []
    ensures OneLine(text[..FirstNewline(text)])
    ensures Ended(text) == text[..FirstNewline(text)] + [10] + Ended(AfterLine(text))
  {
    var n := FirstNewline(text);
    NotBeforeNewline(text);
    if n == |text| {
      assert text[..n] == text;
    } else {
      Cutting(text, n);
      EndedBehind(text[..n], text[n + 1..]);
    }
  }

  /** They are lines, and with their newlines they are the text. */
  lemma {:induction false} LinesJoined(text: seq<Byte>)
    ensures forall k :: 0 <= k < |LinesOf(text)| ==> OneLine(LinesOf(text)[k])
    ensures Unlined(LinesOf(text)) == Ended(text)
    decreases |text|
  {
    if text != [] {
      LinesStep(text);
      FirstLine(text);
      LinesJoined(AfterLine(text));
      UnlinedStep(text[..FirstNewline(text)], LinesOf(AfterLine(text)));
    }
  }

  lemma UnlinedStep(line: seq<Byte>, lines: seq<seq<Byte>>)
    ensures Unlined([line] + lines) == line + [10] + Unlined(lines)
  {
    assert ([line] + lines)[1..] == lines;
  }

  /** Those of some lines that contain the pattern, in their order. */
  function Matching(lines: seq<seq<Byte>>, pattern: seq<Byte>): seq<seq<Byte>> {
    if lines == [] then []
    else (if Contains(lines[0], pattern) then [lines[0]] else []) + Matching(lines[1..], pattern)
  }

  function FirstColon(line: seq<Byte>): (n: nat)
    ensures n <= |line| && (n < |line| ==> line[n] == 58)
    ensures forall k :: 0 <= k < n ==> line[k] != 58
  {
    if line == [] || line[0] == 58 then 0 else 1 + FirstColon(line[1..])
  }

  function BehindColon(line: seq<Byte>): seq<Byte> {
    if FirstColon(line) < |line| then line[FirstColon(line) + 1..] else []
  }

  /** What is behind the first colon of each line. */
  function BehindColons(lines: seq<seq<Byte>>): (r: seq<seq<Byte>>)
    ensures |r| == |lines|
  {
    seq(|lines|, k requires 0 <= k < |lines| => BehindColon(lines[k]))
  }

  /** Every line has the name and a colon in front, and no colon before. */
  predicate Named(lines: seq<seq<Byte>>, name: seq<Byte>) {
    forall k :: 0 <= k < |lines| ==>
      FirstColon(lines[k]) == |name| < |lines[k]| && lines[k][..|name|] == name
  }

  predicate NameOnly(name: seq<Byte>) { forall k :: 0 <= k < |name| ==> name[k] != 58 && name[k] != 10 }

  lemma LineInFront(line: seq<Byte>, rest: seq<Byte>)
    requires OneLine(line)
    ensures LinesOf(line + [10] + rest) == [line] + LinesOf(rest)
  {
    var text := line + [10] + rest;
    assert text == line + ([10] + rest);
    FirstNewlineAfter(line, [10] + rest);
    assert text[..|line|] == line && AfterLine(text) == rest;
    LinesStep(text);
  }

  lemma ColonAfterName(name: seq<Byte>, line: seq<Byte>)
    requires NameOnly(name)
    ensures var shown := name + [58] + line;
      FirstColon(shown) == |name| && shown[..|name|] == name && shown[|name| + 1..] == line
  {
    var shown := name + [58] + line;
    assert shown[|name|] == 58;
    assert forall k :: 0 <= k < |name| ==> shown[k] == name[k];
  }

  lemma NamedInFront(shown: seq<Byte>, lines: seq<seq<Byte>>, name: seq<Byte>)
    requires FirstColon(shown) == |name| < |shown| && shown[..|name|] == name && Named(lines, name)
    ensures Named([shown] + lines, name)
  {
    var all := [shown] + lines;
    forall k | 0 <= k < |all| ensures FirstColon(all[k]) == |name| < |all[k]| && all[k][..|name|] == name {
      if k > 0 { assert all[k] == lines[k - 1]; }
    }
  }

  lemma BehindInFront(shown: seq<Byte>, lines: seq<seq<Byte>>)
    ensures BehindColons([shown] + lines) == [BehindColon(shown)] + BehindColons(lines)
  {
    var all := [shown] + lines;
    forall k | 0 <= k < |all| ensures BehindColons(all)[k] == ([BehindColon(shown)] + BehindColons(lines))[k] {
      if k > 0 { assert all[k] == lines[k - 1]; }
    }
  }

  /** A report in front of an output is one more line in front, or nothing. */
  lemma ReportedLine(name: seq<Byte>, line: seq<Byte>, pattern: seq<Byte>, rest: seq<Byte>)
    requires NameOnly(name) && OneLine(line)
    ensures var (all, more) := (LinesOf(Report(name, line, pattern) + rest), LinesOf(rest));
      && (Named(more, name) ==> Named(all, name))
      && BehindColons(all) == (if Contains(line, pattern) then [line] else []) + BehindColons(more)
  {
    if Contains(line, pattern) {
      var shown := name + [58] + line;
      assert Report(name, line, pattern) + rest == shown + [10] + rest;
      LineInFront(shown, rest);
      ColonAfterName(name, line);
      BehindInFront(shown, LinesOf(rest));
      if Named(LinesOf(rest), name) { NamedInFront(shown, LinesOf(rest), name); }
    } else {
      assert Report(name, line, pattern) + rest == rest;
    }
  }

  /** The search of a whole file prints the lines that contain the pattern, each behind the name and a colon. */
  lemma {:induction false} GreppedLines(name: seq<Byte>, text: seq<Byte>, pattern: seq<Byte>)
    requires NameOnly(name)
    ensures BehindColons(LinesOf(Grepped(name, text, pattern))) == Matching(LinesOf(text), pattern)
    decreases |text|
  {
    var n := FirstNewline(text);
    NotBeforeNewline(text);
    var rest := if n == |text| then [] else Grepped(name, text[n + 1..], pattern);
    ReportedLine(name, text[..n], pattern, rest);
    if n < |text| { GreppedLines(name, text[n + 1..], pattern); }
    if text == [] {
      assert !Contains(text[..n], pattern);
    } else {
      assert LinesOf(text)[1..] == if n == |text| then [] else LinesOf(text[n + 1..]);
    }
  }

  /** Also in pieces every printed line has the name in front. */
  lemma {:induction false} PiecesNamed(name: seq<Byte>, text: seq<Byte>, pattern: seq<Byte>)
    requires NameOnly(name)
    ensures Named(LinesOf(InPieces(name, text, pattern)), name)
    decreases |text|
  {
    var n := FirstNewline(text);
    NotBeforeNewline(text);
    if n > BUFSIZE {
      assert text[..BUFSIZE] == text[..n][..BUFSIZE];
      PiecesNamed(name, text[BUFSIZE..], pattern);
      ReportedLine(name, text[..BUFSIZE], pattern, InPieces(name, text[BUFSIZE..], pattern));
    } else if n == |text| {
      ReportedLine(name, text[..n], pattern, []);
    } else {
      PiecesNamed(name, text[n + 1..], pattern);
      ReportedLine(name, text[..n], pattern, InPieces(name, text[n + 1..], pattern));
    }
  }

  /** No line of more than 1024 bytes contains the pattern. */
  ghost predicate ShortMatches(text: seq<Byte>, pattern: seq<Byte>) {
    forall k :: 0 <= k < |LinesOf(text)| ==> |LinesOf(text)[k]| > 1024 ==> !Contains(LinesOf(text)[k], pattern)
  }

  lemma ShortInFront(line: seq<Byte>, rest: seq<Byte>, text: seq<Byte>, pattern: seq<Byte>)
    requires LinesOf(text) == [line] + LinesOf(rest)
    ensures ShortMatches(text, pattern) <==> (|line| > 1024 ==> !Contains(line, pattern)) && ShortMatches(rest, pattern)
  {
    var (all, more) := (LinesOf(text), LinesOf(rest));
    assert all[0] == line;
    forall k | 0 <= k < |more| ensures all[k + 1] == more[k] {}
    if ShortMatches(text, pattern) {
      forall k | 0 <= k < |more| && |more[k]| > 1024 ensures !Contains(more[k], pattern) {
        assert all[k + 1] == more[k];
      }
    }
  }

  lemma {:induction false} LongMatchInLines(text: seq<Byte>, pattern: seq<Byte>)
    ensures LongMatch(text, pattern) <==> !ShortMatches(text, pattern)
    decreases |text|
  {
    if text != [] {
      LinesStep(text);
      LongMatchInLines(AfterLine(text), pattern);
      ShortInFront(text[..FirstNewline(text)], AfterLine(text), text, pattern);
    }
  }

  // ---------------------------------------------------------------------------------
  // The code
  // ---------------------------------------------------------------------------------

  /** The read system call: short only at the end of the file. */
  method Read(file: seq<Byte>, pos: nat, data: array<Byte>, at: nat, count: nat) returns (cnt: nat)
    requires pos <= |file| && at + count <= data.Length
    modifies data
    ensures cnt == (if |file| - pos < count then |file| - pos else count)
    ensures data[at..at + cnt] == file[pos..pos + cnt]
    ensures forall k :: 0 <= k < data.Length && !(at <= k < at + cnt) ==> data[k] == old(data[k])
  {
    cnt := if |file| - pos < count then |file| - pos else count;
    forall k | at <= k < at + cnt {
      data[k] := file[pos + (k - at)];
    }
  }

  /** Looks for s at every position of the line and prints the line at the first match. */
  method SearchLine(s: seq<Byte>, name: seq<Byte>, data: array<Byte>, start: nat, end: nat)
    returns (printed: seq<Byte>)
    requires StringAt(data, start, end) && NulFree(s)
    ensures printed == Report(name, data[start..end], s)
    ensures Contains(data[start..end], s) ==>
      name + [58] <= printed && printed[|name| + 1..] == data[start..end] + [10]
    ensures !Contains(data[start..end], s) ==> printed == []
  {
    printed := [];
    var check, first := start, if s == [] then NUL else s[0];
    while check < end
      invariant start <= check <= end
      invariant s != [] ==> forall i :: 0 <= i < check - start ==> !OccursAt(data[start..end], s, i)
    {
      assert data[start..end][check - start..] == data[check..end];
      if first == data[check] {
        var differ := Strncmp(data, check, s, end);
        if differ == 0 {
          assert OccursAt(data[start..end], s, check - start);
          var len := Strlen(data, start, end);
          return name + [COLON] + data[start..start + len] + [NEWLINE];
        }
      }
      check := check + 1;
    }
    assert data[start..end][end - start..] == [];
  }

  /**
   do_one_file, for a file that opens, reads and closes. The one buffer byte that no read
   ever fills must not look like a newline to begin with.
   */
  method DoOneFile(s: seq<Byte>, name: seq<Byte>, file: seq<Byte>, data: array<Byte>)
    returns (out: seq<Byte>)
    requires NulFree(s) && NulFree(file)
    requires data.Length == BUFSIZE + 1 && data[BUFSIZE] != NEWLINE
    modifies data
    ensures out == InPieces(name, file, s)
    ensures OneLine(name) ==> (out == Grepped(name, file, s) <==> ShortMatches(file, s))
    ensures NameOnly(name) ==> Named(LinesOf(out), name)
    ensures NameOnly(name) && ShortMatches(file, s) ==> BehindColons(LinesOf(out)) == Matching(LinesOf(file), s)
  {
    out := SearchFile(s, name, file, data);
    WholeExactly(name, file, s);
    LongMatchInLines(file, s);
    if NameOnly(name) {
      PiecesNamed(name, file, s);
      GreppedLines(name, file, s);
    }
  }

  /** What has been printed, and what is carried over and left of the file, still make up the goal. */
  ghost predicate Owes(name: seq<Byte>, s: seq<Byte>, out: seq<Byte>, carry: seq<Byte>, file: seq<Byte>, pos: nat,
                       goal: seq<Byte>)
    requires pos <= |file|
  {
    out + InPieces(name, carry + file[pos..], s) == goal
  }

  /** What the buffer holds at the front. */
  ghost predicate Carried(data: array<Byte>, carry: seq<Byte>, last: nat)
    reads data
  {
    && data.Length == BUFSIZE + 1 && data[BUFSIZE] != NEWLINE && last == |carry| < BUFSIZE
    && NulFree(carry) && forall k :: 0 <= k < last ==> data[k] == carry[k]
  }

  /** The loop of do_one_file over the chunks. */
  method SearchFile(s: seq<Byte>, name: seq<Byte>, file: seq<Byte>, data: array<Byte>) returns (out: seq<Byte>)
    requires NulFree(s) && NulFree(file)
    requires data.Length == BUFSIZE + 1 && data[BUFSIZE] != NEWLINE
    modifies data
    ensures out == InPieces(name, file, s)
  {
    out := [];
    var pos, last := 0, 0;
    ghost var carry: seq<Byte> := [];
    ghost var goal := InPieces(name, file, s);
    Begins(name, file, s);
    while true
      invariant 0 <= pos <= |file| && Carried(data, carry, last) && Owes(name, s, out, carry, file, pos, goal)
      decreases |file| - pos
    {
      var cnt;
      cnt, last, out, carry := NextChunk(s, name, file, pos, data, last, out, carry, goal);
      pos := pos + cnt;
      if cnt == 0 { break; }
    }
    Ends(name, s, out, file, goal);
  }

  lemma Begins(name: seq<Byte>, file: seq<Byte>, s: seq<Byte>)
    ensures Owes(name, s, [], [], file, 0, InPieces(name, file, s))
  {
    assert [] + file[0..] == file;
  }

  lemma Ends(name: seq<Byte>, s: seq<Byte>, out: seq<Byte>, file: seq<Byte>, goal: seq<Byte>)
    requires Owes(name, s, out, [], file, |file|, goal)
    ensures out == goal
  {
    assert [] + file[|file|..] == [];
    NothingLeft(name, s);
  }

  /** One round of the outer loop: a read and the lines that it completes. */
  method NextChunk(s: seq<Byte>, name: seq<Byte>, file: seq<Byte>, pos: nat, data: array<Byte>, length: nat,
                   before: seq<Byte>, ghost carry: seq<Byte>, ghost goal: seq<Byte>)
    returns (cnt: nat, last: nat, out: seq<Byte>, ghost left: seq<Byte>)
    requires NulFree(s) && NulFree(file) && pos <= |file|
    requires Carried(data, carry, length) && Owes(name, s, before, carry, file, pos, goal)
    modifies data
    ensures pos + cnt <= |file| && (cnt == 0 ==> pos == |file| && left == [])
    ensures Carried(data, left, last) && Owes(name, s, out, left, file, pos + cnt, goal)
  {
    cnt := Read(file, pos, data, length, BUFSIZE - length);
    ghost var chunk := carry + file[pos..pos + cnt];
    Regroup(carry, file, pos, cnt);
    Filled(data, carry, file, pos, cnt);
    last, out, left := SearchChunk(s, name, chunk, file[pos + cnt..], data, length + cnt, cnt, before);
  }

  lemma Filled(data: array<Byte>, carry: seq<Byte>, file: seq<Byte>, pos: nat, cnt: nat)
    requires pos + cnt <= |file| && |carry| + cnt <= data.Length
    requires forall k :: 0 <= k < |carry| ==> data[k] == carry[k]
    requires data[|carry|..|carry| + cnt] == file[pos..pos + cnt]
    ensures data[..|carry| + cnt] == carry + file[pos..pos + cnt]
    ensures forall k :: 0 <= k < |carry| + cnt ==> data[k] == (carry + file[pos..pos + cnt])[k]
  {
    assert data[..|carry| + cnt] == data[..|carry|] + data[|carry|..|carry| + cnt];
    assert data[..|carry|] == carry;
    assert forall k :: 0 <= k < |carry| + cnt ==> data[k] == data[..|carry| + cnt][k];
  }

  /**
   The lines of one chunk. What remains at the front is the part of the last line that was
   cut off, unless the file has ended or the line fills the buffer.
   */
  method SearchChunk(s: seq<Byte>, name: seq<Byte>, ghost chunk: seq<Byte>, ghost beyond: seq<Byte>,
                     data: array<Byte>, length: nat, cnt: nat, before: seq<Byte>)
    returns (last: nat, out: seq<Byte>, ghost left: seq<Byte>)
    requires NulFree(s) && NulFree(chunk) && length == |chunk| <= BUFSIZE
    requires data.Length == BUFSIZE + 1 && data[BUFSIZE] != NEWLINE
    requires forall k :: 0 <= k < length ==> data[k] == chunk[k]
    requires (length == BUFSIZE || beyond == []) && (cnt == 0 ==> beyond == [])
    modifies data
    ensures last == |left| < BUFSIZE && data[BUFSIZE] != NEWLINE && (cnt == 0 ==> left == [])
    ensures NulFree(left) && forall k :: 0 <= k < last ==> data[k] == left[k]
    ensures out + InPieces(name, left + beyond, s) == before + InPieces(name, chunk + beyond, s)
  {
    out, last, left := before, length, chunk;
    ghost var goal := before + InPieces(name, chunk + beyond, s);
    var lineStart := 0;
    while true
      invariant 0 <= lineStart && (lineStart < length || lineStart == length == 0)
      invariant data[BUFSIZE] != NEWLINE && forall k :: lineStart <= k < length ==> data[k] == chunk[k]
      invariant left == chunk[lineStart..] && out + InPieces(name, left + beyond, s) == goal
      decreases length - lineStart
    {
      var lineEnd := FindLineEnd(data, lineStart, length);
      if data[lineEnd] != NEWLINE && cnt != 0 && lineStart != 0 {
        CarryOver(data, chunk, lineStart, lineEnd);
        last := length - lineStart;
        return;
      }
      out, left := SearchNext(s, name, data, chunk, beyond, lineStart, lineEnd, out);
      lineStart := lineEnd + 1;
      if lineStart >= length {
        last := 0;
        return;
      }
    }
  }

  /** One line of a chunk that is not carried over. */
  method SearchNext(s: seq<Byte>, name: seq<Byte>, data: array<Byte>, ghost chunk: seq<Byte>, ghost beyond: seq<Byte>,
                    start: nat, end: nat, before: seq<Byte>)
    returns (out: seq<Byte>, ghost left: seq<Byte>)
    requires NulFree(s) && NulFree(chunk) && start <= end <= |chunk| <= BUFSIZE
    requires data.Length == BUFSIZE + 1 && data[BUFSIZE] != NEWLINE && OneLine(data[start..end])
    requires forall k :: start <= k < |chunk| ==> data[k] == chunk[k]
    requires end < |chunk| ==> data[end] == NEWLINE
    requires end == |chunk| && beyond != [] ==> end - start == BUFSIZE
    modifies data
    ensures data[BUFSIZE] != NEWLINE && forall k :: end < k < |chunk| ==> data[k] == chunk[k]
    ensures left == if end < |chunk| then chunk[end + 1..] else []
    ensures out + InPieces(name, left + beyond, s) == before + InPieces(name, chunk[start..] + beyond, s)
  {
    SameSlice(data, chunk, start, end);
    var printed := CutAndSearch(s, name, data, chunk, start, end);
    left := SearchedLine(name, s, chunk, beyond, start, end, before, printed);
    out := before + printed;
  }

  /** Moves an unfinished line to the front. */
  method CarryOver(data: array<Byte>, ghost chunk: seq<Byte>, start: nat, end: nat)
    requires start < end == |chunk| < data.Length && NulFree(chunk)
    requires forall k :: start <= k < |chunk| ==> data[k] == chunk[k]
    modifies data
    ensures forall k :: 0 <= k < |chunk| - start ==> data[k] == chunk[start + k]
    ensures forall k :: |chunk| < k < data.Length ==> data[k] == old(data[k])
    ensures data[|chunk|] == NUL
  {
    data[end] := NUL;
    CopyDown(data, start, end);
    assert forall k :: 0 <= k < end - start ==> data[k] == data[..end - start][k];
  }

  /** Ends the line and searches it. */
  method CutAndSearch(s: seq<Byte>, name: seq<Byte>, data: array<Byte>, ghost chunk: seq<Byte>, start: nat, end: nat)
    returns (printed: seq<Byte>)
    requires start <= end <= |chunk| && end < data.Length && NulFree(chunk) && NulFree(s)
    requires forall k :: start <= k < end ==> data[k] == chunk[k]
    modifies data
    ensures printed == Report(name, chunk[start..end], s)
    ensures data[end] == NUL && forall k :: 0 <= k < data.Length && k != end ==> data[k] == old(data[k])
  {
    data[end] := NUL;
    SameSlice(data, chunk, start, end);
    printed := SearchLine(s, name, data, start, end);
  }

  lemma SameSlice(data: array<Byte>, chunk: seq<Byte>, start: nat, end: nat)
    requires start <= end <= |chunk| && end <= data.Length
    requires forall k :: start <= k < end ==> data[k] == chunk[k]
    ensures data[start..end] == chunk[start..end]
  {}

  /** What is left to search after the line from start to end. */
  lemma SearchedLine(name: seq<Byte>, s: seq<Byte>, chunk: seq<Byte>, beyond: seq<Byte>, start: nat, end: nat,
                     out: seq<Byte>, printed: seq<Byte>)
    returns (left: seq<Byte>)
    requires start <= end <= |chunk| <= BUFSIZE && OneLine(chunk[start..end])
    requires end < |chunk| ==> chunk[end] == NEWLINE
    requires end == |chunk| && beyond != [] ==> end - start == BUFSIZE
    requires printed == Report(name, chunk[start..end], s)
    ensures left == if end < |chunk| then chunk[end + 1..] else []
    ensures (out + printed) + InPieces(name, left + beyond, s) == out + InPieces(name, chunk[start..] + beyond, s)
  {
    left := if end < |chunk| then chunk[end + 1..] else [];
    var line, rest := chunk[start..end], chunk[end..] + beyond;
    assert chunk[start..] + beyond == line + rest;
    if end < |chunk| {
      assert rest[1..] == left + beyond;
      PiecesNewline(name, rest, s);
    } else {
      assert rest == beyond == left + beyond;
    }
    PiecesLine(name, line, rest, s);
    Regrouped(out, printed, InPieces(name, rest, s));
  }

  method FindLineEnd(data: array<Byte>, start: nat, last: nat) returns (end: nat)
    requires start <= last < data.Length
    ensures start <= end <= last && OneLine(data[start..end])
    ensures end < last ==> data[end] == NEWLINE
  {
    end := start;
    while end < last && data[end] != NEWLINE
      invariant start <= end <= last && OneLine(data[start..end])
    {
      end := end + 1;
    }
  }
}
