/**
 How execute of student-distrib/syscall.c splits a command line and how getargs hands the
 argument to the program.
 */
module Command {
  import opened Bytes
  import opened Support

  const MAX_TERMINAL: nat := 128

  // ---------------------------------------------------------------------------------
  // The words of a line
  // ---------------------------------------------------------------------------------

  /** The first place from i on that is not a space. */
  function SpacesEnd(line: seq<Byte>, i: nat): (n: nat)
    requires i <= |line|
    ensures i <= n <= |line| && (n < |line| ==> line[n] != SPACE)
    ensures forall k :: i <= k < n ==> line[k] == SPACE
    decreases |line| - i
  {
    if i == |line| || line[i] != SPACE then i else SpacesEnd(line, i + 1)
  }

  /** The first place from i on that is a space. */
  function WordEnd(line: seq<Byte>, i: nat): (n: nat)
    requires i <= |line|
    ensures i <= n <= |line| && (n < |line| ==> line[n] == SPACE)
    ensures forall k :: i <= k < n ==> line[k] != SPACE
    decreases |line| - i
  {
    if i == |line| || line[i] == SPACE then i else WordEnd(line, i + 1)
  }

  function FirstEnd(line: seq<Byte>): (n: nat)
    ensures n <= |line|
  {
    WordEnd(line, SpacesEnd(line, 0))
  }

  /** The first word of a line, or nothing. */
  function First(line: seq<Byte>): seq<Byte> {
    line[SpacesEnd(line, 0)..FirstEnd(line)]
  }

  function Second(line: seq<Byte>): seq<Byte> {
    var start := SpacesEnd(line, FirstEnd(line));
    line[start..WordEnd(line, start)]
  }

  /** As much of a command as execute looks at. */
  function Seen(command: seq<Byte>): seq<Byte> {
    if |command| <= 128 then command else command[..128]
  }

  predicate Blank(s: seq<Byte>) { forall k :: 0 <= k < |s| ==> s[k] == SPACE }

  predicate Word(s: seq<Byte>) { s != [] && forall k :: 0 <= k < |s| ==> s[k] != SPACE }

  lemma WordAfter(line: seq<Byte>, i: nat, gap: seq<Byte>, word: seq<Byte>, tail: seq<Byte>)
    requires i <= |line| && line[i..] == gap + word + tail
    requires Blank(gap) && Word(word) && (tail == [] || tail[0] == SPACE)
    ensures var start := SpacesEnd(line, i);
      start == i + |gap| && WordEnd(line, start) == start + |word| && line[start..start + |word|] == word
  {
    var (from, to) := (i + |gap|, i + |gap| + |word|);
    forall k | i <= k < from ensures line[k] == SPACE {
      assert line[i..][k - i] == gap[k - i];
    }
    forall k | from <= k < to ensures line[k] == word[k - from] {
      assert line[i..][k - i] == word[k - from];
    }
    if to < |line| {
      assert line[i..][to - i] == tail[0];
    }
    assert line[from] == word[0];
    assert line[from..to] == word;
  }

  /** For any spacing, the first two words of a line are the name and the argument. */
  lemma TwoWords(lead: seq<Byte>, name: seq<Byte>, gap: seq<Byte>, argument: seq<Byte>, tail: seq<Byte>)
    requires Blank(lead) && Word(name) && Blank(gap) && gap != [] && Word(argument)
    requires tail == [] || tail[0] == SPACE
    ensures var line := lead + name + (gap + argument + tail);
      First(line) == name && Second(line) == argument
  {
    var rest := gap + argument + tail;
    var line := lead + name + rest;
    var end := |lead| + |name|;
    assert line[0..] == line && line[end..] == rest;
    assert rest[0] == gap[0];
    WordAfter(line, 0, lead, name, rest);
    assert FirstEnd(line) == end;
    WordAfter(line, end, gap, argument, tail);
  }

  // ---------------------------------------------------------------------------------
  // The code
  // ---------------------------------------------------------------------------------

  /** The loops that skip spaces. */
  method SkipSpaces(command: seq<Byte>, start: nat) returns (pos: nat)
    requires start <= |Seen(command)|
    ensures pos == SpacesEnd(Seen(command), start)
  {
    pos := start;
    while pos < |command| && command[pos] == SPACE && pos < MAX_TERMINAL
      invariant start <= pos <= |Seen(command)|
      invariant SpacesEnd(Seen(command), pos) == SpacesEnd(Seen(command), start)
    {
      pos := pos + 1;
    }
  }

  /** The loops that copy a word into a zeroed buffer. */
  method CopyWord(command: seq<Byte>, start: nat, buf: array<Byte>) returns (pos: nat)
    requires NulFree(command) && start <= |Seen(command)| && buf.Length == 128
    requires forall k :: 0 <= k < 128 ==> buf[k] == NUL
    modifies buf
    ensures pos == WordEnd(Seen(command), start) && pos - start <= 128
    ensures buf[..pos - start] == Seen(command)[start..pos]
    ensures forall k :: 0 <= k < 128 ==> (buf[k] == NUL <==> pos - start <= k)
  {
    pos := start;
    while pos < |command| && command[pos] != SPACE && pos < MAX_TERMINAL
      invariant start <= pos <= |Seen(command)|
      invariant WordEnd(Seen(command), pos) == WordEnd(Seen(command), start)
      invariant buf[..pos - start] == Seen(command)[start..pos]
      invariant forall k :: 0 <= k < 128 ==> (buf[k] == NUL <==> pos - start <= k)
    {
      buf[pos - start] := command[pos];
      pos := pos + 1;
    }
  }

  /** Terminates a string and copies it, terminator included. */
  method CopyString(from: array<Byte>, to: array<Byte>, len: nat)
    requires len < from.Length <= to.Length && from != to && forall k :: 0 <= k < len ==> from[k] != NUL
    modifies from, to
    ensures StringAt(to, 0, len) && to[..len] == old(from[..len])
  {
    from[len] := NUL;
    forall k | 0 <= k < len + 1 {
      to[k] := from[k];
    }
    assert to[..len] == old(from[..len]);
  }

  /**
   The parsing part of execute: the program's name and its argument are the first two words
   of what is seen of the command. Without an argument the code copies into argv a number of
   bytes computed from unrelated pointers; given is false then and argv is left out.
   */
  method ParseCommand(command: seq<Byte>, fileName: array<Byte>, argument: array<Byte>, argv: array<Byte>)
    returns (ok: bool, given: bool, ghost end: nat)
    requires NulFree(command)
    requires fileName.Length == argument.Length == argv.Length == 128
    requires fileName != argument && fileName != argv && argument != argv
    requires forall k :: 0 <= k < 128 ==> fileName[k] == argument[k] == NUL
    modifies fileName, argument, argv
    ensures !ok <==> SpacesEnd(Seen(command), 0) == |command|
    ensures ok ==> |First(Seen(command))| <= 128 && fileName[..|First(Seen(command))|] == First(Seen(command))
    ensures ok ==> forall k :: |First(Seen(command))| <= k < 128 ==> fileName[k] == NUL
    ensures ok && |command| < 128 ==> First(command) != [] && (given <==> Second(command) != [])
    ensures ok && given ==> StringAt(argv, 0, end) && argv[..end] == Second(Seen(command))
  {
    end := 0;
    var pos := SkipSpaces(command, 0);
    if pos == |command| { return false, false, 0; }
    pos := CopyWord(command, pos, fileName);
    assert fileName[..|First(Seen(command))|] == First(Seen(command));
    pos := SkipSpaces(command, pos);
    if pos == |command| { return true, false, 0; }
    var start := pos;
    pos := CopyWord(command, start, argument);
    CopyString(argument, argv, pos - start);
    return true, true, pos - start;
  }

  /**
   getargs, for a buffer in the program's page. The terminator goes to place last, which is
   one behind the count bytes asked for unless the argument is shorter.
   */
  method GetArgs(argv: array<Byte>, buf: array<Byte>, count: int, ghost end: nat) returns (ghost last: nat)
    requires StringAt(argv, 0, end) && argv != buf
    requires (if end < count then end else if count < 0 then 0 else count) < buf.Length
    modifies buf
    ensures last == if end < count then end else if count < 0 then 0 else count
    ensures last < count <==> end < count
    ensures buf[..last] == argv[..last] && buf[last] == NUL
    ensures forall k :: last < k < buf.Length ==> buf[k] == old(buf[k])
  {
    var i := 0;
    while argv[i] != NUL && i < count
      invariant 0 <= i <= end && (i <= count || i == 0)
      invariant forall k :: 0 <= k < i ==> buf[k] == argv[k]
      invariant forall k :: i <= k < buf.Length ==> buf[k] == old(buf[k])
      decreases count - i
    {
      buf[i] := argv[i];
      i := i + 1;
    }
    buf[i] := NUL;
    assert buf[..i] == argv[..i];
    last := i;
  }
}
