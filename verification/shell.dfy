// The shell's tokenizer: one command word and the rest of the line, in two bounded buffers.
module Shell {
  import opened Bytes
  import Keyboard

  const CMD_SIZE: nat := 32
  const ARGS_SIZE: nat := 224
  const SPACE: schar := Keyboard.SPACE

  // The characters before the NUL.
  function Text(s: seq<schar>): (t: seq<schar>)
    requires 0 in s
    ensures |t| < |s| && t == s[..|t|] && s[|t|] == 0 && 0 !in t
  {
    if s[0] == 0 then [] else [s[0]] + Text(s[1..])
  }

  // The first word, cut at 31 characters.
  function Word(t: seq<schar>, room: nat): (w: seq<schar>)
    ensures |w| <= room && w <= t && SPACE !in w
    ensures |w| < room && |w| < |t| ==> t[|w|] == SPACE
    decreases room
  {
    if t == [] || t[0] == SPACE || room == 0 then [] else [t[0]] + Word(t[1..], room - 1)
  }

  // The end of the run of spaces that starts at i.
  function GapEnd(t: seq<schar>, i: nat): (r: nat)
    requires i <= |t|
    ensures i <= r <= |t| && (r < |t| ==> t[r] != SPACE)
    ensures forall k :: i <= k < r ==> t[k] == SPACE
    decreases |t| - i
  {
    if i < |t| && t[i] == SPACE then GapEnd(t, i + 1) else i
  }

  function Command(t: seq<schar>): seq<schar> { Word(t, CMD_SIZE - 1) }

  function Rest(t: seq<schar>): seq<schar> { t[GapEnd(t, |Command(t)|)..] }

  function Arguments(t: seq<schar>): seq<schar> {
    if |Rest(t)| < ARGS_SIZE then Rest(t) else Rest(t)[..ARGS_SIZE - 1]
  }

  // Command, spaces and arguments put together give the line back exactly when what follows
  // the spaces fits the argument buffer; the command has no space and the arguments do not
  // start with one.
  lemma TokensExactly(t: seq<schar>)
    ensures var gap := |t| - |Command(t)| - |Rest(t)|;
            && gap >= 0
            && (t == Command(t) + seq(gap, _ => 32) + Arguments(t) <==> |Rest(t)| <= 223)
            && |Command(t)| <= 31 && |Arguments(t)| <= 223 && Arguments(t) <= Rest(t)
            && 32 !in Command(t) && (Arguments(t) != [] ==> Arguments(t)[0] != 32)
  {
  }

  // The first word, however long it is.
  function FirstWord(t: seq<schar>): seq<schar> {
    if t == [] || t[0] == SPACE then [] else [t[0]] + FirstWord(t[1..])
  }

  lemma {:induction false} WordCut(t: seq<schar>, room: nat)
    ensures Word(t, room) == if |FirstWord(t)| <= room then FirstWord(t) else FirstWord(t)[..room]
    decreases room
  {
    if t != [] && t[0] != SPACE && room > 0 { WordCut(t[1..], room - 1); }
  }

  // The command is the whole first word exactly when that has at most 31 characters; a longer
  // one is cut there.
  lemma WholeWord(t: seq<schar>)
    ensures Command(t) == FirstWord(t) <==> |FirstWord(t)| <= 31
    ensures Command(t) <= FirstWord(t)
  {
    WordCut(t, CMD_SIZE - 1);
  }

  // What the loops see at index i.
  lemma TextAt(s: seq<schar>, i: nat)
    requires 0 in s && i <= |Text(s)|
    ensures s[i] == 0 <==> i == |Text(s)|
    ensures i < |Text(s)| ==> Text(s)[i] == s[i]
  {
  }

  lemma CommandAt(s: seq<schar>, i: nat)
    requires 0 in s && i <= |Command(Text(s))|
    ensures i < |s| && (s[i] == 0 || s[i] == SPACE || i == 31 <==> i == |Command(Text(s))|)
    ensures i < |Command(Text(s))| ==> s[i] == Command(Text(s))[i]
  {
    TextAt(s, i);
    hide Text;
  }

  lemma CommandFits(s: seq<schar>)
    requires 0 in s
    ensures |Command(Text(s))| <= 31 && 0 !in Command(Text(s))
  {
    var t := Text(s);
    assert 0 !in t;
    hide Text;
  }

  // Copies the command word and ends it with a NUL; i is where it stopped reading.
  method CopyCommand(input: seq<schar>, cmd: array<schar>) returns (i: nat)
    requires 0 in input && cmd.Length == CMD_SIZE
    modifies cmd
    ensures i == |Command(Text(input))|
    ensures 0 in cmd[..] && Text(cmd[..]) == Command(Text(input))
  {
    ghost var word := Command(Text(input));
    CommandFits(input);
    hide Text, Command, Word, FirstWord;
    i := 0;
    CommandAt(input, i);
    while input[i] != 0 && input[i] != SPACE && i < 31
      invariant 0 <= i <= |word| && i < |input| && cmd[..i] == word[..i]
      decreases |word| - i
    {
      CommandAt(input, i);
      cmd[i] := input[i];
      i := i + 1;
      CommandAt(input, i);
    }
    CommandAt(input, i);
    cmd[i] := 0;
    TextOf(cmd[..], word);
  }

  // Moves past the spaces.
  method SkipGap(input: seq<schar>, from: nat) returns (i: nat)
    requires 0 in input && from <= |Text(input)|
    ensures i == GapEnd(Text(input), from)
  {
    ghost var t := Text(input);
    hide Text;
    i := from;
    TextAt(input, i);
    while input[i] == SPACE
      invariant from <= i <= |t| && GapEnd(t, from) == GapEnd(t, i)
      invariant input[i] == if i < |t| then t[i] else 0
      decreases |t| - i
    {
      i := i + 1;
      TextAt(input, i);
    }
  }

  // Copies the rest of the line, as far as it fits, and ends it with a NUL.
  method CopyArguments(input: seq<schar>, start: nat, args: array<schar>)
    requires 0 in input && start <= |Text(input)| && args.Length == ARGS_SIZE
    modifies args
    ensures var rest := Text(input)[start..];
            0 in args[..] && Text(args[..]) == if |rest| < ARGS_SIZE then rest else rest[..ARGS_SIZE - 1]
  {
    ghost var t := Text(input);
    ghost var rest := t[start..];
    hide Text;
    var i, j := start, 0;
    while input[i] != 0 && j < 223
      invariant 0 <= j <= 223 && i == start + j <= |t| && args[..j] == rest[..j]
      decreases |t| - i
    {
      TextAt(input, i);
      args[j] := input[i];
      i, j := i + 1, j + 1;
    }
    args[j] := 0;
    TextAt(input, i);
    assert 0 !in rest[..j] by { assert forall c :: c in rest[..j] ==> c in t; }
    TextOf(args[..], rest[..j]);
  }

  // shell_handle_command up to the dispatch on the command.
  method Tokenize(input: seq<schar>) returns (cmd: array<schar>, args: array<schar>)
    requires 0 in input
    ensures cmd.Length == CMD_SIZE && args.Length == ARGS_SIZE && fresh(cmd) && fresh(args)
    ensures 0 in cmd[..] && Text(cmd[..]) == Command(Text(input))
    ensures 0 in args[..] && Text(args[..]) == Arguments(Text(input))
  {
    cmd := new schar[CMD_SIZE];
    args := new schar[ARGS_SIZE];
    hide *;
    var i := CopyCommand(input, cmd);
    RestStart(Text(input));
    var start := SkipGap(input, i);
    CopyArguments(input, start, args);
  }

  lemma RestStart(t: seq<schar>)
    ensures |Command(t)| <= |t|
    ensures var rest := t[GapEnd(t, |Command(t)|)..];
            Arguments(t) == if |rest| < ARGS_SIZE then rest else rest[..ARGS_SIZE - 1]
  {
  }

  // What a buffer holds is settled by its first NUL.
  lemma TextOf(s: seq<schar>, t: seq<schar>)
    requires 0 !in t && |t| < |s| && s[..|t|] == t && s[|t|] == 0
    ensures 0 in s && Text(s) == t
  {
  }

  // On Enter the shell receives exactly the edited line: the NUL sits right behind it.
  lemma SubmittedText(e: Keyboard.Editor, submitted: seq<schar>)
    requires Keyboard.Ok(e) && e.line + [0] <= submitted
    ensures 0 in submitted && Text(submitted) == e.line
  {
    assert submitted[..|e.line|] == (e.line + [0])[..|e.line|] == e.line;
    assert submitted[|e.line|] == (e.line + [0])[|e.line|] == 0;
    TextOf(submitted, e.line);
  }
}
