// The shell's dispatch: which handler a line reaches, and the two that compute something.
module Commands {
  import opened Bytes
  import opened Shell
  import CStrings
  import Keyboard
  import Typing
  import Printer
  import HeapBlocks
  import HeapMemory
  import KernelHeap

  datatype Verb =
    | Help | Mem | Procs | Heap | Kmalloc | Clear | Info | Echo | Status | Hex | About | Reboot
    | Empty | Unknown

  // What is compared with the command word, in ASCII.
  function Name(v: Verb): (name: seq<schar>)
    requires v != Unknown
    ensures 0 !in name
  {
    match v
    case Help => [104, 101, 108, 112]
    case Mem => [109, 101, 109]
    case Procs => [112, 114, 111, 99, 115]
    case Heap => [104, 101, 97, 112]
    case Kmalloc => [107, 109, 97, 108, 108, 111, 99]
    case Clear => [99, 108, 101, 97, 114]
    case Info => [105, 110, 102, 111]
    case Echo => [101, 99, 104, 111]
    case Status => [115, 116, 97, 116, 117, 115]
    case Hex => [104, 101, 120]
    case About => [97, 98, 111, 117, 116]
    case Reboot => [114, 101, 98, 111, 111, 116]
    case Empty => []
  }

  function Ascii(s: string): seq<int> { seq(|s|, k requires 0 <= k < |s| => s[k] as int) }

  lemma NamesSpelled()
    ensures Name(Help) == Ascii("help") && Name(Mem) == Ascii("mem") && Name(Procs) == Ascii("procs")
    ensures Name(Heap) == Ascii("heap") && Name(Kmalloc) == Ascii("kmalloc") && Name(Clear) == Ascii("clear")
    ensures Name(Info) == Ascii("info") && Name(Echo) == Ascii("echo") && Name(Status) == Ascii("status")
    ensures Name(Hex) == Ascii("hex") && Name(About) == Ascii("about") && Name(Reboot) == Ascii("reboot")
    ensures Name(Empty) == Ascii("")
  {
  }

  // No two names are equal, so the order of the comparisons does not matter.
  lemma NamesDiffer(v: Verb, w: Verb)
    requires v != Unknown && w != Unknown && Name(v) == Name(w)
    ensures v == w
  {
    var a, b := Name(v), Name(w);
    assert |a| == |b| && (|a| > 0 ==> a[0] == b[0]) && (|a| > 1 ==> a[1] == b[1]) && (|a| > 2 ==> a[2] == b[2]);
  }

  // ---------------------------------------------------------------- comparison

  // The characters read as unsigned bytes.
  function AsByte(c: schar): (b: byte)
    ensures (b as int - c as int) % 256 == 0
  {
    if c < 0 then c + 256 else c
  }

  function Unsigned(t: seq<schar>): (u: seq<byte>)
    ensures |u| == |t| && forall k :: 0 <= k < |t| ==> u[k] == AsByte(t[k])
  {
    if t == [] then [] else [AsByte(t[0])] + Unsigned(t[1..])
  }

  // Reading as unsigned loses nothing, so the comparison is zero exactly on equal strings.
  lemma ZeroExactly(t: seq<schar>, u: seq<schar>)
    requires 0 !in t && 0 !in u
    ensures CStrings.Diff(Unsigned(t), Unsigned(u)) == 0 <==> t == u
  {
    var a, b := Unsigned(t), Unsigned(u);
    hide CStrings.Diff, Unsigned;
    assert forall k :: 0 <= k < |t| ==> a[k] == AsByte(t[k]) && t[k] in t;
    assert forall k :: 0 <= k < |u| ==> b[k] == AsByte(u[k]) && u[k] in u;
    CStrings.DiffZeroExactly(a, b);
    if a == b {
      forall k | 0 <= k < |t| ensures t[k] == u[k] { assert a[k] == b[k]; }
    }
  }

  // The comparison loop at position i of both strings.
  lemma CompareStep(s1: seq<schar>, s2: seq<schar>)
    requires 0 in s1 && 0 in s2
    ensures var d := CStrings.Diff(Unsigned(Text(s1)), Unsigned(Text(s2)));
            if s1[0] != 0 && s1[0] == s2[0] then
              0 in s1[1..] && 0 in s2[1..] && d == CStrings.Diff(Unsigned(Text(s1[1..])), Unsigned(Text(s2[1..])))
            else d == AsByte(s1[0]) - AsByte(s2[0])
  {
    TextStep(s1);
    TextStep(s2);
    hide Text, Unsigned, AsByte;
  }

  lemma TextStep(s: seq<schar>)
    requires 0 in s
    ensures s[0] == 0 ==> Unsigned(Text(s)) == [] && AsByte(s[0]) == 0
    ensures s[0] != 0 ==> 0 in s[1..] && Unsigned(Text(s)) == [AsByte(s[0])] + Unsigned(Text(s[1..]))
  {
    if s[0] != 0 { assert Text(s)[0] == s[0] && Text(s)[1..] == Text(s[1..]); }
  }

  method StringCompare(s1: seq<schar>, s2: seq<schar>) returns (r: int)
    requires 0 in s1 && 0 in s2
    ensures r == CStrings.Diff(Unsigned(Text(s1)), Unsigned(Text(s2)))
  {
    hide Text, Unsigned, CStrings.Diff;
    ghost var d := CStrings.Diff(Unsigned(Text(s1)), Unsigned(Text(s2)));
    var i := 0;
    assert s1[0..] == s1 && s2[0..] == s2;
    CompareStep(s1, s2);
    while s1[i] != 0 && s1[i] == s2[i]
      invariant i < |s1| && i < |s2| && 0 in s1[i..] && 0 in s2[i..]
      invariant d == CStrings.Diff(Unsigned(Text(s1[i..])), Unsigned(Text(s2[i..])))
      decreases |s1| - i
    {
      CompareStep(s1[i..], s2[i..]);
      assert s1[i..][1..] == s1[i + 1..] && s2[i..][1..] == s2[i + 1..];
      i := i + 1;
    }
    CompareStep(s1[i..], s2[i..]);
    return AsByte(s1[i]) - AsByte(s2[i]);
  }

  // Comparison with the literal that names v.
  method Is(cmd: seq<schar>, v: Verb) returns (same: bool)
    requires 0 in cmd && v != Unknown
    ensures same <==> Text(cmd) == Name(v)
    ensures same ==> forall w :: w != Unknown ==> (v == w <==> Text(cmd) == Name(w))
  {
    var name := Name(v);
    hide Text, Unsigned, CStrings.Diff, Name;
    var d := StringCompare(cmd, name + [0]);
    TextOf(name + [0], name);
    ZeroExactly(Text(cmd), name);
    if d == 0 {
      forall w | w != Unknown && Name(w) == name ensures w == v { NamesDiffer(v, w); }
    }
    return d == 0;
  }

  // The chain of comparisons reaches the handler whose name the word is, and no other.
  method Dispatch(cmd: seq<schar>) returns (verb: Verb)
    requires 0 in cmd
    ensures forall w :: w != Unknown ==> (verb == w <==> Text(cmd) == Name(w))
  {
    hide Text, Name;
    var hit: bool;
    hit := Is(cmd, Help);
    if hit { return Help; }
    hit := Is(cmd, Mem);
    if hit { return Mem; }
    hit := Is(cmd, Procs);
    if hit { return Procs; }
    hit := Is(cmd, Heap);
    if hit { return Heap; }
    hit := Is(cmd, Kmalloc);
    if hit { return Kmalloc; }
    hit := Is(cmd, Clear);
    if hit { return Clear; }
    hit := Is(cmd, Info);
    if hit { return Info; }
    hit := Is(cmd, Echo);
    if hit { return Echo; }
    hit := Is(cmd, Status);
    if hit { return Status; }
    hit := Is(cmd, Hex);
    if hit { return Hex; }
    hit := Is(cmd, About);
    if hit { return About; }
    hit := Is(cmd, Reboot);
    if hit { return Reboot; }
    hit := Is(cmd, Empty);
    return if hit then Empty else Unknown;
  }

  // ---------------------------------------------------------------- handlers

  // What `kmalloc` tells the user; a NULL is reported like any other address.
  function Allocated(size: nat, ptr: nat): string {
    if size == 0 then "\nUsage: kmalloc <size>\n"
    else "\nAllocated " + Numeral(size) + " bytes at " + Numeral(ptr) + "\n"
  }

  function Numeral(v: nat): string { "0x" + Printer.HexDigits(v) }

  // The message names the size first and the address second, both readable back.
  lemma AllocatedSays(size: nat, ptr: nat)
    ensures size == 0 ==> Allocated(size, ptr) == "\nUsage: kmalloc <size>\n"
    ensures size > 0 ==>
              exists x, y ::
                && Allocated(size, ptr) == "\nAllocated 0x" + x + " bytes at 0x" + y + "\n"
                && Printer.HexValue(x) == size && Printer.HexValue(y) == ptr
  {
    var x, y := Printer.HexDigits(size), Printer.HexDigits(ptr);
    Printer.HexRoundTrip(size);
    Printer.HexRoundTrip(ptr);
    hide Printer.HexDigits, Printer.HexValue, Printer.Minimal;
    SpliceNumerals(x, y);
  }

  lemma SpliceNumerals(x: string, y: string)
    ensures "\nAllocated " + ("0x" + x) + " bytes at " + ("0x" + y) + "\n"
            == "\nAllocated 0x" + x + " bytes at 0x" + y + "\n"
  {
    assert "\nAllocated " + ("0x" + x) == "\nAllocated 0x" + x;
    assert "\nAllocated 0x" + x + " bytes at " + ("0x" + y) == "\nAllocated 0x" + x + " bytes at 0x" + y;
  }

  // The number an argument stands for: its leading digits modulo 2^64.
  function Number(args: seq<schar>): (n: nat)
    ensures n < WORD
  {
    Printer.DecValue(Printer.LeadingDigits(args)) % WORD
  }

  method Report(size: nat, ptr: nat) returns (out: string)
    requires size < WORD && ptr < WORD
    ensures out == Allocated(size, ptr)
  {
    if size == 0 { return "\nUsage: kmalloc <size>\n"; }
    var a := Printer.PrintHex(size);
    var b := Printer.PrintHex(ptr);
    return "\nAllocated " + a + " bytes at " + b + "\n";
  }

  // What a valid heap gives the handlers.
  lemma HeapFacts(heap: KernelHeap.Heap, size: nat)
    requires heap.Valid() && size < WORD
    ensures |heap.ram[..]| == HeapMemory.RAM_SIZE && HeapBlocks.Heap(heap.blocks)
    ensures HeapBlocks.Kmalloc(heap.blocks, size).1 < WORD
    ensures HeapBlocks.Kmalloc(heap.blocks, 0) == (heap.blocks, 0)
    ensures HeapMemory.KmallocImage(heap.ram[..], heap.blocks, 0) == heap.ram[..]
  {
    if HeapBlocks.Kmalloc(heap.blocks, size).1 != 0 {
      var b := HeapBlocks.Granted(heap.blocks, size);
    }
  }

  lemma EndsInDigits(s: seq<schar>)
    requires 0 in s
    ensures exists k :: 0 <= k < |s| && !Printer.IsDigit(s[k])
  {
    var k :| 0 <= k < |s| && s[k] == 0;
    assert !Printer.IsDigit(s[k]);
  }

  lemma NumberIs(s: seq<schar>)
    ensures Number(s) == Printer.DecValue(Printer.LeadingDigits(s)) % WORD
  {
  }

  method CmdKmalloc(args: array<schar>, heap: KernelHeap.Heap) returns (out: string)
    requires heap.Valid() && 0 in args[..]
    modifies heap, heap.ram
    ensures heap.Valid()
    ensures var n := Number(args[..]);
            && heap.blocks == HeapBlocks.Kmalloc(old(heap.blocks), n).0
            && heap.ram[..] == HeapMemory.KmallocImage(old(heap.ram[..]), old(heap.blocks), n)
            && out == Allocated(n, HeapBlocks.Kmalloc(old(heap.blocks), n).1)
  {
    hide *;
    EndsInDigits(args[..]);
    var size := Printer.ReadDecimal(args);
    NumberIs(args[..]);
    HeapFacts(heap, size);
    var ptr := 0;
    if size > 0 { ptr := heap.Kmalloc(size); }
    out := Report(size, ptr);
  }

  // One line, from the text to the heap and the screen. out is what `hex` and `kmalloc` print;
  // the other handlers only print what they are given or what other modules know.
  method HandleCommand(input: seq<schar>, heap: KernelHeap.Heap) returns (verb: Verb, out: string)
    requires heap.Valid() && 0 in input
    modifies heap, heap.ram
    ensures heap.Valid()
    ensures forall w :: w != Unknown ==> (verb == w <==> Command(Text(input)) == Name(w))
    ensures var n := if verb == Kmalloc then Number(Arguments(Text(input))) else 0;
            && heap.blocks == HeapBlocks.Kmalloc(old(heap.blocks), n).0
            && heap.ram[..] == HeapMemory.KmallocImage(old(heap.ram[..]), old(heap.blocks), n)
            && (verb == Kmalloc ==> out == Allocated(n, HeapBlocks.Kmalloc(old(heap.blocks), n).1))
    ensures verb == Hex ==> out == "\nHex: 0x" + Printer.HexDigits(Number(Arguments(Text(input)))) + "\n"
  {
    HeapFacts(heap, 0);
    hide KernelHeap.Heap.Valid, HeapMemory.KmallocImage, HeapBlocks.Kmalloc, Printer.LeadingDigits, Printer.DecValue;
    hide Printer.HexDigits;
    if input[0] == 0 {
      EmptyLine(input);
      return Empty, "";
    }
    var cmd, args := Tokenize(input);
    verb := Dispatch(cmd[..]);
    out := "";
    DigitsOfText(args[..]);
    if verb == Kmalloc {
      out := CmdKmalloc(args, heap);
    } else if verb == Hex {
      out := Printer.CmdHex(args);
    }
  }

  lemma EmptyLine(input: seq<schar>)
    requires 0 in input && input[0] == 0
    ensures forall w :: w != Unknown ==> (Empty == w <==> Command(Text(input)) == Name(w))
  {
    assert Command(Text(input)) == [];
  }

  lemma {:induction false} DigitsOfText(s: seq<schar>)
    requires 0 in s
    ensures Printer.LeadingDigits(s) == Printer.LeadingDigits(Text(s))
  {
    if s[0] != 0 {
      DigitsOfText(s[1..]);
      assert Text(s)[1..] == Text(s[1..]);
    }
  }

  // ---------------------------------------------------------------- what can be typed

  // A written number reads as itself, modulo 2^64, whatever follows it that is no digit.
  lemma NumberOf(v: nat, rest: seq<schar>)
    requires rest == [] || rest[0] < 48 || rest[0] > 57
    ensures Number(Printer.DecDigits(v) + rest) == v % WORD
  {
    Printer.DigitsEnd(Printer.DecDigits(v), rest);
    Printer.DecRoundTrip(v);
  }

  // A command word, one space and an argument are taken apart again.
  lemma TakenApart(word: seq<schar>, arg: seq<schar>)
    requires |word| <= 31 && 32 !in word && |arg| <= 223 && arg != [] && arg[0] != 32
    ensures Command(word + [32] + arg) == word && Arguments(word + [32] + arg) == arg
  {
    var t := word + [32] + arg;
    FirstWordIs(word, [32] + arg);
    assert word + ([32] + arg) == t;
    WholeWord(t);
    assert GapEnd(t, |word| + 1) == |word| + 1;
    assert t[|word| + 1..] == arg;
    hide Command, FirstWord, Word;
  }

  lemma {:induction false} FirstWordIs(word: seq<schar>, rest: seq<schar>)
    requires 32 !in word && (rest == [] || rest[0] == 32)
    ensures FirstWord(word + rest) == word
  {
    if word == [] {
      assert word + rest == rest;
    } else {
      assert (word + rest)[1..] == word[1..] + rest;
      FirstWordIs(word[1..], rest);
    }
  }

  // The x of `hex` cannot be typed, so no stream of scancodes reaches that command.
  lemma HexNeverTyped(codes: seq<nat>)
    ensures Command(Keyboard.Run(Keyboard.START, codes).line) != Name(Hex)
  {
    var line := Keyboard.Run(Keyboard.START, codes).line;
    Typing.OnlyTypable(codes);
    WholeWord(line);
    hide Keyboard.Run, FirstWord, Command;
    CommandIsPrefix(line);
    assert Name(Hex)[2] == 120 && (|line| > 2 ==> Typing.Typable(line[2]));
  }

  lemma CommandIsPrefix(t: seq<schar>)
    ensures Command(t) <= t
  {
  }

  // Every other command can be typed.
  lemma CommandTypedExactly(v: Verb)
    requires v != Unknown
    ensures (exists codes :: Command(Keyboard.Run(Keyboard.START, codes).line) == Name(v)) <==> v != Hex
  {
    if v == Hex {
      forall codes ensures Command(Keyboard.Run(Keyboard.START, codes).line) != Name(v) { HexNeverTyped(codes); }
    } else {
      NamesTypable(v);
      FirstWordIs(Name(v), []);
      assert Name(v) + [] == Name(v);
      WholeWord(Name(v));
      hide Name, Command, FirstWord, Typing.AllTypable, Keyboard.Run;
      var codes := Typing.TypeLine(Name(v));
    }
  }

  lemma NamesTypable(v: Verb)
    requires v != Unknown && v != Hex
    ensures Typing.AllTypable(Name(v)) && |Name(v)| <= 31 && 32 !in Name(v)
  {
  }

  // Every 64-bit number can be asked of kmalloc from the keyboard.
  lemma KmallocTyped(v: nat) returns (codes: seq<nat>)
    requires v < WORD
    ensures var line := Keyboard.Run(Keyboard.START, codes).line;
            Command(line) == Name(Kmalloc) && Number(Arguments(line)) == v
  {
    var arg := Printer.DecDigits(v);
    var line := Name(Kmalloc) + [32] + arg;
    hide Name, Number, Command, Arguments, Printer.DecDigits, Keyboard.Run;
    ArgumentFits(v);
    NamesTypable(Kmalloc);
    TakenApart(Name(Kmalloc), arg);
    hide Typing.AllTypable;
    LineTypable(Name(Kmalloc), arg);
    codes := Typing.TypeLine(line);
  }

  lemma LineTypable(word: seq<schar>, arg: seq<schar>)
    requires Typing.AllTypable(word) && forall k :: 0 <= k < |arg| ==> 48 <= arg[k] <= 57
    ensures Typing.AllTypable(word + [32] + arg)
  {
  }

  lemma ArgumentFits(v: nat)
    requires v < WORD
    ensures |Printer.DecDigits(v)| <= 20 && Number(Printer.DecDigits(v)) == v
  {
    var arg, limit := Printer.DecDigits(v), 100_000_000_000_000_000_000;
    NumberOf(v, []);
    assert arg + [] == arg;
    TwentyDigits();
    hide Printer.Pow10, Printer.DecDigits;
    Printer.DecLength(v, 20, limit);
  }

  lemma TwentyDigits()
    ensures Printer.Pow10(20) == 100_000_000_000_000_000_000
  {
    TenTimes(0);
    TenTimes(5);
    TenTimes(10);
    TenTimes(15);
    assert Printer.Pow10(0) == 1;
    hide Printer.Pow10;
  }

  lemma TenTimes(n: nat)
    ensures Printer.Pow10(n + 5) == 100_000 * Printer.Pow10(n)
  {
    assert Printer.Pow10(n + 5) == 100 * Printer.Pow10(n + 3);
    assert Printer.Pow10(n + 3) == 100 * Printer.Pow10(n + 1);
  }
}
