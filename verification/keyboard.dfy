// The keyboard driver's line editor: scancodes in, a bounded command line out.
module Keyboard {
  import opened Bytes

  // A char is a signed byte; the compiler packs the UTF-8 bytes of a character constant such
  // as 'á' into an int, which assignment to a char truncates.
  function ToChar(code: int): schar {
    var b := code % 256;
    if b < 128 then b else b - 256
  }

  const CEDILLA := 0xC3A7
  const CEDILLA_UPPER := 0xC387
  const DIAERESIS := 0xC2A8
  const ACUTE := 0xC2B4
  const GRAVE := 0x60
  const CIRCUMFLEX := 0x5E
  const TILDE := 0x7E
  const TAB := 9
  const SPACE := 32
  const CMD_MAX: nat := 255

  // The two tables of 60 keys, 15 keys to the row.
  const NORMAL_1: seq<schar> := [0, 0, 49, 50, 51, 52, 53, 54, 55, 56, 57, 48, 45, 61, 8]
  const NORMAL_2: seq<schar> := [9, 113, 119, 101, 114, 116, 121, 117, 105, 111, 112, 91, 93, 10, 0]
  const NORMAL_3: seq<schar> := [97, 115, 100, 102, 103, 104, 106, 107, 108, 59, 39, 96, 0, 92, 122]
  const NORMAL_4: seq<schar> := [120, 99, 118, 98, 110, 109, 44, 46, 47, 0, 0, 0, 32, 0, 0]
  const NORMAL: seq<schar> := NORMAL_1 + NORMAL_2 + NORMAL_3 + NORMAL_4

  const SHIFTED_1: seq<schar> := [0, 0, 33, 64, 35, 36, 37, ToChar(DIAERESIS), 38, 42, 40, 41, 95, 43, 8]
  const SHIFTED_2: seq<schar> := [9, 81, 87, 69, 82, 84, 89, 85, 73, 79, 80, 123, 125, 10, 0]
  const SHIFTED_3: seq<schar> := [65, 83, 68, 70, 71, 72, 74, 75, 76, 58, 34, 126, 0, 124, 90]
  const SHIFTED_4: seq<schar> := [88, 67, 86, 66, 78, 77, 60, 62, 63, 0, 0, 0, 32, 0, 0]
  const SHIFTED: seq<schar> := SHIFTED_1 + SHIFTED_2 + SHIFTED_3 + SHIFTED_4

  // The character a key stands for, with the four ABNT2 keys in front of the common table.
  function Ascii(shift: bool, key: nat): schar {
    if key == 0x27 then ToChar(if shift then CEDILLA_UPPER else CEDILLA)
    else if key == 0x29 then if shift then CIRCUMFLEX else TILDE
    else if key == 0x2C then if shift then TILDE else CIRCUMFLEX
    else if key == 0x2D then if shift then GRAVE else ToChar(ACUTE)
    else if key < 60 then (if shift then SHIFTED[key] else NORMAL[key])
    else 0
  }

  predicate Letter(c: int) { 97 <= c <= 122 }

  // handle_dead_key: the accented letter where the accent takes one, else the letter itself.
  function HandleDeadKey(base: schar, accent: schar): schar {
    if accent == ACUTE then
      if base == 97 then ToChar(0xC3A1) else if base == 101 then ToChar(0xC3A9)
      else if base == 105 then ToChar(0xC3AD) else if base == 111 then ToChar(0xC3B3)
      else if base == 117 then ToChar(0xC3BA) else if base == 65 then ToChar(0xC381)
      else if base == 69 then ToChar(0xC389) else if base == 73 then ToChar(0xC38D)
      else if base == 79 then ToChar(0xC393) else if base == 85 then ToChar(0xC39A)
      else base
    else if accent == GRAVE then
      if base == 97 then ToChar(0xC3A0) else if base == 101 then ToChar(0xC3A8)
      else if base == 105 then ToChar(0xC3AC) else if base == 111 then ToChar(0xC3B2)
      else if base == 117 then ToChar(0xC3B9) else if base == 65 then ToChar(0xC380)
      else if base == 69 then ToChar(0xC388) else if base == 73 then ToChar(0xC38C)
      else if base == 79 then ToChar(0xC392) else if base == 85 then ToChar(0xC399)
      else base
    else if accent == CIRCUMFLEX then
      if base == 97 then ToChar(0xC3A2) else if base == 101 then ToChar(0xC3AA)
      else if base == 105 then ToChar(0xC3AE) else if base == 111 then ToChar(0xC3B4)
      else if base == 117 then ToChar(0xC3BB) else if base == 65 then ToChar(0xC382)
      else if base == 69 then ToChar(0xC38A) else if base == 73 then ToChar(0xC38E)
      else if base == 79 then ToChar(0xC394) else if base == 85 then ToChar(0xC39B)
      else base
    else if accent == TILDE then
      if base == 97 then ToChar(0xC3A3) else if base == 110 then ToChar(0xC3B1)
      else if base == 111 then ToChar(0xC3B5) else if base == 65 then ToChar(0xC383)
      else if base == 78 then ToChar(0xC391) else if base == 79 then ToChar(0xC395)
      else base
    else base
  }

  // ---------------------------------------------------------------- the line model

  datatype Modifiers = Modifiers(shift: bool, ctrl: bool, alt: bool, caps: bool, num: bool, scroll: bool)

  // dead and deadChar are the pending accent key.
  datatype Editor = Editor(line: seq<schar>, dead: bool, deadChar: schar, mods: Modifiers)

  // What a scancode means to the line.
  datatype Edit = Keep | Append(chars: seq<schar>) | RubOut | Submit | Cancel

  const START: Editor := Editor([], false, 0, Modifiers(false, false, false, false, false, false))

  // Push, bounded by the buffer, and pop.
  function Apply(line: seq<schar>, edit: Edit): seq<schar> {
    match edit
    case Keep => line
    case Append(cs) => if |line + cs| <= CMD_MAX then line + cs else (line + cs)[..CMD_MAX]
    case RubOut => if line == [] then [] else line[..|line| - 1]
    case Submit => []
    case Cancel => []
  }

  // What is stored for a character: nothing unless it is printable or a tab.
  function Stored(mods: Modifiers, c: schar): seq<schar> {
    if SPACE <= c <= 126 then
      [if mods.caps && !mods.shift && Letter(c) then c - 97 + 65 else c]
    else if c == TAB then [TAB] else []
  }

  predicate IsAccent(c: int) { c == ACUTE || c == GRAVE || c == CIRCUMFLEX || c == TILDE }

  // An ordinary key going down: the edit, and the pending accent afterwards.
  function TypeKey(e: Editor, key: nat): (Edit, bool, schar) {
    var c := Ascii(e.mods.shift, key);
    if e.dead && Letter(c) then
      var accented := HandleDeadKey(c, e.deadChar);
      if accented != c then
        if IsAccent(accented) then (Keep, true, accented)
        else (Append(Stored(e.mods, accented)), false, e.deadChar)
      else (Append([e.deadChar] + Stored(e.mods, c)), false, e.deadChar)
    else if !e.dead && IsAccent(c) then (Keep, true, c)
    else (Append(Stored(e.mods, c)), e.dead, e.deadChar)
  }

  function Scan(e: Editor, scancode: nat): (Editor, Edit) {
    var key, pressed := scancode % 128, scancode < 128;
    var m := e.mods;
    if key == 0x2A || key == 0x36 then (e.(mods := m.(shift := pressed)), Keep)
    else if key == 0x1D then (e.(mods := m.(ctrl := pressed)), Keep)
    else if key == 0x38 then (e.(mods := m.(alt := pressed)), Keep)
    else if !pressed then (e, Keep)
    else if key == 0x3A then (e.(mods := m.(caps := !m.caps)), Keep)
    else if key == 0x45 then (e.(mods := m.(num := !m.num)), Keep)
    else if key == 0x46 then (e.(mods := m.(scroll := !m.scroll)), Keep)
    else if key == 0x1C then (e.(dead := false, line := Apply(e.line, Submit)), Submit)
    else if key == 0x0E then (e.(dead := false, line := Apply(e.line, RubOut)), RubOut)
    else if key == 0x0F then (e.(dead := false, line := Apply(e.line, Append([TAB]))), Append([TAB]))
    else if key == 0x01 then (e.(dead := false, line := Apply(e.line, Cancel)), Cancel)
    else
      var (edit, dead, deadChar) := TypeKey(e, key);
      (e.(line := Apply(e.line, edit), dead := dead, deadChar := deadChar), edit)
  }

  function Run(e: Editor, codes: seq<nat>): Editor {
    if codes == [] then e else Scan(Run(e, codes[..|codes| - 1]), codes[|codes| - 1]).0
  }

  // ---------------------------------------------------------------- what each key means

  // The keys as they are printed on the keyboard, row by row.
  lemma Layout(k: nat)
    ensures k < 12 ==> Ascii(false, 0x02 + k) == "1234567890-="[k] as int
    ensures k < 12 ==> Ascii(false, 0x10 + k) == "qwertyuiop[]"[k] as int
    ensures k < 9 ==> Ascii(false, 0x1E + k) == "asdfghjkl"[k] as int
    ensures k < 8 ==> Ascii(false, 0x2E + k) == "cvbnm,./"[k] as int
    ensures Ascii(false, 0x28) == '\'' as int && Ascii(false, 0x2B) == '\\' as int && Ascii(false, 0x39) == ' ' as int
  {
  }

  lemma ShiftedSigns(k: nat)
    ensures k < 5 ==> Ascii(true, 0x02 + k) == "!@#$%"[k] as int
    ensures k < 6 ==> Ascii(true, 0x08 + k) == "&*()_+"[k] as int
  {
  }

  lemma ShiftedUpperRow(k: nat)
    ensures k < 12 ==> Ascii(true, 0x10 + k) == "QWERTYUIOP{}"[k] as int
  {
  }

  lemma ShiftedLowerRows(k: nat)
    ensures k < 9 ==> Ascii(true, 0x1E + k) == "ASDFGHJKL"[k] as int
    ensures k < 8 ==> Ascii(true, 0x2E + k) == "CVBNM<>?"[k] as int
    ensures Ascii(true, 0x28) == '"' as int && Ascii(true, 0x2B) == '|' as int && Ascii(true, 0x39) == ' ' as int
  {
  }

  // Three accent keys, of which two stand where the table has z and x; the keys that give nothing
  // one can store.
  lemma AccentKeys(shift: bool, key: nat)
    ensures Ascii(false, 0x29) == '~' as int == Ascii(true, 0x2C)
    ensures Ascii(true, 0x29) == '^' as int == Ascii(false, 0x2C)
    ensures Ascii(true, 0x2D) == '`' as int && Ascii(false, 0x2D) < 0
    ensures Ascii(shift, 0x27) < 0 && Ascii(true, 0x07) < 0
    ensures key == 0x2A || key == 0x36 || key == 0x37 || key == 0x38 || key > 0x39 ==> Ascii(shift, key) == 0
  {
    assert ToChar(DIAERESIS) == -88;
  }

  // Which letters an accent changes, and into what: the second byte of the letter's UTF-8 form.
  lemma AccentTable(c: schar, k: nat)
    requires Letter(c)
    ensures HandleDeadKey(c, GRAVE) != c <==> c as char in "aeiou"
    ensures HandleDeadKey(c, CIRCUMFLEX) != c <==> c as char in "aeiou"
    ensures HandleDeadKey(c, TILDE) != c <==> c as char in "ano"
    ensures k < 5 ==> HandleDeadKey("aeiou"[k] as int, GRAVE) == "\U{E0}\U{E8}\U{EC}\U{F2}\U{F9}"[k] as int - 0x140
    ensures k < 5 ==> HandleDeadKey("aeiou"[k] as int, CIRCUMFLEX) == "\U{E2}\U{EA}\U{EE}\U{F4}\U{FB}"[k] as int - 0x140
    ensures k < 3 ==> HandleDeadKey("ano"[k] as int, TILDE) == "\U{E3}\U{F1}\U{F5}"[k] as int - 0x140
  {
  }

  // Shift, control and alt hold while they are down; the locks change on every press. None of
  // them, and no release of a key, touches the line or a pending accent.
  lemma ModifierKeys(e: Editor, code: nat)
    requires code < 256
    ensures var (t, m) := (Scan(e, code).0, e.mods);
            && (t.mods.shift <==> code == 0x2A || code == 0x36 || (m.shift && code != 0xAA && code != 0xB6))
            && (t.mods.ctrl <==> code == 0x1D || (m.ctrl && code != 0x9D))
            && (t.mods.alt <==> code == 0x38 || (m.alt && code != 0xB8))
            && (t.mods.caps <==> m.caps != (code == 0x3A))
            && (t.mods.num <==> m.num != (code == 0x45))
            && (t.mods.scroll <==> m.scroll != (code == 0x46))
            && (code in {0x1D, 0x2A, 0x36, 0x38, 0x3A, 0x45, 0x46} || code >= 0x80 ==>
                  t == e.(mods := t.mods) && Scan(e, code).1 == Keep)
  {
    hide TypeKey, Apply;
    if code < 0x80 { Pressed(e, code); } else { Released(e, code); }
    hide Scan;
  }

  lemma Pressed(e: Editor, code: nat)
    requires code < 0x80
    ensures var (t, m) := (Scan(e, code).0, e.mods);
            && t.mods == Modifiers(m.shift || code == 0x2A || code == 0x36,
                                   m.ctrl || code == 0x1D, m.alt || code == 0x38,
                                   m.caps != (code == 0x3A), m.num != (code == 0x45), m.scroll != (code == 0x46))
            && (code in {0x1D, 0x2A, 0x36, 0x38, 0x3A, 0x45, 0x46} ==>
                  t == e.(mods := t.mods) && Scan(e, code).1 == Keep)
  {
    hide TypeKey, Apply;
    assert code % 128 == code;
  }

  lemma Released(e: Editor, code: nat)
    requires 0x80 <= code < 256
    ensures var (t, m) := (Scan(e, code).0, e.mods);
            && t.mods == m.(shift := m.shift && code != 0xAA && code != 0xB6, ctrl := m.ctrl && code != 0x9D,
                            alt := m.alt && code != 0xB8)
            && t == e.(mods := t.mods) && Scan(e, code).1 == Keep
  {
    hide TypeKey, Apply;
    assert code % 128 == code - 128;
  }

  // Enter submits and empties the line, Escape empties it, Backspace takes the last character,
  // Tab adds one; all of them drop a pending accent. Nothing but Enter submits.
  lemma ControlKeys(e: Editor, code: nat)
    requires |e.line| <= 255 && code < 256
    ensures Scan(e, 0x1C) == (e.(line := [], dead := false), Submit)
    ensures Scan(e, 0x01).0 == e.(line := [], dead := false)
    ensures Scan(e, 0x0E).0 == e.(line := if e.line == [] then [] else e.line[..|e.line| - 1], dead := false)
    ensures Scan(e, 0x0F).0 == e.(line := if |e.line| < 255 then e.line + [9] else e.line, dead := false)
    ensures Scan(e, code).1 == Submit <==> code == 0x1C
  {
    hide Ascii, HandleDeadKey, TypeKey;
    SubmitKey(e, code);
    assert |e.line| == 255 ==> (e.line + [9])[..255] == e.line;
  }

  lemma SubmitKey(e: Editor, code: nat)
    requires code < 256
    ensures Scan(e, code).1 == Submit <==> code == 0x1C
  {
    hide Ascii, HandleDeadKey, Apply;
    assert TypeKey(e, code % 128).0 != Submit;
    hide TypeKey;
  }

  // The keys that are neither modifiers, locks nor control keys.
  predicate Ordinary(key: nat) {
    key < 128 && key !in {0x01, 0x0E, 0x0F, 0x1C, 0x1D, 0x2A, 0x36, 0x38, 0x3A, 0x45, 0x46}
  }

  // An ordinary key adds its character, a letter in upper case when caps lock is on and shift is
  // not held; an accent key waits for the next letter instead.
  lemma OrdinaryKey(e: Editor, key: nat)
    requires Ordinary(key) && !e.dead && |e.line| < 255 && 32 <= Ascii(e.mods.shift, key) <= 126
    ensures var c, t := Ascii(e.mods.shift, key), Scan(e, key).0;
            if c == '~' as int || c == '^' as int || c == '`' as int then t == e.(dead := true, deadChar := c)
            else t == e.(line := e.line + [if e.mods.caps && !e.mods.shift && 97 <= c <= 122 then c - 32 else c])
  {
    hide Ascii, HandleDeadKey;
  }

  // After an accent, a letter that it does not change is added behind the accent itself.
  lemma AccentThenLetter(e: Editor, key: nat)
    requires Ordinary(key) && e.dead && 32 <= e.deadChar <= 126 && |e.line| <= 255 && !e.mods.caps
    requires 97 <= Ascii(e.mods.shift, key) <= 122
    requires HandleDeadKey(Ascii(e.mods.shift, key), e.deadChar) == Ascii(e.mods.shift, key)
    ensures var c, t := Ascii(e.mods.shift, key), Scan(e, key).0;
            && !t.dead && t.mods == e.mods
            && t.line == (e.line + [e.deadChar, c])[..if |e.line| < 254 then |e.line| + 2 else 255]
  {
    hide Ascii, HandleDeadKey;
    var c := Ascii(e.mods.shift, key);
    assert [e.deadChar] + [c] == [e.deadChar, c];
    var l := e.line + [e.deadChar, c];
    assert |l| <= 255 ==> l[..|l|] == l;
  }

  // After an accent, a character that is no letter is added alone; the accent stays pending.
  lemma AccentThenOther(e: Editor, key: nat)
    requires Ordinary(key) && e.dead && |e.line| < 255
    requires 32 <= Ascii(e.mods.shift, key) < 97 || 122 < Ascii(e.mods.shift, key) <= 126
    ensures Scan(e, key).0 == e.(line := e.line + [Ascii(e.mods.shift, key)])
  {
    hide Ascii, HandleDeadKey;
  }

  // Whatever key added one character to the line, Backspace takes that character away.
  lemma BackspaceUndoes(e: Editor, key: nat)
    requires Ok(e) && |e.line| < 255 && key < 128 && |Scan(e, key).0.line| == |e.line| + 1
    ensures Scan(Scan(e, key).0, 0x0E).0.line == e.line
  {
    hide Ascii, HandleDeadKey, Ok;
  }

  // ---------------------------------------------------------------- invariants over every stream

  predicate Storable(c: schar) { c == TAB || SPACE <= c <= 126 }

  // The line fits the buffer and holds tabs and printable ASCII only.
  ghost predicate Ok(e: Editor) {
    && |e.line| <= CMD_MAX
    && (forall k :: 0 <= k < |e.line| ==> Storable(e.line[k]))
    && (e.dead ==> e.deadChar == GRAVE || e.deadChar == CIRCUMFLEX || e.deadChar == TILDE)
  }

  // An accented letter does not fit a plain char: it comes out negative.
  lemma AccentedIsNegative(base: schar, accent: schar)
    requires HandleDeadKey(base, accent) != base
    ensures HandleDeadKey(base, accent) < 0
  {
  }

  lemma ApplyKeeps(line: seq<schar>, edit: Edit)
    requires |line| <= CMD_MAX && forall k :: 0 <= k < |line| ==> Storable(line[k])
    requires edit.Append? ==> forall k :: 0 <= k < |edit.chars| ==> Storable(edit.chars[k])
    ensures |Apply(line, edit)| <= CMD_MAX
    ensures forall k :: 0 <= k < |Apply(line, edit)| ==> Storable(Apply(line, edit)[k])
  {
  }

  lemma ScanOk(e: Editor, scancode: nat)
    requires Ok(e)
    ensures Ok(Scan(e, scancode).0)
  {
    hide Ascii, HandleDeadKey;
    var (t, edit) := Scan(e, scancode);
    var c := Ascii(e.mods.shift, scancode % 128);
    if HandleDeadKey(c, e.deadChar) != c { AccentedIsNegative(c, e.deadChar); }
    ApplyKeeps(e.line, edit);
    hide Apply;
  }

  lemma {:induction false} LineSafe(codes: seq<nat>)
    ensures Ok(Run(START, codes))
  {
    if codes != [] {
      LineSafe(codes[..|codes| - 1]);
      ScanOk(Run(START, codes[..|codes| - 1]), codes[|codes| - 1]);
    }
  }

  // Backspace takes back what was typed exactly when the line was not full.
  lemma RubOutUndoes(line: seq<schar>, c: schar)
    requires |line| <= CMD_MAX
    ensures Apply(Apply(line, Append([c])), RubOut) == line <==> |line| < CMD_MAX
  {
  }

  // Contrary to the driver's start-up message, an accent followed by a letter it applies to
  // leaves no trace in the line.
  lemma AccentedLetterVanishes(e: Editor, key: nat)
    requires Ok(e) && e.dead && Letter(Ascii(e.mods.shift, key))
    requires HandleDeadKey(Ascii(e.mods.shift, key), e.deadChar) != Ascii(e.mods.shift, key)
    ensures var (edit, dead, _) := TypeKey(e, key); Apply(e.line, edit) == e.line && !dead
  {
    hide Ascii, HandleDeadKey;
    AccentedIsNegative(Ascii(e.mods.shift, key), e.deadChar);
  }

  // ---------------------------------------------------------------- the driver

  class Driver {
    const cmdBuffer: array<schar>
    var cmdPos: nat
    var deadKey: bool
    var deadChar: schar
    var mods: Modifiers

    ghost predicate Valid()
      reads this, cmdBuffer
    {
      cmdBuffer.Length == CMD_MAX + 1 && cmdPos <= CMD_MAX && Ok(Abs())
    }

    ghost function Abs(): Editor
      requires cmdPos <= cmdBuffer.Length
      reads this, cmdBuffer
    {
      Editor(cmdBuffer[..cmdPos], deadKey, deadChar, mods)
    }

    constructor ()
      ensures Valid() && Abs() == START && fresh(cmdBuffer)
    {
      cmdBuffer := new schar[CMD_MAX + 1](_ => 0);
      cmdPos, deadKey, deadChar := 0, false, 0;
      mods := Modifiers(false, false, false, false, false, false);
    }

    // Appends a character unless the buffer is full.
    method Store(c: schar)
      requires cmdBuffer.Length == CMD_MAX + 1 && cmdPos <= CMD_MAX
      modifies this`cmdPos, cmdBuffer
      ensures cmdPos <= CMD_MAX
      ensures cmdBuffer[..cmdPos] == Apply(old(cmdBuffer[..cmdPos]), Append([c]))
    {
      if cmdPos < CMD_MAX {
        cmdBuffer[cmdPos] := c;
        cmdPos := cmdPos + 1;
      } else {
        assert (cmdBuffer[..cmdPos] + [c])[..CMD_MAX] == cmdBuffer[..cmdPos];
      }
    }

    // One scancode. On Enter, submitted is the buffer the shell is called with.
    method KeyboardHandler(scancode: nat) returns (submitted: seq<schar>)
      requires Valid() && scancode < 256
      modifies this, cmdBuffer
      ensures Valid() && Abs() == Scan(old(Abs()), scancode).0
      ensures Scan(old(Abs()), scancode).1 == Submit ==>
                |submitted| == CMD_MAX + 1 && old(Abs()).line + [0] <= submitted
      ensures Scan(old(Abs()), scancode).1 != Submit ==> submitted == []
    {
      ghost var e := Abs();
      ScanOk(e, scancode);
      hide Ok, Ascii, HandleDeadKey;
      submitted := [];
      var key, pressed := scancode % 128, scancode < 128;
      if key == 0x2A || key == 0x36 { mods := mods.(shift := pressed); return; }
      if key == 0x1D { mods := mods.(ctrl := pressed); return; }
      if key == 0x38 { mods := mods.(alt := pressed); return; }
      if key == 0x3A && pressed { mods := mods.(caps := !mods.caps); return; }
      if key == 0x45 && pressed { mods := mods.(num := !mods.num); return; }
      if key == 0x46 && pressed { mods := mods.(scroll := !mods.scroll); return; }
      if key == 0x1C && pressed {
        deadKey := false;
        cmdBuffer[cmdPos] := 0;
        submitted := cmdBuffer[..];
        assert submitted[..|e.line| + 1] == e.line + [0];
        cmdPos := 0;
        cmdBuffer[0] := 0;
        return;
      }
      if key == 0x0E && pressed {
        deadKey := false;
        if cmdPos > 0 { cmdPos := cmdPos - 1; }
        return;
      }
      if key == 0x0F && pressed {
        deadKey := false;
        Store(TAB);
        return;
      }
      if key == 0x01 && pressed {
        deadKey := false;
        cmdPos := 0;
        cmdBuffer[0] := 0;
        return;
      }
      if pressed {
        TypeOrdinary(key);
      }
    }

    // The last part of the handler: dead keys, caps lock, and the store.
    method TypeOrdinary(key: nat)
      requires cmdBuffer.Length == CMD_MAX + 1 && cmdPos <= CMD_MAX
      modifies this, cmdBuffer
      ensures cmdPos <= CMD_MAX && mods == old(mods)
      ensures var (edit, dead, accent) := TypeKey(old(Abs()), key);
              Abs() == Editor(Apply(old(Abs()).line, edit), dead, accent, mods)
    {
      hide Ascii, HandleDeadKey, Apply;
      ghost var line := cmdBuffer[..cmdPos];
      var ascii := Ascii(mods.shift, key);
      ghost var pushed: seq<schar> := [];
      AppendNothing(line);
      if deadKey && ascii != 0 && Letter(ascii) {
        var result := HandleDeadKey(ascii, deadChar);
        if result != ascii {
          ascii := result;
        } else {
          Store(deadChar);
          pushed := [deadChar];
        }
        deadKey := false;
      }
      if !deadKey && IsAccent(ascii) {
        deadKey := true;
        deadChar := ascii;
        return;
      }
      AppendTwice(line, pushed, Stored(mods, ascii));
      StoreAscii(ascii);
    }

    // Appends a printable character, in upper case under caps lock, or a tab.
    method StoreAscii(c: schar)
      requires cmdBuffer.Length == CMD_MAX + 1 && cmdPos <= CMD_MAX
      modifies this`cmdPos, cmdBuffer
      ensures cmdPos <= CMD_MAX
      ensures cmdBuffer[..cmdPos] == Apply(old(cmdBuffer[..cmdPos]), Append(Stored(mods, c)))
    {
      hide Apply;
      var ascii := c;
      AppendNothing(cmdBuffer[..cmdPos]);
      if ascii != 0 && SPACE <= ascii <= 126 {
        if mods.caps && !mods.shift && Letter(ascii) { ascii := ascii - 97 + 65; }
        Store(ascii);
      } else if ascii == TAB {
        Store(ascii);
      }
    }
  }

  lemma AppendNothing(line: seq<schar>)
    requires |line| <= CMD_MAX
    ensures Apply(line, Append([])) == line && Apply(line, Keep) == line
  {
  }

  lemma AppendTwice(line: seq<schar>, a: seq<schar>, b: seq<schar>)
    requires |line| <= CMD_MAX
    ensures Apply(Apply(line, Append(a)), Append(b)) == Apply(line, Append(a + b))
  {
  }
}
