// Which lines can be typed: every character but those whose keys the accent keys displace.
module Typing {
  import opened Bytes
  import opened Keyboard

  // Tab and printable ASCII without : ; X Z x z, whose keys are the ABNT2 ones.
  predicate Typable(c: int) { (c == 9 || 32 <= c <= 126) && !Displaced(c) }

  predicate Displaced(c: int) { c == 58 || c == 59 || c == 88 || c == 90 || c == 120 || c == 122 }

  predicate AllTypable(t: seq<schar>) { forall k :: 0 <= k < |t| ==> Typable(t[k]) }

  // ---------------------------------------------------------------- nothing else gets into a line

  // A table has four rows of fifteen keys.
  function Row(shift: bool, r: nat): seq<schar> {
    if shift then (if r == 0 then SHIFTED_1 else if r == 1 then SHIFTED_2 else if r == 2 then SHIFTED_3 else SHIFTED_4)
    else if r == 0 then NORMAL_1 else if r == 1 then NORMAL_2 else if r == 2 then NORMAL_3 else NORMAL_4
  }

  lemma Quarters(a: seq<schar>, b: seq<schar>, c: seq<schar>, d: seq<schar>, r: nat, i: nat)
    requires |a| == |b| == |c| == |d| == 15 && r < 4 && i < 15
    ensures |a + b + c + d| == 60 && 15 * r + i < 60
    ensures (a + b + c + d)[15 * r + i] == (if r == 0 then a else if r == 1 then b else if r == 2 then c else d)[i]
  {
  }

  lemma InRow(shift: bool, r: nat, i: nat)
    requires r < 4 && i < 15
    ensures |Row(shift, r)| == 15 && |NORMAL| == |SHIFTED| == 60 && 15 * r + i < 60
    ensures (if shift then SHIFTED[15 * r + i] else NORMAL[15 * r + i]) == Row(shift, r)[i]
  {
    assert |NORMAL_1| == |NORMAL_2| == |NORMAL_3| == |NORMAL_4| == 15;
    assert |SHIFTED_1| == |SHIFTED_2| == |SHIFTED_3| == |SHIFTED_4| == 15;
    hide NORMAL_1, NORMAL_2, NORMAL_3, NORMAL_4, SHIFTED_1, SHIFTED_2, SHIFTED_3, SHIFTED_4;
    Quarters(NORMAL_1, NORMAL_2, NORMAL_3, NORMAL_4, r, i);
    Quarters(SHIFTED_1, SHIFTED_2, SHIFTED_3, SHIFTED_4, r, i);
  }

  // The table has : ; X Z x z at the keys 0x27, 0x2C and 0x2D only.
  lemma DisplacedKeys(shift: bool, r: nat, i: nat)
    requires r < 4 && i < |Row(shift, r)|
    ensures Displaced(Row(shift, r)[i]) ==> 15 * r + i == 0x27 || 15 * r + i == 0x2C || 15 * r + i == 0x2D
  {
    assert ToChar(DIAERESIS) == -88;
    hide ToChar;
  }

  lemma NeverThere(shift: bool, key: nat)
    ensures !Displaced(Ascii(shift, key))
  {
    if key < 60 && key !in {0x27, 0x29, 0x2C, 0x2D} {
      InRow(shift, key / 15, key % 15);
      DisplacedKeys(shift, key / 15, key % 15);
      hide *;
      TableAscii(shift, key);
    }
  }

  lemma TableAscii(shift: bool, key: nat)
    requires key < 60 && key !in {0x27, 0x29, 0x2C, 0x2D}
    ensures |SHIFTED| == |NORMAL| == 60 && Ascii(shift, key) == if shift then SHIFTED[key] else NORMAL[key]
  {
  }

  lemma StoredTypable(mods: Modifiers, shift: bool, key: nat)
    ensures AllTypable(Stored(mods, Ascii(shift, key)))
  {
    NeverThere(shift, key);
    hide Ascii;
  }

  lemma ApplyTypable(line: seq<schar>, edit: Edit)
    requires AllTypable(line) && (edit.Append? ==> AllTypable(edit.chars))
    ensures AllTypable(Apply(line, edit))
  {
  }

  lemma ScanTypable(e: Editor, code: nat)
    requires Ok(e) && AllTypable(e.line)
    ensures AllTypable(Scan(e, code).0.line)
  {
    var (t, edit) := Scan(e, code);
    var c := Ascii(e.mods.shift, code % 128);
    StoredTypable(e.mods, e.mods.shift, code % 128);
    hide Ascii, HandleDeadKey;
    if HandleDeadKey(c, e.deadChar) != c { AccentedIsNegative(c, e.deadChar); }
    ApplyTypable(e.line, edit);
    hide Apply;
  }

  lemma {:induction false} OnlyTypable(codes: seq<nat>)
    ensures AllTypable(Run(START, codes).line)
  {
    if codes != [] {
      var front := codes[..|codes| - 1];
      OnlyTypable(front);
      LineSafe(front);
      hide Scan, Ok, AllTypable;
      ScanTypable(Run(START, front), codes[|codes| - 1]);
    }
  }

  // ---------------------------------------------------------------- everything else does

  lemma {:induction false} RunConcat(e: Editor, a: seq<nat>, b: seq<nat>)
    ensures Run(e, a + b) == Run(Run(e, a), b)
  {
    if b == [] {
      assert a + b == a;
    } else {
      assert (a + b)[..|a + b| - 1] == a + b[..|b| - 1];
      RunConcat(e, a, b[..|b| - 1]);
    }
  }

  // Every character that can be typed stands in some row.
  lemma RowOf(c: schar) returns (shift: bool, r: nat)
    requires Typable(c) && c != 9 && !IsAccent(c)
    ensures r < 4 && c in Row(shift, r)
  {
    if c in NORMAL_1 { return false, 0; }
    if c in NORMAL_2 { return false, 1; }
    if c in NORMAL_3 { return false, 2; }
    if c in NORMAL_4 { return false, 3; }
    if c in SHIFTED_1 { return true, 0; }
    if c in SHIFTED_2 { return true, 1; }
    if c in SHIFTED_3 { return true, 2; }
    return true, 3;
  }

  // The keys with printable characters are ordinary ones.
  lemma PrintableKeys(shift: bool, r: nat, i: nat)
    requires r < 4 && i < |Row(shift, r)| && Typable(Row(shift, r)[i])
    requires Row(shift, r)[i] != 9 && !IsAccent(Row(shift, r)[i])
    ensures Ordinary(15 * r + i) && 15 * r + i !in {0x27, 0x29, 0x2C, 0x2D}
  {
  }

  // The key of a character that is no accent.
  lemma KeyOf(c: schar) returns (shift: bool, key: nat)
    requires Typable(c) && c != 9 && !IsAccent(c)
    ensures Ordinary(key) && Ascii(shift, key) == c
  {
    hide *;
    var r: nat;
    shift, r := RowOf(c);
    InRow(shift, r, 0);
    var i :| 0 <= i < |Row(shift, r)| && Row(shift, r)[i] == c;
    InRow(shift, r, i);
    PrintableKeys(shift, r, i);
    key := 15 * r + i;
    TableAscii(shift, key);
  }

  // No modifier is held and no lock is on; an accent may be pending when the line is full.
  ghost predicate AtRest(e: Editor) {
    Ok(e) && e.mods == START.mods && (e.dead ==> |e.line| == CMD_MAX)
  }

  // Presses and releases shift around a key.
  function Chord(shift: bool, key: nat): seq<nat> { if shift then [0x2A, key, 0xAA] else [key] }

  lemma RunTwo(e: Editor, a: nat, b: nat)
    ensures Run(e, [a]) == Scan(e, a).0 && Run(e, [a, b]) == Scan(Scan(e, a).0, b).0
  {
    assert [a][..0] == [] && [a, b][..1] == [a];
    hide Scan;
  }

  lemma RunThree(e: Editor, a: nat, b: nat, c: nat)
    ensures Run(e, [a, b, c]) == Scan(Scan(Scan(e, a).0, b).0, c).0
  {
    RunTwo(e, a, b);
    assert [a, b, c][..2] == [a, b];
    hide Scan;
  }

  // What a chord does to a line at rest: the same as its key with shift held.
  lemma ChordScans(e: Editor, shift: bool, key: nat)
    requires e.mods == START.mods && Ordinary(key)
    ensures var t := Scan(e.(mods := e.mods.(shift := shift)), key).0;
            t.mods == e.mods.(shift := shift) && Run(e, Chord(shift, key)) == t.(mods := START.mods)
  {
    hide TypeKey, Apply, Run;
    RunTwo(e, key, key);
    RunThree(e, 0x2A, key, 0xAA);
    ModifierKeys(e, 0x2A);
    ModifierKeys(e.(mods := e.mods.(shift := shift)), key);
    ModifierKeys(Scan(e.(mods := e.mods.(shift := true)), key).0, 0xAA);
    hide Scan;
  }

  // Types one character that is no accent.
  lemma TypePlain(e: Editor, c: schar) returns (codes: seq<nat>)
    requires AtRest(e) && |e.line| < 255 && Typable(c) && !IsAccent(c)
    ensures Run(e, codes) == e.(line := e.line + [c])
  {
    hide Ok, Ascii;
    if c == 9 {
      codes := [0x0F];
      assert codes[..0] == [];
      ControlKeys(e, 0x0F);
    } else {
      var shift, key := KeyOf(c);
      codes := Chord(shift, key);
      ChordScans(e, shift, key);
      OrdinaryKey(e.(mods := e.mods.(shift := shift)), key);
    }
  }

  // The key of an accent.
  function AccentKey(c: schar): (bool, nat) {
    if c == TILDE then (false, 0x29) else if c == CIRCUMFLEX then (false, 0x2C) else (true, 0x2D)
  }

  lemma AccentPends(e: Editor, c: schar)
    requires AtRest(e) && |e.line| < 255 && Typable(c) && IsAccent(c)
    ensures var (shift, key) := AccentKey(c);
            Ordinary(key) && Run(e, Chord(shift, key)) == e.(dead := true, deadChar := c)
  {
    var (shift, key) := AccentKey(c);
    ChordScans(e, shift, key);
    AccentKeys(shift, key);
    hide Ok, Ascii;
    OrdinaryKey(e.(mods := e.mods.(shift := shift)), key);
  }

  // Types an accent on its own: the accent, the letter q, which takes none, and a Backspace.
  lemma TypeAccent(e: Editor, c: schar) returns (codes: seq<nat>)
    requires AtRest(e) && |e.line| < 254 && Typable(c) && IsAccent(c)
    ensures Run(e, codes).line == e.line + [c] && Run(e, codes).mods == START.mods && !Run(e, codes).dead
  {
    var (shift, key) := AccentKey(c);
    AccentPends(e, c);
    var d := e.(dead := true, deadChar := c);
    Layout(0);
    AccentTable(113, 0);
    codes := Chord(shift, key) + [0x10, 0x0E];
    RunConcat(e, Chord(shift, key), [0x10, 0x0E]);
    RunTwo(d, 0x10, 0x0E);
    hide Ok, Ascii, HandleDeadKey, Chord, Run, Scan, AccentKey;
    AccentThenLetter(d, 0x10);
    var t := Scan(d, 0x10).0;
    ControlKeys(t, 0x0E);
    assert e.line + [c, 113] == e.line + [c] + [113];
  }

  // Types an accent as the last character that fits: the accent twice.
  lemma TypeLastAccent(e: Editor, c: schar) returns (codes: seq<nat>)
    requires AtRest(e) && |e.line| == 254 && Typable(c) && IsAccent(c)
    ensures Run(e, codes).line == e.line + [c] && Run(e, codes).mods == START.mods
  {
    var (shift, key) := AccentKey(c);
    AccentPends(e, c);
    var d := e.(dead := true, deadChar := c);
    ChordScans(d, shift, key);
    AccentKeys(shift, key);
    codes := Chord(shift, key) + Chord(shift, key);
    RunConcat(e, Chord(shift, key), Chord(shift, key));
    hide Ok, Ascii, HandleDeadKey, Chord, Run, Scan;
    AccentThenOther(d.(mods := d.mods.(shift := shift)), key);
  }

  lemma RunOk(e: Editor, codes: seq<nat>)
    requires Ok(e)
    ensures Ok(Run(e, codes))
  {
    if codes != [] {
      RunOk(e, codes[..|codes| - 1]);
      ScanOk(Run(e, codes[..|codes| - 1]), codes[|codes| - 1]);
      hide Ok, Scan;
    }
  }

  lemma TypeOne(e: Editor, c: schar) returns (codes: seq<nat>)
    requires AtRest(e) && |e.line| < 255 && Typable(c)
    ensures AtRest(Run(e, codes)) && Run(e, codes).line == e.line + [c]
  {
    if !IsAccent(c) {
      codes := TypePlain(e, c);
    } else if |e.line| < 254 {
      codes := TypeAccent(e, c);
    } else {
      codes := TypeLastAccent(e, c);
    }
    RunOk(e, codes);
    hide Ok, Run;
  }

  lemma {:induction false} TypeLine(t: seq<schar>) returns (codes: seq<nat>)
    requires |t| <= 255 && AllTypable(t)
    ensures AtRest(Run(START, codes)) && Run(START, codes).line == t
  {
    if t == [] {
      codes := [];
    } else {
      var front, c := t[..|t| - 1], t[|t| - 1];
      var a := TypeLine(front);
      var b := TypeOne(Run(START, a), c);
      codes := a + b;
      RunConcat(START, a, b);
      assert t == front + [c];
    }
  }

  // A line can be typed exactly when it fits the buffer and has typable characters only.
  lemma TypedExactly(t: seq<schar>)
    ensures (exists codes :: Run(START, codes).line == t) <==> |t| <= 255 && AllTypable(t)
  {
    if |t| <= 255 && AllTypable(t) {
      var codes := TypeLine(t);
    }
    if codes :| Run(START, codes).line == t {
      OnlyTypable(codes);
      LineSafe(codes);
    }
  }
}
