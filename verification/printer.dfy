// print_hex, and the decimal reader of the shell's `hex` and `kmalloc` commands.
module Printer {
  import opened Bytes

  const HEX: string := "0123456789ABCDEF"

  // value >> j, one bit at a time.
  function Shr(value: nat, j: nat): nat {
    if j == 0 then value else Shr(value, j - 1) / 2
  }

  function Pow2(j: nat): (p: nat)
    ensures p > 0
  {
    if j == 0 then 1 else 2 * Pow2(j - 1)
  }

  // The hexadecimal numeral without leading zeros.
  function HexDigits(v: nat): (s: string)
    ensures s != []
  {
    if v < 16 then [HEX[v]] else HexDigits(v / 16) + [HEX[v % 16]]
  }

  predicate IsHexDigit(c: char) { '0' <= c <= '9' || 'A' <= c <= 'F' }

  function DigitValue(c: char): (v: nat)
    ensures IsHexDigit(c) ==> v < 16 && HEX[v] == c
    ensures v == 0 ==> c == '0' || !IsHexDigit(c)
  {
    if '0' <= c <= '9' then c as nat - '0' as nat
    else if 'A' <= c <= 'F' then c as nat - 'A' as nat + 10
    else 0
  }

  // What a hexadecimal numeral evaluates to.
  function HexValue(s: string): nat {
    if s == [] then 0 else 16 * HexValue(s[..|s| - 1]) + DigitValue(s[|s| - 1])
  }

  // A numeral as one writes it: hexadecimal digits without leading zeros.
  ghost predicate Minimal(s: string) {
    && s != []
    && (forall k :: 0 <= k < |s| ==> IsHexDigit(s[k]))
    && (|s| > 1 ==> s[0] != '0')
  }

  lemma DigitOf(d: nat)
    requires d < 16
    ensures IsHexDigit(HEX[d]) && DigitValue(HEX[d]) == d
  {
  }

  // The sixteen digits, spelled out.
  lemma DigitsSpelled(v: nat)
    requires v < 16
    ensures HexDigits(v) == ["0123456789ABCDEF"[v]]
  {
  }

  // The numeral is minimal and evaluates to the value it was made from.
  lemma {:induction false} HexRoundTrip(v: nat)
    ensures Minimal(HexDigits(v)) && HexValue(HexDigits(v)) == v
    ensures v > 0 ==> HexDigits(v)[0] != '0'
  {
    DigitOf(v % 16);
    if v < 16 {
      assert HexValue([]) == 0 && HexDigits(v)[..0] == [];
    } else {
      HexRoundTrip(v / 16);
      assert HexDigits(v)[..|HexDigits(v)| - 1] == HexDigits(v / 16);
    }
  }

  lemma {:induction false} NoLeadingZero(s: string)
    requires s != [] && s[0] != '0' && forall k :: 0 <= k < |s| ==> IsHexDigit(s[k])
    ensures HexValue(s) > 0
  {
    if |s| > 1 { NoLeadingZero(s[..|s| - 1]); }
  }

  lemma AppendDigit(v: nat, d: nat)
    requires d < 16
    ensures HexDigits(16 * v + d) == if v == 0 then [HEX[d]] else HexDigits(v) + [HEX[d]]
  {
    assert (16 * v + d) / 16 == v && (16 * v + d) % 16 == d;
  }

  // There is only one minimal numeral for each value.
  lemma {:induction false} MinimalUnique(s: string)
    requires Minimal(s)
    ensures s == HexDigits(HexValue(s))
  {
    var front, last := s[..|s| - 1], s[|s| - 1];
    assert s == front + [last] && IsHexDigit(last);
    AppendDigit(HexValue(front), DigitValue(last));
    if |s| > 1 {
      MinimalUnique(front);
      NoLeadingZero(front);
    }
    hide HexDigits;
  }

  // Distinct values print differently.
  lemma PrintInjective(v: nat, w: nat)
    requires "0x" + HexDigits(v) == "0x" + HexDigits(w)
    ensures v == w
  {
    assert ("0x" + HexDigits(v))[2..] == HexDigits(v);
    assert ("0x" + HexDigits(w))[2..] == HexDigits(w);
    HexRoundTrip(v);
    HexRoundTrip(w);
  }

  lemma {:induction false} ShrBound(value: nat, k: nat, j: nat)
    requires value < Pow2(k) && j <= k
    ensures Shr(value, j) < Pow2(k - j)
  {
    if j > 0 {
      ShrBound(value, k, j - 1);
      assert Pow2(k - j + 1) == 2 * Pow2(k - j);
    }
  }

  lemma ShrNibble(value: nat, j: nat)
    ensures Shr(value, j + 4) == Shr(value, j) / 16
  {
    assert Shr(value, j + 4) == Shr(value, j + 3) / 2;
    assert Shr(value, j + 3) == Shr(value, j + 2) / 2;
    assert Shr(value, j + 2) == Shr(value, j + 1) / 2;
    assert Shr(value, j + 1) == Shr(value, j) / 2;
  }

  lemma Pow2Byte(a: nat)
    ensures Pow2(a + 8) == 256 * Pow2(a)
  {
    assert Pow2(a + 8) == 4 * Pow2(a + 6) && Pow2(a + 6) == 4 * Pow2(a + 4);
    assert Pow2(a + 4) == 4 * Pow2(a + 2) && Pow2(a + 2) == 4 * Pow2(a);
  }

  lemma WordIsPow2()
    ensures Pow2(64) == WORD
  {
    assert Pow2(0) == 1;
    Pow2Byte(0);
    Pow2Byte(8);
    Pow2Byte(16);
    Pow2Byte(24);
    Pow2Byte(32);
    Pow2Byte(40);
    Pow2Byte(48);
    Pow2Byte(56);
    hide Pow2;
  }

  // The numeral with nothing for zero: what has been printed before the last digit.
  function Printed(v: nat): string { if v == 0 then "" else HexDigits(v) }

  lemma NextDigit(v: nat)
    ensures var digit := HEX[v % 16];
            && HexDigits(v) == Printed(v / 16) + [digit]
            && (digit != '0' || v / 16 != 0 <==> v != 0)
  {
  }

  // One turn of the loop, with and without its digit.
  lemma TurnAt(value: nat, j: nat)
    ensures |HEX| == 16
    ensures var v, digit := Shr(value, j), HEX[Shr(value, j) % 16];
            && (digit != '0' || Shr(value, j + 4) != 0 <==> v != 0)
            && HexDigits(v) == Printed(Shr(value, j + 4)) + [digit]
            && Printed(v) == if v != 0 then Printed(Shr(value, j + 4)) + [digit] else Printed(Shr(value, j + 4))
  {
    ShrNibble(value, j);
    NextDigit(Shr(value, j));
    hide Shr, HexDigits;
  }

  ghost predicate Emitted(out: string, numeral: string) { out == "0x" + numeral }

  lemma EmitDigit(out: string, numeral: string, digit: char)
    requires Emitted(out, numeral)
    ensures Emitted(out + [digit], numeral + [digit])
  {
  }

  // print_hex, its output taken as a string.
  method PrintHex(value: nat) returns (out: string)
    requires value < WORD
    ensures out == "0x" + HexDigits(value)
  {
    hide Shr, HexDigits, Printed, HEX, Emitted;
    out := "0x";
    ShrEnds(value);
    EmittedMeans(out);
    var started := false;
    var j := 60;
    while j >= 0
      invariant -4 <= j <= 60 && j % 4 == 0
      invariant j >= 0 ==> started == (Shr(value, j + 4) != 0)
      invariant Emitted(out, if j >= 0 then Printed(Shr(value, j + 4)) else HexDigits(value))
    {
      TurnAt(value, j);
      var digit := HEX[Shr(value, j) % 16];
      if digit != '0' || started || j == 0 {
        EmitDigit(out, Printed(Shr(value, j + 4)), digit);
        out := out + [digit];
        started := true;
      }
      j := j - 4;
    }
    EmittedMeans(out);
  }

  lemma EmittedMeans(out: string)
    ensures out == "0x" ==> Emitted(out, Printed(0))
    ensures forall numeral :: Emitted(out, numeral) ==> out == "0x" + numeral
  {
  }

  // Before the first turn nothing is left of a 64-bit value, after the last one all of it.
  lemma ShrEnds(value: nat)
    requires value < WORD
    ensures Shr(value, 64) == 0 && Shr(value, 0) == value
  {
    WordIsPow2();
    ShrBound(value, 64, 64);
    assert Pow2(0) == 1;
  }

  // ---------------------------------------------------------------- decimal input

  predicate IsDigit(c: int) { 48 <= c <= 57 }

  function LeadingDigits(s: seq<schar>): (r: seq<schar>)
    ensures |r| <= |s| && forall k :: 0 <= k < |r| ==> r[k] == s[k] && IsDigit(r[k])
    ensures |r| < |s| ==> !IsDigit(s[|r|])
  {
    if s == [] || !IsDigit(s[0]) then [] else [s[0]] + LeadingDigits(s[1..])
  }

  function DecValue(s: seq<schar>): nat
    requires forall k :: 0 <= k < |s| ==> IsDigit(s[k])
  {
    if s == [] then 0
    else
      var c := s[|s| - 1];
      assert IsDigit(c);
      10 * DecValue(s[..|s| - 1]) + (c - 48)
  }

  // The decimal numeral of v, in ASCII.
  function DecDigits(v: nat): (s: seq<schar>)
    ensures s != [] && forall k :: 0 <= k < |s| ==> 48 <= s[k] <= 57
  {
    if v < 10 then [48 + v] else DecDigits(v / 10) + [48 + v % 10]
  }

  // The reader is the inverse of writing a number in decimal.
  lemma {:induction false} DecRoundTrip(v: nat)
    ensures DecValue(DecDigits(v)) == v
  {
    var s := DecDigits(v);
    if v < 10 {
      assert s[..0] == [];
    } else {
      DecRoundTrip(v / 10);
      assert s[..|s| - 1] == DecDigits(v / 10) && s[|s| - 1] == 48 + v % 10;
    }
  }

  // A numeral of at most n digits stands for a number below 10 to the n.
  lemma {:induction false} DecLength(v: nat, n: nat, bound: nat)
    requires n > 0 && v < bound && bound == Pow10(n)
    ensures |DecDigits(v)| <= n
    decreases n
  {
    if v >= 10 { DecLength(v / 10, n - 1, Pow10(n - 1)); }
  }

  function Pow10(n: nat): (p: nat)
    ensures p > 0
  {
    if n == 0 then 1 else 10 * Pow10(n - 1)
  }

  // Reading stops at the first character that is no digit, and at no other.
  lemma {:induction false} DigitsEnd(s: seq<schar>, rest: seq<schar>)
    requires forall k :: 0 <= k < |s| ==> 48 <= s[k] <= 57
    requires rest == [] || rest[0] < 48 || rest[0] > 57
    ensures LeadingDigits(s + rest) == s
  {
    if s == [] {
      assert s + rest == rest;
    } else {
      assert (s + rest)[1..] == s[1..] + rest;
      DigitsEnd(s[1..], rest);
    }
  }

  lemma WrapStep(a: nat, d: nat)
    ensures ((a % WORD) * 10 + d) % WORD == (a * 10 + d) % WORD
  {
  }

  // The digit loop: the value of the leading digits, wrapped to 64 bits.
  method ReadDecimal(args: array<schar>) returns (num: nat)
    requires exists k :: 0 <= k < args.Length && !IsDigit(args[k])
    ensures num == DecValue(LeadingDigits(args[..])) % WORD
  {
    num := 0;
    var i := 0;
    ghost var digits := LeadingDigits(args[..]);
    assert |digits| < args.Length by {
      var k :| 0 <= k < args.Length && !IsDigit(args[k]);
      assert k < |digits| ==> digits[k] == args[..][k];
    }
    while IsDigit(args[i])
      invariant 0 <= i <= |digits| && num == DecValue(digits[..i]) % WORD
      decreases |digits| - i
    {
      assert digits[..i + 1][..i] == digits[..i] && digits[i] == args[i];
      WrapStep(DecValue(digits[..i]), args[i] - 48);
      num := (num * 10 + (args[i] - 48)) % WORD;
      i := i + 1;
    }
    assert !IsDigit(args[..][i]) && digits[..i] == digits;
  }

  // `hex`: the hexadecimal numeral of the argument's leading digits modulo 2^64.
  method CmdHex(args: array<schar>) returns (out: string)
    requires exists k :: 0 <= k < args.Length && !IsDigit(args[k])
    ensures out == "\nHex: 0x" + HexDigits(DecValue(LeadingDigits(args[..])) % WORD) + "\n"
  {
    var num := ReadDecimal(args);
    var numeral := PrintHex(num);
    out := "\nHex: " + numeral + "\n";
    assert "\nHex: " + "0x" == "\nHex: 0x";
  }
}
