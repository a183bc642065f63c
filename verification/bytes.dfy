// Byte-addressed memory and the little-endian machine words stored in it.
module Bytes {
  // The number of values of a 64-bit word.
  const WORD: nat := 0x1_0000_0000_0000_0000

  type byte = x: int | 0 <= x < 256

  // A plain char of the source.
  type schar = c: int | -128 <= c < 128

  // The product of two machine words, as the machine computes it.
  function Product(a: nat, b: nat): (r: nat)
    ensures r < WORD
  {
    (a * b) % WORD
  }

  function Pow256(n: nat): (p: nat)
    ensures p > 0
  {
    if n == 0 then 1 else 256 * Pow256(n - 1)
  }

  function FromLE(s: seq<byte>): nat {
    if s == [] then 0 else s[0] + 256 * FromLE(s[1..])
  }

  function ToLE(v: nat, n: nat): (s: seq<byte>)
    ensures |s| == n
  {
    if n == 0 then [] else [v % 256] + ToLE(v / 256, n - 1)
  }

  lemma {:induction false} RoundTrip(v: nat, n: nat)
    requires v < Pow256(n)
    ensures FromLE(ToLE(v, n)) == v
  {
    if n > 0 {
      RoundTrip(v / 256, n - 1);
      assert ToLE(v, n)[1..] == ToLE(v / 256, n - 1);
    }
  }

  lemma WordSizes()
    ensures Pow256(4) == 0x1_0000_0000
    ensures Pow256(8) == WORD
  {
  }

  function Four(a: nat, b: nat, c: nat, d: nat): nat {
    a + 0x100 * b + 0x1_0000 * c + 0x100_0000 * d
  }

  lemma FourSmall(a: byte, b: byte, c: byte, d: byte, v: byte)
    ensures Four(a, b, c, d) == v ==> a == v && b == 0 && c == 0 && d == 0
  {
  }

  // The least significant byte comes first.
  lemma {:induction false} WordBytes(s: seq<byte>)
    requires |s| == 8
    ensures FromLE(s) == Four(s[0], s[1], s[2], s[3]) + 0x1_0000_0000 * Four(s[4], s[5], s[6], s[7])
  {
    HalfBytes(s, FromLE(s[4..]));
    assert s[4..][4..] == [];
    HalfBytes(s[4..], 0);
  }

  // The lower half of a word, in front of whatever the rest stands for.
  lemma HalfBytes(s: seq<byte>, high: nat)
    requires |s| >= 4 && high == FromLE(s[4..])
    ensures FromLE(s) == Four(s[0], s[1], s[2], s[3]) + 0x1_0000_0000 * high
  {
    assert s[1..][1..] == s[2..] && s[2..][1..] == s[3..] && s[3..][1..] == s[4..];
    assert FromLE(s[3..]) == s[3] + 256 * high;
    assert FromLE(s[2..]) == s[2] + 256 * FromLE(s[3..]);
    assert FromLE(s[1..]) == s[1] + 256 * FromLE(s[2..]);
  }

  // The n-byte word at address a.
  function Load(m: seq<byte>, a: nat, n: nat): nat
    requires a + n <= |m|
  {
    FromLE(m[a..a + n])
  }

  // Eight bytes of memory as a number.
  function WordAt(m: seq<byte>, a: nat): nat
    requires a + 8 <= |m|
  {
    Four(m[a], m[a + 1], m[a + 2], m[a + 3]) + 0x1_0000_0000 * Four(m[a + 4], m[a + 5], m[a + 6], m[a + 7])
  }

  lemma LoadBytes(m: seq<byte>, a: nat)
    requires a + 8 <= |m|
    ensures Load(m, a, 8) == WordAt(m, a)
  {
    WordBytes(m[a..a + 8]);
    hide FromLE, Four;
  }

  lemma LoadHalf(m: seq<byte>, a: nat)
    requires a + 4 <= |m|
    ensures Load(m, a, 4) < 256 ==> m[a] == Load(m, a, 4) && m[a + 1] == 0 && m[a + 2] == 0 && m[a + 3] == 0
  {
    var s := m[a..a + 4];
    assert FromLE(s[4..]) == 0;
    HalfBytes(s, 0);
    if FromLE(s) < 256 { FourSmall(s[0], s[1], s[2], s[3], FromLE(s)); }
    hide FromLE, Four;
  }

  // The memory after an n-byte store of v at address a.
  function Store(m: seq<byte>, a: nat, n: nat, v: nat): (r: seq<byte>)
    requires a + n <= |m|
    ensures |r| == |m|
  {
    m[..a] + ToLE(v, n) + m[a + n..]
  }

  lemma LoadStored(m: seq<byte>, a: nat, n: nat, v: nat)
    requires a + n <= |m| && v < Pow256(n)
    ensures Load(Store(m, a, n, v), a, n) == v
  {
    RoundTrip(v, n);
    assert Store(m, a, n, v)[a..a + n] == ToLE(v, n);
  }

  lemma SliceElsewhere(m: seq<byte>, a: nat, n: nat, v: nat, lo: nat, hi: nat)
    requires a + n <= |m| && lo <= hi <= |m|
    requires hi <= a || a + n <= lo
    ensures Store(m, a, n, v)[lo..hi] == m[lo..hi]
  {
  }

  lemma LoadElsewhere(m: seq<byte>, a: nat, n: nat, v: nat, b: nat, k: nat)
    requires a + n <= |m| && b + k <= |m|
    requires b + k <= a || a + n <= b
    ensures Load(Store(m, a, n, v), b, k) == Load(m, b, k)
  {
    SliceElsewhere(m, a, n, v, b, b + k);
  }
}
