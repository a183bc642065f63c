// memcpy, memmove, strcmp and strstr over one byte-addressed memory.
module CStrings {
  import opened Bytes

  const NULL: int := -1

  // ---------------------------------------------------------------- copying

  // The memory in which the n bytes at d are the old n bytes at s: memmove's promise,
  // section 7.24.2.2 of ISO/IEC 9899:2011.
  function Moved(m: seq<byte>, d: nat, s: nat, n: nat): (r: seq<byte>)
    requires d + n <= |m| && s + n <= |m|
    ensures |r| == |m|
  {
    m[..d] + m[s..s + n] + m[d + n..]
  }

  // Which source byte a forward copy leaves at offset k: when the destination starts inside
  // the source, bytes already overwritten are read again, so this is k modulo the distance.
  function Origin(d: nat, s: nat, k: nat): (o: nat)
    ensures o <= k
    ensures s < d ==> o < d - s
    decreases k
  {
    if s < d && k >= d - s then Origin(d, s, k - (d - s)) else k
  }

  lemma {:induction false} OriginModulo(d: nat, s: nat, k: nat)
    ensures Origin(d, s, k) == if s < d then k % (d - s) else k
    decreases k
  {
    if s < d && k >= d - s {
      OriginModulo(d, s, k - (d - s));
      ModuloStep(k, d - s);
    }
  }

  lemma Scaled(e: nat, p: nat)
    requires e >= 1
    ensures e * p >= p
  {
  }

  lemma ModuloStep(k: nat, p: nat)
    requires 0 < p <= k
    ensures k % p == (k - p) % p
  {
    var a, b := k / p, k % p;
    var q, r := (k - p) / p, (k - p) % p;
    var e := a - q - 1;
    assert a * p + b == k == q * p + p + r;
    assert e * p == r - b by { assert e * p == a * p - q * p - p; }
    if e >= 1 { Scaled(e, p); }
    if e <= -1 { Scaled(-e, p); }
  }

  lemma OriginStep(d: nat, s: nat, k: nat)
    ensures Origin(d, s, k) == if s < d && k >= d - s then Origin(d, s, k - (d - s)) else k
  {
  }

  ghost predicate Copied(m: seq<byte>, r: seq<byte>, d: nat, s: nat, n: nat)
    requires d + n <= |m| && s + n <= |m|
  {
    && |r| == |m|
    && (forall i {:trigger r[i]} :: d <= i < d + n ==> r[i] == m[s + Origin(d, s, i - d)])
    && (forall i {:trigger r[i]} :: 0 <= i < |m| && (i < d || d + n <= i) ==> r[i] == m[i])
  }

  // What the forward loop reads next.
  lemma ForwardRead(m: seq<byte>, r: seq<byte>, d: nat, s: nat, i: nat)
    requires d + i <= |m| && s + i < |m| && Copied(m, r, d, s, i)
    ensures s + Origin(d, s, i) < |m| && r[s + i] == m[s + Origin(d, s, i)]
  {
    hide Origin;
    OriginStep(d, s, i);
    if s < d && i >= d - s { ForwardRereads(m, r, d, s, i, s + i); }
  }

  lemma ForwardRereads(m: seq<byte>, r: seq<byte>, d: nat, s: nat, i: nat, j: nat)
    requires d + i <= |m| && s + i < |m| && Copied(m, r, d, s, i) && d <= j == s + i && s < d
    ensures s + Origin(d, s, j - d) < |m| && r[j] == m[s + Origin(d, s, i - (d - s))]
  {
    assert r[j] == m[s + Origin(d, s, j - d)];
  }

  // The byte-by-byte copy from the front.
  method Memcpy(mem: array<byte>, dest: nat, src: nat, n: nat)
    requires dest + n <= mem.Length && src + n <= mem.Length
    modifies mem
    ensures Copied(old(mem[..]), mem[..], dest, src, n)
  {
    hide Origin;
    var i := 0;
    while i < n
      invariant i <= n && Copied(old(mem[..]), mem[..], dest, src, i)
    {
      ForwardRead(old(mem[..]), mem[..], dest, src, i);
      mem[dest + i] := mem[src + i];
      i := i + 1;
    }
  }

  // Offsets lo to hi of the destination hold the old source bytes; nothing else has changed.
  ghost predicate MovedBetween(m: seq<byte>, r: seq<byte>, d: nat, s: nat, lo: int, hi: int)
    requires 0 <= lo <= hi && d + hi <= |m| && s + hi <= |m|
  {
    && |r| == |m|
    && (forall k {:trigger r[k]} :: d + lo <= k < d + hi ==> r[k] == m[s + (k - d)])
    && (forall k {:trigger r[k]} :: 0 <= k < |m| && (k < d + lo || d + hi <= k) ==> r[k] == m[k])
  }

  lemma MovedWhole(m: seq<byte>, r: seq<byte>, d: nat, s: nat, n: nat)
    requires d + n <= |m| && s + n <= |m| && MovedBetween(m, r, d, s, 0, n)
    ensures r == Moved(m, d, s, n)
  {
  }

  lemma MovedMeans(m: seq<byte>, d: nat, s: nat, n: nat)
    requires d + n <= |m| && s + n <= |m|
    ensures MovedBetween(m, Moved(m, d, s, n), d, s, 0, n)
  {
  }

  method Memmove(mem: array<byte>, dest: nat, src: nat, n: nat)
    requires dest + n <= mem.Length && src + n <= mem.Length
    modifies mem
    ensures mem[..] == Moved(old(mem[..]), dest, src, n)
  {
    hide Moved;
    ghost var m := mem[..];
    if dest < src {
      var i := 0;
      while i < n
        invariant 0 <= i <= n && MovedBetween(m, mem[..], dest, src, 0, i)
      {
        mem[dest + i] := mem[src + i];
        i := i + 1;
      }
    } else {
      var i := n;
      while i > 0
        invariant 0 <= i <= n && MovedBetween(m, mem[..], dest, src, i, n)
      {
        i := i - 1;
        mem[dest + i] := mem[src + i];
      }
    }
    MovedWhole(m, mem[..], dest, src, n);
  }

  predicate RepeatsAt(m: seq<byte>, i: nat, p: nat)
    requires p <= i < |m|
  {
    m[i] == m[i - p]
  }

  // The n bytes at s repeat with period p.
  ghost predicate Periodic(m: seq<byte>, s: nat, n: nat, p: nat)
    requires s + n <= |m|
  {
    forall i :: s + p <= i < s + n ==> RepeatsAt(m, i, p)
  }

  lemma {:induction false} PeriodicOrigin(m: seq<byte>, d: nat, s: nat, n: nat, k: nat)
    requires s < d && k < n && s + n <= |m| && Periodic(m, s, n, d - s)
    ensures m[s + Origin(d, s, k)] == m[s + k]
    decreases k
  {
    if k >= d - s {
      assert RepeatsAt(m, s + k, d - s);
      PeriodicOrigin(m, d, s, n, k - (d - s));
    }
  }

  lemma CopyAgrees(m: seq<byte>, r: seq<byte>, d: nat, s: nat, n: nat)
    requires d + n <= |m| && s + n <= |m| && Copied(m, r, d, s, n)
    requires d <= s || s + n <= d || Periodic(m, s, n, d - s)
    ensures MovedBetween(m, r, d, s, 0, n)
  {
    hide Origin;
    forall k | d <= k < d + n ensures r[k] == m[s + (k - d)] {
      if s < d && Periodic(m, s, n, d - s) {
        PeriodicOrigin(m, d, s, n, k - d);
      } else {
        OriginStep(d, s, k - d);
      }
    }
  }

  lemma AgreementIsPeriodic(m: seq<byte>, r: seq<byte>, d: nat, s: nat, n: nat)
    requires d + n <= |m| && s + n <= |m| && s < d && Copied(m, r, d, s, n) && MovedBetween(m, r, d, s, 0, n)
    ensures Periodic(m, s, n, d - s)
  {
    hide Origin;
    var p := d - s;
    forall i | s + p <= i < s + n ensures RepeatsAt(m, i, p) {
      OriginStep(d, s, i - s);
      assert m[i] == r[i + p] == m[s + Origin(d, s, i - s)];
      assert m[i - p] == r[i] == m[s + Origin(d, s, i - s - p)];
    }
  }

  // A forward copy does what memmove does exactly when the destination does not start inside
  // the source, or the source happens to repeat with the distance between the two.
  lemma ForwardCopyExactly(m: seq<byte>, r: seq<byte>, d: nat, s: nat, n: nat)
    requires d + n <= |m| && s + n <= |m| && Copied(m, r, d, s, n)
    ensures r == Moved(m, d, s, n) <==> d <= s || s + n <= d || Periodic(m, s, n, d - s)
  {
    hide Moved, Copied, MovedBetween, Origin;
    if d <= s || s + n <= d || Periodic(m, s, n, d - s) {
      CopyAgrees(m, r, d, s, n);
      MovedWhole(m, r, d, s, n);
    } else if r == Moved(m, d, s, n) {
      MovedMeans(m, d, s, n);
      AgreementIsPeriodic(m, r, d, s, n);
    }
  }

  // ---------------------------------------------------------------- NUL-terminated strings

  predicate Terminated(m: seq<byte>, p: nat)
    decreases |m| - p
  {
    p < |m| && (m[p] == 0 || Terminated(m, p + 1))
  }

  // The bytes from p up to the NUL.
  function CStr(m: seq<byte>, p: nat): (s: seq<byte>)
    requires Terminated(m, p)
    ensures forall c :: c in s ==> c != 0
    decreases |m| - p
  {
    if m[p] == 0 then [] else [m[p]] + CStr(m, p + 1)
  }

  // p is a cursor at offset i of the string h.
  ghost predicate CursorAt(m: seq<byte>, p: nat, h: seq<byte>, i: nat) {
    Terminated(m, p) && i <= |h| && CStr(m, p) == h[i..]
  }

  // A cursor is at the end, or can go one step on.
  lemma CursorStep(m: seq<byte>, p: nat, h: seq<byte>, i: nat)
    requires CursorAt(m, p, h, i)
    ensures p < |m| && i <= |h| && (m[p] == 0 <==> i == |h|)
    ensures m[p] != 0 ==> p + 1 < |m| && h[i] == m[p] && CursorAt(m, p + 1, h, i + 1)
  {
    var rest := CStr(m, p);
    assert |rest| == |h| - i;
    if m[p] != 0 {
      assert Terminated(m, p + 1) && rest == [m[p]] + CStr(m, p + 1);
      assert h[i] == rest[0] == m[p];
      assert h[i + 1..] == rest[1..] == CStr(m, p + 1);
    }
  }

  lemma CursorStart(m: seq<byte>, p: nat)
    requires Terminated(m, p)
    ensures CursorAt(m, p, CStr(m, p), 0)
  {
  }

  predicate OccursAt(h: seq<byte>, n: seq<byte>, i: nat) {
    i + |n| <= |h| && h[i..i + |n|] == n
  }

  ghost predicate NoneBefore(h: seq<byte>, n: seq<byte>, i: nat) {
    forall j: nat :: j < i ==> !OccursAt(h, n, j)
  }

  lemma NoneStep(h: seq<byte>, n: seq<byte>, i: nat)
    requires NoneBefore(h, n, i) && !OccursAt(h, n, i)
    ensures NoneBefore(h, n, i + 1)
  {
  }

  lemma NoneAtAll(h: seq<byte>, n: seq<byte>, i: nat)
    requires n != [] && NoneBefore(h, n, |h|)
    ensures !OccursAt(h, n, i)
  {
  }

  // Where a needle that is not empty starts, its first byte stands.
  lemma FirstByte(m: seq<byte>, p: nat, q: nat, h: seq<byte>, n: seq<byte>, i: nat)
    requires CursorAt(m, p, h, i) && CursorAt(m, q, n, 0) && m[q] != 0 && m[p] != m[q]
    ensures !OccursAt(h, n, i)
  {
    CursorStep(m, p, h, i);
    CursorStep(m, q, n, 0);
    Mismatch(h, n, i, 0);
  }

  // The leftmost occurrence, or NULL exactly when there is none; section 7.24.5.7 of
  // ISO/IEC 9899:2011.
  method Strstr(mem: array<byte>, haystack: nat, needle: nat) returns (r: int)
    requires Terminated(mem[..], haystack) && Terminated(mem[..], needle)
    ensures var h, n := CStr(mem[..], haystack), CStr(mem[..], needle);
            && (r == NULL ==> forall i: nat :: !OccursAt(h, n, i))
            && (r != NULL ==> haystack <= r && OccursAt(h, n, r - haystack) && NoneBefore(h, n, r - haystack))
  {
    ghost var m := mem[..];
    ghost var h, n := CStr(m, haystack), CStr(m, needle);
    CursorStart(m, haystack);
    CursorStart(m, needle);
    hide OccursAt, CStr, Terminated, CursorAt;
    CursorStep(m, needle, n, 0);
    CursorStep(m, haystack, h, 0);
    if mem[needle] == 0 {
      assert OccursAt(h, n, 0) by { EmptyOccurs(h, n); }
      return haystack;
    }
    hide NoneBefore;
    assert NoneBefore(h, n, 0) by { NoneYet(h, n); }
    var cursor: nat := haystack;
    while mem[cursor] != 0
      invariant haystack <= cursor < mem.Length
      invariant CursorAt(m, cursor, h, cursor - haystack) && NoneBefore(h, n, cursor - haystack)
      decreases mem.Length - cursor
    {
      ghost var i := cursor - haystack;
      CursorStep(m, cursor, h, i);
      if mem[cursor] == mem[needle] {
        var matched := MatchHere(mem, cursor, needle, h, n, i);
        if matched { return cursor; }
      } else {
        FirstByte(m, cursor, needle, h, n, i);
      }
      NoneStep(h, n, i);
      cursor := cursor + 1;
    }
    CursorStep(m, cursor, h, cursor - haystack);
    forall i: nat ensures !OccursAt(h, n, i) { NoneAtAll(h, n, i); }
    return NULL;
  }

  lemma EmptyOccurs(h: seq<byte>, n: seq<byte>)
    requires n == []
    ensures OccursAt(h, n, 0)
  {
  }

  lemma NoneYet(h: seq<byte>, n: seq<byte>)
    ensures NoneBefore(h, n, 0)
  {
  }

  // The inner loop: advance both cursors while the bytes agree.
  method MatchHere(mem: array<byte>, cursor: nat, needle: nat, ghost h: seq<byte>, ghost n: seq<byte>, ghost i: nat)
      returns (matched: bool)
    requires CursorAt(mem[..], cursor, h, i) && CursorAt(mem[..], needle, n, 0)
    ensures matched <==> OccursAt(h, n, i)
  {
    hide CursorAt;
    ghost var m := mem[..];
    ghost var k := 0;
    var a: nat, b: nat := cursor, needle;
    CursorStep(m, a, h, i);
    CursorStep(m, b, n, 0);
    while mem[a] != 0 && mem[b] != 0 && mem[a] == mem[b]
      invariant CursorAt(m, a, h, i + k) && CursorAt(m, b, n, k) && a < mem.Length && b < mem.Length
      invariant i + k <= |h| && k <= |n| && h[i..i + k] == n[..k]
      decreases mem.Length - a
    {
      CursorStep(m, a, h, i + k);
      CursorStep(m, b, n, k);
      OneMore(h, n, i, k);
      a, b := a + 1, b + 1;
      k := k + 1;
      CursorStep(m, a, h, i + k);
      CursorStep(m, b, n, k);
    }
    CursorStep(m, a, h, i + k);
    CursorStep(m, b, n, k);
    Mismatch(h, n, i, k);
    return mem[b] == 0;
  }

  lemma OneMore(h: seq<byte>, n: seq<byte>, i: nat, k: nat)
    requires i + k < |h| && k < |n| && h[i..i + k] == n[..k] && h[i + k] == n[k]
    ensures h[i..i + k + 1] == n[..k + 1]
  {
    assert h[i..i + k + 1] == h[i..i + k] + [h[i + k]];
  }

  lemma Mismatch(h: seq<byte>, n: seq<byte>, i: nat, k: nat)
    requires i + k <= |h| && k <= |n| && h[i..i + k] == n[..k]
    ensures k == |n| ==> OccursAt(h, n, i)
    ensures k < |n| && (i + k == |h| || h[i + k] != n[k]) ==> !OccursAt(h, n, i)
  {
    if k < |n| && i + |n| <= |h| && h[i + k] != n[k] {
      assert h[i..i + |n|][k] != n[k];
    }
  }

  // ---------------------------------------------------------------- comparison

  // Difference of the first bytes that differ, the end of a string counting as NUL.
  function Diff(a: seq<byte>, b: seq<byte>): int {
    if a == [] then (if b == [] then 0 else -b[0])
    else if b == [] then a[0]
    else if a[0] != b[0] then a[0] - b[0]
    else Diff(a[1..], b[1..])
  }

  // The byte at k, the end of the string counting as NUL.
  function ByteAt(a: seq<byte>, k: nat): byte { if k < |a| then a[k] else 0 }

  // The result is the difference at the first place where the strings differ, or end.
  lemma {:induction false} DiffAtFirst(a: seq<byte>, b: seq<byte>, k: nat)
    requires k <= |a| && k <= |b| && a[..k] == b[..k]
    requires k == |a| || k == |b| || a[k] != b[k]
    ensures Diff(a, b) == ByteAt(a, k) as int - ByteAt(b, k) as int
  {
    if k > 0 {
      assert a[0] == a[..k][0] == b[..k][0] == b[0];
      assert a[1..][..k - 1] == a[..k][1..] == b[..k][1..] == b[1..][..k - 1];
      DiffAtFirst(a[1..], b[1..], k - 1);
    }
  }

  // The comparison loop at its cursors: one step on, or decided.
  lemma DiffStep(m: seq<byte>, p: nat, q: nat)
    requires Terminated(m, p) && Terminated(m, q)
    ensures p < |m| && q < |m|
    ensures if m[p] != 0 && m[p] == m[q] then
              && Terminated(m, p + 1) && Terminated(m, q + 1)
              && Diff(CStr(m, p), CStr(m, q)) == Diff(CStr(m, p + 1), CStr(m, q + 1))
            else Diff(CStr(m, p), CStr(m, q)) == m[p] as int - m[q] as int
  {
    var a, b := CStr(m, p), CStr(m, q);
    if m[p] != 0 { assert a[1..] == CStr(m, p + 1); }
    if m[q] != 0 { assert b[1..] == CStr(m, q + 1); }
  }

  method Strcmp(mem: array<byte>, s1: nat, s2: nat) returns (r: int)
    requires Terminated(mem[..], s1) && Terminated(mem[..], s2)
    ensures r == Diff(CStr(mem[..], s1), CStr(mem[..], s2))
  {
    hide Terminated, CStr, Diff;
    ghost var m := mem[..];
    var p: nat, q: nat := s1, s2;
    DiffStep(m, p, q);
    while mem[p] != 0 && mem[p] == mem[q]
      invariant p < mem.Length && q < mem.Length && Terminated(m, p) && Terminated(m, q)
      invariant Diff(CStr(m, s1), CStr(m, s2)) == Diff(CStr(m, p), CStr(m, q))
      decreases mem.Length - p
    {
      DiffStep(m, p, q);
      p, q := p + 1, q + 1;
      DiffStep(m, p, q);
    }
    DiffStep(m, p, q);
    return mem[p] as int - mem[q] as int;
  }

  ghost predicate NulFree(a: seq<byte>) { 0 !in a }

  // strcmp is a total order on strings: zero exactly on equal ones, antisymmetric, transitive.
  lemma {:induction false} DiffZeroExactly(a: seq<byte>, b: seq<byte>)
    requires NulFree(a) && NulFree(b)
    ensures Diff(a, b) == 0 <==> a == b
  {
    if a != [] && b != [] && a[0] == b[0] {
      DiffZeroExactly(a[1..], b[1..]);
      assert a == [a[0]] + a[1..] && b == [b[0]] + b[1..];
    } else if a != [] { assert a[0] in a; if b != [] { assert b[0] in b; } }
    else if b != [] { assert b[0] in b; }
  }

  lemma {:induction false} DiffAntisymmetric(a: seq<byte>, b: seq<byte>)
    ensures Diff(a, b) == -Diff(b, a)
  {
    if a != [] && b != [] && a[0] == b[0] { DiffAntisymmetric(a[1..], b[1..]); }
  }

  lemma {:induction false} DiffTransitive(a: seq<byte>, b: seq<byte>, c: seq<byte>)
    requires NulFree(a) && NulFree(b) && NulFree(c) && Diff(a, b) <= 0 && Diff(b, c) <= 0
    ensures Diff(a, c) <= 0
  {
    if a != [] { assert a[0] in a; }
    if b != [] { assert b[0] in b; }
    if c != [] { assert c[0] in c; }
    if a != [] && b != [] && c != [] && a[0] == b[0] == c[0] { DiffTransitive(a[1..], b[1..], c[1..]); }
  }
}
