/**
 * The C string notions minIni.c is written with.  A C string is a `string` without NUL;
 * a buffer that holds one is an array in which the characters are followed by NUL.
 */
module CString {
  const NUL: char := '\0'

  predicate IsStr(s: string) { NUL !in s }

  /** What `*p <= ' '` accepts.  Plain `char` is signed, so 128..255 are negative and pass the test. */
  predicate Blank(c: char) { c <= ' ' || c >= '\U{80}' }

  /** The text from `skipleading(s)` on. */
  function LTrim(s: string): (r: string)
    ensures |r| <= |s| && (r != [] ==> !Blank(r[0]))
  {
    if s != [] && Blank(s[0]) then LTrim(s[1..]) else s
  }

  /** The text `striptrailing(s)` leaves. */
  function RTrim(s: string): (r: string)
    ensures |r| <= |s| && (r != [] ==> !Blank(r[|r| - 1]))
  {
    if s != [] && Blank(s[|s| - 1]) then RTrim(s[..|s| - 1]) else s
  }

  /** `strchr` as an index; the length stands for the null pointer. */
  function Index(s: string, c: char): (r: nat)
    ensures r <= |s| && (r < |s| ==> s[r] == c)
  {
    if s == [] || s[0] == c then 0 else 1 + Index(s[1..], c)
  }

  function Take(s: string, n: nat): string { if |s| <= n then s else s[..n] }

  /** `tolower` in the C locale. */
  function Fold(c: char): char { if 'A' <= c <= 'Z' then (c as int + 32) as char else c }

  function Lower(s: string): (r: string)
    ensures |r| == |s|
  {
    if s == [] then [] else [Fold(s[0])] + Lower(s[1..])
  }

  /** `strncasecmp` finds no difference over the full, equal lengths. */
  predicate EqFold(a: string, b: string) { Lower(a) == Lower(b) }

  /** Names of different lengths differ. */
  lemma LowerLength(a: string, b: string)
    ensures EqFold(a, b) ==> |a| == |b|
  {
    assert |Lower(a)| == |a| && |Lower(b)| == |b|;
  }

  lemma {:induction false} LTrimIsSuffix(s: string)
    ensures LTrim(s) == s[|s| - |LTrim(s)|..]
  {
    if s != [] && Blank(s[0]) { LTrimIsSuffix(s[1..]); }
  }

  lemma {:induction false} RTrimIsPrefix(s: string)
    ensures RTrim(s) == s[..|RTrim(s)|]
  {
    if s != [] && Blank(s[|s| - 1]) { RTrimIsPrefix(s[..|s| - 1]); }
  }

  lemma RTrimSnoc(s: string, c: char)
    ensures RTrim(s + [c]) == if Blank(c) then RTrim(s) else s + [c]
  {
    assert (s + [c])[..|s|] == s;
  }

  lemma {:induction false} LTrimSnoc(s: string, c: char)
    ensures LTrim(s) != [] ==> LTrim(s + [c]) == LTrim(s) + [c]
    ensures LTrim(s) == [] && Blank(c) ==> LTrim(s + [c]) == []
  {
    if s == [] {
      assert (s + [c])[1..] == [];
    } else if Blank(s[0]) {
      LTrimSnoc(s[1..], c);
      assert (s + [c])[1..] == s[1..] + [c];
    }
  }

  lemma {:induction false} IndexAfter(a: string, b: string, c: char)
    requires c !in a
    ensures Index(a + b, c) == |a| + Index(b, c)
  {
    if a == [] {
      assert a + b == b;
    } else {
      assert c == a[0] ==> c in a;
      IndexAfter(a[1..], b, c);
      assert (a + b)[1..] == a[1..] + b;
    }
  }

  lemma {:induction false} IndexSnoc(s: string, c: char, d: char)
    ensures Index(s + [d], c) == if Index(s, c) < |s| || d == c then Index(s, c) else |s| + 1
  {
    if s == [] {
      assert (s + [d])[1..] == [];
    } else {
      IndexSnoc(s[1..], c, d);
      assert (s + [d])[1..] == s[1..] + [d];
    }
  }

  /** `buf + off` points at the NUL-terminated string `s`. */
  ghost predicate StrAt(buf: array<char>, off: nat, s: string)
    reads buf
  {
    off + |s| < buf.Length && buf[off..off + |s|] == s && buf[off + |s|] == NUL && IsStr(s)
  }

  /** One step along a string in a buffer. */
  lemma StrAtHead(buf: array<char>, off: nat, s: string)
    requires StrAt(buf, off, s)
    ensures off < buf.Length && (buf[off] == NUL <==> s == [])
    ensures s != [] ==> buf[off] == s[0] && StrAt(buf, off + 1, s[1..])
  {
    if s != [] {
      assert buf[off] == buf[off..off + |s|][0];
      assert s[0] in s;
      assert buf[off + 1..off + |s|] == buf[off..off + |s|][1..];
    }
  }

  lemma StrAtSuffix(buf: array<char>, off: nat, s: string, n: nat)
    requires StrAt(buf, off, s) && n <= |s|
    ensures StrAt(buf, off + n, s[n..])
  {
    assert buf[off + n..off + |s|] == buf[off..off + |s|][n..];
  }

  lemma StrAtPart(buf: array<char>, off: nat, s: string, i: nat, j: nat)
    requires StrAt(buf, off, s) && i <= j <= |s|
    ensures buf[off + i..off + j] == s[i..j]
  {
    forall k | 0 <= k < j - i ensures buf[off + i..off + j][k] == s[i..j][k] {
      assert buf[off..off + |s|][i + k] == s[i + k];
    }
  }

  /** The second character of a string, and the rest behind it. */
  lemma StrAtSecond(buf: array<char>, off: nat, s: string)
    requires StrAt(buf, off, s) && s != []
    ensures |s| > 1 ==> buf[off + 1] == s[1] && StrAt(buf, off + 2, s[2..])
    ensures |s| == 1 ==> buf[off + 1] == NUL
  {
    StrAtHead(buf, off, s);
    StrAtHead(buf, off + 1, s[1..]);
    if |s| > 1 { assert s[1..][1..] == s[2..]; }
  }

  /** Cutting a string in a buffer short. */
  lemma PartIsStr(s: string, i: nat, j: nat)
    requires IsStr(s) && i <= j <= |s|
    ensures IsStr(s[i..j])
  {
    assert forall c :: c in s[i..j] ==> c in s;
  }

  /** minIni.c `skipleading` */
  method SkipLeading(buf: array<char>, off: nat, ghost s: string) returns (p: nat)
    requires StrAt(buf, off, s)
    ensures p == off + |s| - |LTrim(s)| && StrAt(buf, p, LTrim(s))
  {
    p := off;
    ghost var rest := s;
    StrAtHead(buf, p, rest);
    while buf[p] != NUL && Blank(buf[p])
      invariant StrAt(buf, p, rest) && p + |rest| == off + |s| && LTrim(rest) == LTrim(s)
      invariant buf[p] == NUL <==> rest == []
      invariant rest != [] ==> buf[p] == rest[0] && StrAt(buf, p + 1, rest[1..])
      decreases |rest|
    {
      p, rest := p + 1, rest[1..];
      StrAtHead(buf, p, rest);
    }
  }

  /** minIni.c `skiptrailing`: walks back from `end`, never before `base`. */
  method SkipTrailing(buf: array<char>, end: nat, base: nat) returns (p: nat)
    requires base <= end <= buf.Length
    ensures base <= p <= end && buf[base..p] == RTrim(buf[base..end])
  {
    p := end;
    while p > base && Blank(buf[p - 1])
      invariant base <= p <= end && RTrim(buf[base..p]) == RTrim(buf[base..end])
    {
      assert buf[base..p][..p - 1 - base] == buf[base..p - 1];
      p := p - 1;
    }
  }

  /** `strlen` */
  method StrLen(buf: array<char>, off: nat, ghost s: string) returns (n: nat)
    requires StrAt(buf, off, s)
    ensures n == |s|
  {
    var p: nat := off;
    ghost var rest := s;
    StrAtHead(buf, p, rest);
    while buf[p] != NUL
      invariant StrAt(buf, p, rest) && p + |rest| == off + |s|
      invariant buf[p] == NUL <==> rest == []
      invariant rest != [] ==> StrAt(buf, p + 1, rest[1..])
      decreases |rest|
    {
      p, rest := p + 1, rest[1..];
      StrAtHead(buf, p, rest);
    }
    n := p - off;
  }

  /** `strchr`: the position of the first `c`; `found` is false for the null pointer. */
  method StrChr(buf: array<char>, off: nat, c: char, ghost s: string) returns (p: nat, found: bool)
    requires StrAt(buf, off, s) && c != NUL
    ensures p == off + Index(s, c) && found == (Index(s, c) < |s|)
  {
    p := off;
    ghost var rest := s;
    StrAtHead(buf, p, rest);
    while buf[p] != NUL && buf[p] != c
      invariant StrAt(buf, p, rest) && p + |rest| == off + |s|
      invariant p - off + Index(rest, c) == Index(s, c)
      invariant buf[p] == NUL <==> rest == []
      invariant rest != [] ==> buf[p] == rest[0] && StrAt(buf, p + 1, rest[1..])
      decreases |rest|
    {
      p, rest := p + 1, rest[1..];
      StrAtHead(buf, p, rest);
    }
    found := buf[p] != NUL;
  }
}
