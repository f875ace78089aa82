/** `long2str`, `strreverse` and `strtol`: 64-bit integers as decimal text. */
module Decimal {
  import opened CString

  const LONG_MIN: int := -0x8000_0000_0000_0000
  const LONG_MAX: int := 0x7fff_ffff_ffff_ffff

  predicate IsLong(v: int) { LONG_MIN <= v <= LONG_MAX }

  // C division truncates toward zero; the remainder has the sign of the dividend.
  function CDiv(a: int, b: nat): int requires b > 0 { if a >= 0 then a / b else -((-a) / b) }
  function CRem(a: int, b: nat): int requires b > 0 { a - CDiv(a, b) * b }

  function Abs(v: int): nat { if v < 0 then -v else v }

  function Digit(d: nat): char requires d < 10 { (d + '0' as int) as char }

  /** The canonical decimal digits of a number: no leading zeros. */
  function Digits(n: nat): (s: string)
    ensures s != []
  {
    if n < 10 then [Digit(n)] else Digits(n / 10) + [Digit(n % 10)]
  }

  /** The canonical decimal text of an integer. */
  function Text(v: int): string { if v < 0 then ['-'] + Digits(Abs(v)) else Digits(v) }

  function Reverse(s: string): (r: string)
    ensures |r| == |s|
  {
    if s == [] then [] else Reverse(s[1..]) + [s[0]]
  }

  lemma {:induction false} ReverseSnoc(s: string, c: char)
    ensures Reverse(s + [c]) == [c] + Reverse(s)
  {
    if s == [] {
      assert (s + [c])[1..] == [];
    } else {
      ReverseSnoc(s[1..], c);
      assert (s + [c])[1..] == s[1..] + [c];
    }
  }

  lemma {:induction false} ReverseAt(s: string, k: nat)
    requires k < |s|
    ensures Reverse(s)[k] == s[|s| - 1 - k]
  {
    if k < |s| - 1 { ReverseAt(s[1..], k); }
  }

  /** minIni.c `strreverse` */
  method StrReverse(str: array<char>, ghost s: string)
    requires StrAt(str, 0, s)
    modifies str
    ensures StrAt(str, 0, Reverse(s))
  {
    var n := StrLen(str, 0, s);
    var i, j := 0, n as int - 1;
    while i < j
      invariant 0 <= i <= n && j == n - 1 - i && i <= j + 1
      invariant forall k :: 0 <= k < i ==> str[k] == s[n - 1 - k]
      invariant forall k :: j < k < n ==> str[k] == s[n - 1 - k]
      invariant forall k :: i <= k <= j ==> str[k] == s[k]
      invariant str[n] == NUL
    {
      str[i], str[j] := str[j], str[i];
      i, j := i + 1, j - 1;
    }
    forall k | 0 <= k < n ensures str[..n][k] == Reverse(s)[k] && Reverse(s)[k] != NUL { ReverseAt(s, k); }
    assert str[..n] == Reverse(s);
  }

  lemma {:induction false} DigitsLength(n: nat, k: nat, bound: nat)
    requires k > 0 && bound == Pow10(k) && n < bound
    ensures |Digits(n)| <= k
  {
    if n >= 10 { DigitsLength(n / 10, k - 1, Pow10(k - 1)); }
  }

  function Pow10(k: nat): nat { if k == 0 then 1 else 10 * Pow10(k - 1) }

  /** A `long` has at most 19 digits. */
  lemma LongHasNineteenDigits(v: int)
    requires IsLong(v)
    ensures |Digits(Abs(v))| <= 19 && |Text(v)| <= 20
  {
    assert Pow10(19) == 1_0000_0000_0000_0000_000 by {
      assert Pow10(4) == 1_0000;
      assert Pow10(8) == 1_0000_0000;
      assert Pow10(12) == 1_0000_0000_0000;
      assert Pow10(16) == 1_0000_0000_0000_0000;
    }
    DigitsLength(Abs(v), 19, Pow10(19));
  }

  /** minIni.c `long2str`, for every value including the smallest, whose absolute value is no `long`. */
  method Long2Str(value: int, str: array<char>)
    requires IsLong(value) && str.Length >= 21
    modifies str
    ensures StrAt(str, 0, Text(value))
  {
    hide Digits, Reverse;
    LongHasNineteenDigits(value);
    var i, v := 0, value;
    ghost var all := Digits(Abs(value));
    NoDigitYet(all, str[..0]);
    while true
      invariant IsLong(v) && (value >= 0 ==> v >= 0) && (value <= 0 ==> v <= 0)
      invariant i < |all| && all == Digits(Abs(v)) + Reverse(str[..i])
      decreases Abs(v)
    {
      var n := CRem(v, 10);
      ghost var done := str[..i];
      DigitStep(v, done);
      str[i] := (Abs(n) + '0' as int) as char;
      i := i + 1;
      assert str[..i] == done + [Digit(Abs(n))];
      v := CDiv(v, 10);
      if v == 0 { break; }
    }
    assert [] + Reverse(str[..i]) == Reverse(str[..i]);
    SignAndTurn(str, i, value);
  }

  /** The end of `long2str`: the sign, the terminator, and the reversal. */
  method SignAndTurn(str: array<char>, n: nat, value: int)
    requires n + 1 < str.Length && Reverse(str[..n]) == Digits(Abs(value))
    modifies str
    ensures StrAt(str, 0, Text(value))
  {
    ghost var s := str[..n];
    Printable(s, Digits(Abs(value)), value);
    ReverseSnoc(s, '-');
    var i := n;
    if value < 0 {
      str[i] := '-';
      i := i + 1;
      assert str[..i] == s + ['-'];
    }
    ghost var t := str[..i];
    str[i] := NUL;
    assert str[0..i] == t;
    StrReverse(str, t);
  }

  lemma NoDigitYet(all: string, done: string)
    requires done == []
    ensures all == all + Reverse(done)
  {
  }

  /** One round: the last digit goes to the generated text. */
  lemma DigitStep(v: int, done: string)
    ensures Abs(CRem(v, 10)) < 10 && Abs(CDiv(v, 10)) == Abs(v) / 10
    ensures Digits(Abs(v)) + Reverse(done) ==
            (if CDiv(v, 10) == 0 then [] else Digits(Abs(CDiv(v, 10)))) + Reverse(done + [Digit(Abs(CRem(v, 10)))])
  {
    var d := [Digit(Abs(CRem(v, 10)))];
    assert Abs(CRem(v, 10)) == Abs(v) % 10;
    ReverseSnoc(done, d[0]);
    if CDiv(v, 10) == 0 {
      assert [] + (d + Reverse(done)) == d + Reverse(done);
    } else {
      var front := Digits(Abs(CDiv(v, 10)));
      assert (front + d) + Reverse(done) == front + (d + Reverse(done));
    }
  }

  lemma {:induction false} ReverseIsStr(s: string)
    requires IsStr(Reverse(s))
    ensures IsStr(s)
  {
    forall k | 0 <= k < |s| ensures s[k] != NUL {
      ReverseAt(s, |s| - 1 - k);
      assert Reverse(s)[|s| - 1 - k] in Reverse(s);
    }
  }

  predicate IsDigit(c: char) { '0' <= c <= '9' }

  predicate AllDigits(s: string) { s == [] || (IsDigit(s[0]) && AllDigits(s[1..])) }

  lemma {:induction false} AllDigitsSnoc(s: string, c: char)
    requires AllDigits(s) && IsDigit(c)
    ensures AllDigits(s + [c])
  {
    if s == [] {
      assert (s + [c])[1..] == [];
    } else {
      AllDigitsSnoc(s[1..], c);
      assert (s + [c])[1..] == s[1..] + [c];
    }
  }

  lemma {:induction false} DigitsAreDigits(n: nat)
    ensures AllDigits(Digits(n))
  {
    if n < 10 {
      assert [Digit(n)][1..] == [];
    } else {
      DigitsAreDigits(n / 10);
      AllDigitsSnoc(Digits(n / 10), Digit(n % 10));
    }
  }

  lemma {:induction false} AllDigitsAt(s: string, k: nat)
    requires AllDigits(s) && k < |s|
    ensures IsDigit(s[k])
  {
    if k == 0 {
    } else {
      AllDigitsAt(s[1..], k - 1);
    }
  }

  /** The generated digits and the sign are no NUL. */
  lemma Printable(s: string, all: string, value: int)
    requires Reverse(s) == all && all == Digits(Abs(value))
    ensures IsStr(s) && IsStr(s + ['-'])
  {
    DigitsAreDigits(Abs(value));
    forall k | 0 <= k < |all| ensures all[k] != NUL { AllDigitsAt(all, k); }
    ReverseIsStr(s);
  }

  // ---- strtol

  /** `isspace` in the C locale */
  predicate IsSpace(c: char) { c == ' ' || '\t' <= c <= '\r' }

  function SkipSpace(s: string): string { if s != [] && IsSpace(s[0]) then SkipSpace(s[1..]) else s }

  /** The number the leading digits stand for, behind the digits already read. */
  function ParseDigits(s: string, acc: nat): nat {
    if s == [] || !IsDigit(s[0]) then acc else ParseDigits(s[1..], 10 * acc + (s[0] as int - '0' as int))
  }

  function Clamp(v: int): int { if v < LONG_MIN then LONG_MIN else if v > LONG_MAX then LONG_MAX else v }

  /** `strtol(s, &rest, 10)` */
  function StrToL(s: string): (v: int)
    ensures IsLong(v)
  {
    var t := SkipSpace(s);
    if t != [] && t[0] == '-' then Clamp(-(ParseDigits(t[1..], 0) as int))
    else if t != [] && t[0] == '+' then Clamp(ParseDigits(t[1..], 0))
    else Clamp(ParseDigits(t, 0))
  }

  lemma {:induction false} ParseSnoc(s: string, d: nat, acc: nat)
    requires AllDigits(s) && d < 10
    ensures ParseDigits(s + [Digit(d)], acc) == 10 * ParseDigits(s, acc) + d
  {
    var t := s + [Digit(d)];
    if s == [] {
      assert t[1..] == [];
    } else {
      assert t[1..] == s[1..] + [Digit(d)];
      ParseSnoc(s[1..], d, 10 * acc + (s[0] as int - '0' as int));
    }
  }

  lemma {:induction false} ParseOfDigits(n: nat)
    ensures ParseDigits(Digits(n), 0) == n
  {
    DigitsAreDigits(n);
    if n < 10 {
      assert [Digit(n)][1..] == [];
    } else {
      DigitsAreDigits(n / 10);
      ParseOfDigits(n / 10);
      ParseSnoc(Digits(n / 10), n % 10, 0);
    }
  }

  /** Reading the text of a `long` gives it back. */
  lemma StrToLOfText(v: int)
    requires IsLong(v)
    ensures StrToL(Text(v)) == v
  {
    DigitsAreDigits(Abs(v));
    ParseOfDigits(Abs(v));
    if v < 0 {
      assert Text(v)[1..] == Digits(Abs(v));
    } else {
      assert IsDigit(Text(v)[0]);
    }
  }

  // ---- in plain characters

  /** Canonical: a minus sign if need be, then digits, of which the first is 0 only if it is the only one. */
  lemma {:induction false} TextIsCanonical(v: int)
    ensures v < 0 ==> Text(v) == "-" + Text(-v)
    ensures v >= 0 ==> Text(v) != [] && (forall k :: 0 <= k < |Text(v)| ==> '0' <= Text(v)[k] <= '9')
    ensures v >= 0 && |Text(v)| > 1 ==> Text(v)[0] != '0'
  {
    if v < 0 {
    } else {
      DigitsAreDigits(v);
      forall k | 0 <= k < |Digits(v)| ensures IsDigit(Digits(v)[k]) { AllDigitsAt(Digits(v), k); }
      NoLeadingZero(v);
    }
  }

  lemma {:induction false} NoLeadingZero(n: nat)
    ensures n > 0 ==> Digits(n)[0] != '0'
    ensures |Digits(n)| > 1 ==> n > 0
  {
    if n < 10 {
    } else {
      NoLeadingZero(n / 10);
    }
  }

  lemma {:induction false} ParseStops(s: string, rest: string, acc: nat)
    requires AllDigits(s) && (rest == [] || !IsDigit(rest[0]))
    ensures ParseDigits(s + rest, acc) == ParseDigits(s, acc)
  {
    if s == [] {
      assert s + rest == rest;
    } else {
      assert (s + rest)[1..] == s[1..] + rest;
      ParseStops(s[1..], rest, 10 * acc + (s[0] as int - '0' as int));
    }
  }

  lemma {:induction false} SkipsSpace(w: string, t: string)
    requires forall k :: 0 <= k < |w| ==> w[k] == ' ' || 9 <= w[k] as int <= 13
    requires t == [] || !(t[0] == ' ' || 9 <= t[0] as int <= 13)
    ensures SkipSpace(w + t) == t
  {
    if w == [] {
      assert w + t == t;
    } else {
      assert (w + t)[1..] == w[1..] + t;
      SkipsSpace(w[1..], t);
    }
  }

  /**
   * `strtol` skips white space, takes a sign and digits, leaves what follows, and keeps what it returns in the range of
   * a `long`, for every number and not only for those in that range.
   */
  lemma StrToLReads(w: string, v: int, rest: string)
    requires forall k :: 0 <= k < |w| ==> w[k] == ' ' || 9 <= w[k] as int <= 13
    requires rest == [] || !('0' <= rest[0] <= '9')
    ensures var r := if v < -0x8000_0000_0000_0000 then -0x8000_0000_0000_0000
                     else if v > 0x7fff_ffff_ffff_ffff then 0x7fff_ffff_ffff_ffff else v;
            StrToL(w + (Text(v) + rest)) == r && (v >= 0 ==> StrToL(w + ("+" + Text(v) + rest)) == r)
  {
    hide Digits, SkipSpace, ParseDigits;
    var d := Digits(Abs(v));
    DigitsAreDigits(Abs(v));
    AllDigitsAt(d, 0);
    ParseStops(d, rest, 0);
    ParseOfDigits(Abs(v));
    if v < 0 {
      assert Text(v) + rest == ['-'] + (d + rest);
    } else {
      assert "+" + Text(v) + rest == ['+'] + (d + rest);
      SkipsSpace(w, "+" + Text(v) + rest);
    }
    SkipsSpace(w, Text(v) + rest);
  }

  /** What does not begin with a number counts as 0. */
  lemma StrToLOfNone(w: string, rest: string)
    requires forall k :: 0 <= k < |w| ==> w[k] == ' ' || 9 <= w[k] as int <= 13
    requires rest == [] || !(rest[0] == ' ' || 9 <= rest[0] as int <= 13 || '0' <= rest[0] <= '9')
    requires rest != [] && (rest[0] == '+' || rest[0] == '-') && |rest| > 1 ==> !('0' <= rest[1] <= '9')
    ensures StrToL(w + rest) == 0
  {
    SkipsSpace(w, rest);
  }

  /** One digit after the other. */
  lemma DigitsAppend(n: nat, d: nat)
    requires n > 0 && d < 10
    ensures Text(10 * n + d) == Text(n) + ["0123456789"[d]]
    ensures Text(d) == ["0123456789"[d]]
  {
  }
}
