/**
 * How minIni.c writes a value behind `key=` and how it reads it back: `check_enquote`,
 * `save_strncpy` in its three modes, and the comment scan and quote removal of `getkeystring`.
 */
module QuoteCodec {
  import opened CString

  datatype QuoteOption = QUOTE_NONE | QUOTE_ENQUOTE | QUOTE_DEQUOTE

  predicate Special(c: char) { c == '"' || c == ';' || c == '#' }

  /** No character that `check_enquote` looks for. */
  predicate Plain(s: string) { s == [] || (!Special(s[0]) && Plain(s[1..])) }

  /** The values `check_enquote` asks to be written between quotes. */
  predicate NeedsQuote(v: string) { !Plain(v) || (v != [] && v[|v| - 1] == ' ') }

  method CheckEnquote(value: string) returns (option: QuoteOption)
    ensures option == if NeedsQuote(value) then QUOTE_ENQUOTE else QUOTE_NONE
  {
    var p := 0;
    while p < |value| && value[p] != '"' && value[p] != ';' && value[p] != '#'
      invariant p <= |value| && Plain(value) == Plain(value[p..])
    {
      assert value[p..][1..] == value[p + 1..];
      p := p + 1;
    }
    option := if p < |value| || (p > 0 && value[p - 1] == ' ') then QUOTE_ENQUOTE else QUOTE_NONE;
  }

  function EscapeChar(c: char): string { if c == '"' then ['\\', '"'] else [c] }

  /** Every `"` preceded by a backslash; all else as it is, backslashes too. */
  function Escape(v: string): (r: string)
    ensures |r| >= |v| && (r != [] ==> r[0] != '"')
  {
    if v == [] then [] else EscapeChar(v[0]) + Escape(v[1..])
  }

  /** How many characters of `v` the enquoting copy takes when `room` are left between the quotes. */
  function Fitting(v: string, room: nat): (n: nat)
    ensures n <= |v|
  {
    if v == [] || room == 0 || (v[0] == '"' && room < 2) then 0
    else 1 + Fitting(v[1..], if v[0] == '"' then room - 2 else room - 1)
  }

  /** `\"` and `""` both stand for `"`. */
  function Dequote(s: string): (r: string)
    ensures |r| <= |s|
  {
    if s == [] then []
    else if (s[0] == '"' || s[0] == '\\') && |s| > 1 && s[1] == '"' then ['"'] + Dequote(s[2..])
    else [s[0]] + Dequote(s[1..])
  }

  function Enquote(v: string): string { ['"'] + Escape(v) + ['"'] }

  /** The text `save_strncpy` leaves in a destination of `maxlen` characters. */
  function CopyText(source: string, maxlen: nat, option: QuoteOption): string
    requires maxlen > 0
  {
    match option
    case QUOTE_NONE => Take(source, maxlen - 1)
    case QUOTE_ENQUOTE =>
      if maxlen < 3 then Take(source, maxlen - 1) else Enquote(source[..Fitting(source, maxlen - 3)])
    case QUOTE_DEQUOTE => Take(Dequote(source), maxlen - 1)
  }

  lemma {:induction false} EscapeSnoc(v: string, c: char)
    ensures Escape(v + [c]) == Escape(v) + EscapeChar(c)
  {
    if v == [] {
      assert [c][1..] == [];
    } else {
      EscapeSnoc(v[1..], c);
      assert (v + [c])[1..] == v[1..] + [c];
      assert (v + [c])[0] == v[0];
    }
  }

  /** The copy takes as long a prefix as fits, so the whole value exactly when its encoding fits. */
  lemma {:induction false} FittingIsMaximal(v: string, room: nat)
    ensures |Escape(v[..Fitting(v, room)])| <= room
    ensures Fitting(v, room) == |v| <==> |Escape(v)| <= room
    ensures Fitting(v, room) < |v| ==> |Escape(v[..Fitting(v, room) + 1])| > room
  {
    if v != [] && room > 0 && !(v[0] == '"' && room < 2) {
      var left := if v[0] == '"' then room - 2 else room - 1;
      FittingIsMaximal(v[1..], left);
      var n := Fitting(v[1..], left);
      assert v[..n + 1][1..] == v[1..][..n];
      if n < |v| - 1 { assert v[..n + 2][1..] == v[1..][..n + 1]; }
    }
  }

  lemma CopyTextFits(source: string, maxlen: nat, option: QuoteOption)
    requires maxlen > 0 && IsStr(source)
    ensures |CopyText(source, maxlen, option)| < maxlen
    ensures IsStr(CopyText(source, maxlen, option))
  {
    EscapeIsStr(source);
    if maxlen >= 3 {
      FittingIsMaximal(source, maxlen - 3);
      EscapeIsStr(source[..Fitting(source, maxlen - 3)]);
    }
    DequoteIsStr(source);
  }

  lemma {:induction false} EscapeIsStr(s: string)
    requires IsStr(s)
    ensures IsStr(Escape(s))
  {
    if s == [] {
    } else {
      assert IsStr(s[1..]) && s[0] in s;
      EscapeIsStr(s[1..]);
    }
  }

  lemma {:induction false} DequoteIsStr(s: string)
    requires IsStr(s)
    ensures IsStr(Dequote(s))
  {
    if s == [] {
    } else {
      assert IsStr(s[1..]) && s[0] in s;
      DequoteIsStr(s[1..]);
      if |s| > 1 { assert IsStr(s[2..]); DequoteIsStr(s[2..]); }
    }
  }

  /** minIni.c `save_strncpy`: never leaves its `maxlen` characters and always terminates its output. */
  method SaveStrncpy(dest: array<char>, at: nat, source: string, maxlen: nat, option: QuoteOption)
    requires maxlen > 0 && at + maxlen <= dest.Length && IsStr(source)
    modifies dest
    ensures StrAt(dest, at, CopyText(source, maxlen, option)) && |CopyText(source, maxlen, option)| < maxlen
    ensures forall i :: 0 <= i < at || at + maxlen <= i < dest.Length ==> dest[i] == old(dest[i])
  {
    CopyTextFits(source, maxlen, option);
    match option
    case QUOTE_NONE => CopyPlain(dest, at, source, maxlen);
    case QUOTE_ENQUOTE =>
      if maxlen < 3 { CopyPlain(dest, at, source, maxlen); } else { CopyEnquoted(dest, at, source, maxlen); }
    case QUOTE_DEQUOTE => CopyDequoted(dest, at, source, maxlen);
  }

  method CopyPlain(dest: array<char>, at: nat, source: string, maxlen: nat)
    requires maxlen > 0 && at + maxlen <= dest.Length && IsStr(source)
    modifies dest
    ensures StrAt(dest, at, Take(source, maxlen - 1))
    ensures forall i :: 0 <= i < at || at + maxlen <= i < dest.Length ==> dest[i] == old(dest[i])
  {
    var d := 0;
    while d < maxlen - 1 && d < |source|
      invariant d <= maxlen - 1 && d <= |source|
      invariant dest[at..at + d] == source[..d]
      invariant forall i :: 0 <= i < at || at + maxlen <= i < dest.Length ==> dest[i] == old(dest[i])
    {
      d := PutChar(dest, at, d, source[d]);
    }
    dest[at + d] := NUL;
    assert dest[at..at + d] == source[..d];
  }

  method CopyEnquoted(dest: array<char>, at: nat, source: string, maxlen: nat)
    requires maxlen >= 3 && at + maxlen <= dest.Length && IsStr(source)
    modifies dest
    ensures StrAt(dest, at, Enquote(source[..Fitting(source, maxlen - 3)]))
    ensures forall i :: 0 <= i < at || at + maxlen <= i < dest.Length ==> dest[i] == old(dest[i])
  {
    hide Escape, IsStr;
    var d, s := 1, 0;
    dest[at] := '"';
    NothingEscaped(source);
    while s < |source| && d < maxlen - 2
      invariant s <= |source| && 1 <= d <= maxlen - 2
      invariant Fitting(source, maxlen - 3) == s + Fitting(source[s..], maxlen - 2 - d)
      invariant dest[at..at + d] == ['"'] + Escape(source[..s])
      invariant forall i :: 0 <= i < at || at + maxlen <= i < dest.Length ==> dest[i] == old(dest[i])
      decreases |source| - s
    {
      EscapeNext(source, s);
      if source[s] == '"' {
        if d >= maxlen - 3 { break; }
        d := PutChar(dest, at, d, '\\');
      }
      d := PutChar(dest, at, d, source[s]);
      s := s + 1;
    }
    PartIsStr(source, 0, s);
    CloseQuote(dest, at, d, source[..s]);
  }

  lemma NothingEscaped(v: string)
    ensures ['"'] + Escape(v[..0]) == ['"'] && v[0..] == v
  {
  }

  lemma EscapeNext(v: string, s: nat)
    requires s < |v|
    ensures ['"'] + Escape(v[..s + 1]) ==
            if v[s] == '"' then ((['"'] + Escape(v[..s])) + ['\\']) + [v[s]] else (['"'] + Escape(v[..s])) + [v[s]]
    ensures v[s..][1..] == v[s + 1..]
  {
    EscapeSnoc(v[..s], v[s]);
    assert v[..s + 1] == v[..s] + [v[s]];
    Assoc(['"'], Escape(v[..s]), EscapeChar(v[s]));
    if v[s] == '"' { Assoc(['"'] + Escape(v[..s]), ['\\'], ['"']); }
  }

  /** `dest[d++] = c` */
  method PutChar(dest: array<char>, at: nat, d: nat, c: char) returns (next: nat)
    requires at + d < dest.Length
    modifies dest
    ensures next == d + 1 && dest[at..at + next] == old(dest[at..at + d]) + [c]
    ensures forall i :: 0 <= i < at || at + d < i < dest.Length ==> dest[i] == old(dest[i])
  {
    dest[at + d] := c;
    next := d + 1;
    assert dest[at..at + next] == dest[at..at + d] + [c];
  }

  /** The closing quote and the terminator. */
  method CloseQuote(dest: array<char>, at: nat, d: nat, ghost v: string)
    requires at + d + 1 < dest.Length && dest[at..at + d] == ['"'] + Escape(v) && IsStr(v)
    modifies dest
    ensures StrAt(dest, at, Enquote(v))
    ensures forall i :: 0 <= i < at || at + d + 2 <= i < dest.Length ==> dest[i] == old(dest[i])
  {
    ghost var before := dest[at..at + d];
    dest[at + d] := '"';
    dest[at + d + 1] := NUL;
    EscapeIsStr(v);
    assert dest[at..at + d + 1] == before + ['"'];
  }

  method CopyDequoted(dest: array<char>, at: nat, source: string, maxlen: nat)
    requires maxlen > 0 && at + maxlen <= dest.Length && IsStr(source)
    modifies dest
    ensures StrAt(dest, at, Take(Dequote(source), maxlen - 1))
    ensures forall i :: 0 <= i < at || at + maxlen <= i < dest.Length ==> dest[i] == old(dest[i])
  {
    var d, s := 0, 0;
    while s < |source| && d < maxlen - 1
      invariant s <= |source| && d <= maxlen - 1
      invariant Dequote(source) == dest[at..at + d] + Dequote(source[s..])
      invariant forall i :: 0 <= i < at || at + maxlen <= i < dest.Length ==> dest[i] == old(dest[i])
      decreases |source| - s
    {
      DequoteStep(dest[at..at + d], source[s..]);
      if (source[s] == '"' || source[s] == '\\') && s + 1 < |source| && source[s + 1] == '"' {
        s := s + 1;
      }
      d := PutChar(dest, at, d, source[s]);
      s := s + 1;
    }
    dest[at + d] := NUL;
    DequoteIsStr(source);
    assert dest[at..at + d] == Take(Dequote(source), maxlen - 1);
  }

  lemma DequoteStep(done: string, s: string)
    requires s != []
    ensures done + Dequote(s) ==
            if (s[0] == '"' || s[0] == '\\') && |s| > 1 && s[1] == '"' then (done + ['"']) + Dequote(s[2..])
            else (done + [s[0]]) + Dequote(s[1..])
  {
    Assoc(done, [s[0]], Dequote(s[1..]));
    if |s| > 1 { Assoc(done, ['"'], Dequote(s[2..])); }
  }

  lemma Assoc(a: string, b: string, c: string)
    ensures a + (b + c) == (a + b) + c
  {
  }

  /** Where the comment scan of `getkeystring` stops; `isstring` is its flag. */
  function CommentEnd(s: string, isstring: bool): (n: nat)
    ensures n <= |s|
    ensures n < |s| ==> s[n] == ';' || s[n] == '#'
  {
    if s == [] || ((s[0] == ';' || s[0] == '#') && !isstring) then 0
    else if s[0] == '"' && |s| > 1 && s[1] == '"' then 2 + CommentEnd(s[2..], isstring)
    else if s[0] == '"' then 1 + CommentEnd(s[1..], !isstring)
    else if s[0] == '\\' && |s| > 1 && s[1] == '"' then 2 + CommentEnd(s[2..], isstring)
    else 1 + CommentEnd(s[1..], isstring)
  }

  /** The value `getkeystring` reads from what follows the equal sign. */
  function Decode(raw: string): string {
    var sp := LTrim(raw);
    Unwrap(RTrim(sp[..CommentEnd(sp, false)]))
  }

  /** Removes surrounding quotes; a lone quote counts as both of them. */
  function Unwrap(s: string): string {
    if s != [] && s[0] == '"' && s[|s| - 1] == '"' then
      (if |s| == 1 then [] else Dequote(s[1..|s| - 1]))
    else s
  }

  /** What is written for a value for which there is room. */
  function Encode(v: string): string { if NeedsQuote(v) then Enquote(v) else v }

  /** What is read back for it. */
  function Stored(v: string): string { if NeedsQuote(v) then v else RTrim(LTrim(v)) }

  lemma {:induction false} DequoteEscape(v: string)
    ensures Dequote(Escape(v)) == v
  {
    if v == [] {
    } else {
      DequoteEscape(v[1..]);
      assert Escape(v)[if v[0] == '"' then 2 else 1..] == Escape(v[1..]);
    }
  }

  lemma FinalBackslash()
    ensures CommentEnd(Escape(['\\']) + ['"', '\n'], true) == 3
  {
    assert Escape(['\\'][1..]) == [];
    var s := Escape(['\\']) + ['"', '\n'];
    assert s == ['\\', '"', '\n'] && s[2..] == ['\n'] && ['\n'][1..] == [];
  }

  lemma ScanOne(c: char, s: string)
    requires s != [] && (c == '\\' ==> s[0] != '"')
    ensures CommentEnd(EscapeChar(c) + s, true) == |EscapeChar(c)| + CommentEnd(s, true)
  {
    assert (EscapeChar(c) + s)[|EscapeChar(c)|..] == s;
  }

  /** Inside quotes nothing ends the scan: not the escaped text, not the closing quote, even when a
      final backslash makes the scan take that quote for an escaped one. */
  lemma {:induction false} ScanPassesEscaped(v: string)
    ensures CommentEnd(Escape(v) + ['"', '\n'], true) == |Escape(v)| + 2
  {
    var s := Escape(v) + ['"', '\n'];
    if v == [] {
      assert s[1..] == ['\n'] && ['\n'][1..] == [];
    } else if v == ['\\'] {
      FinalBackslash();
    } else {
      ScanPassesEscaped(v[1..]);
      Assoc(EscapeChar(v[0]), Escape(v[1..]), ['"', '\n']);
      ScanOne(v[0], Escape(v[1..]) + ['"', '\n']);
    }
  }

  lemma ScanPassesEnquoted(v: string)
    ensures CommentEnd(Enquote(v) + ['\n'], false) == |Enquote(v)| + 1
  {
    var s := Enquote(v) + ['\n'];
    if v == [] {
      assert s == ['"', '"', '\n'] && s[2..] == ['\n'] && ['\n'][1..] == [];
    } else {
      ScanPassesEscaped(v);
      assert s[1..] == Escape(v) + ['"', '\n'];
      assert s[1] == Escape(v)[0];
    }
  }

  /** Decoding undoes enquoting for every text, whatever it contains. */
  lemma DecodeEnquoted(v: string)
    ensures Decode(Enquote(v) + ['\n']) == v
  {
    var q := Enquote(v);
    ScanPassesEnquoted(v);
    RTrimSnoc(q, '\n');
    assert (q + ['\n'])[..|q| + 1] == q + ['\n'];
    assert q[1..|q| - 1] == Escape(v);
    DequoteEscape(v);
  }

  lemma {:induction false} ScanPassesPlain(s: string)
    requires Plain(s)
    ensures CommentEnd(s, false) == |s|
  {
    if s == [] {
    } else {
      ScanPassesPlain(s[1..]);
    }
  }

  lemma {:induction false} PlainSnoc(s: string, c: char)
    requires Plain(s) && !Special(c)
    ensures Plain(s + [c])
  {
    if s == [] {
      assert (s + [c])[1..] == [];
    } else {
      PlainSnoc(s[1..], c);
      assert (s + [c])[1..] == s[1..] + [c];
    }
  }

  lemma {:induction false} PlainLTrim(s: string)
    requires Plain(s)
    ensures Plain(LTrim(s))
  {
    if s != [] && Blank(s[0]) { PlainLTrim(s[1..]); }
  }

  lemma PlainUnwrap(s: string)
    requires Plain(s)
    ensures Unwrap(RTrim(s)) == RTrim(s)
  {
    RTrimIsPrefix(s);
  }

  lemma TrimSnoc(s: string, c: char)
    requires Blank(c)
    ensures RTrim(LTrim(s + [c])) == RTrim(LTrim(s))
  {
    LTrimSnoc(s, c);
    RTrimSnoc(LTrim(s), c);
  }

  lemma DecodePlain(v: string)
    requires !NeedsQuote(v)
    ensures Decode(v + ['\n']) == RTrim(LTrim(v))
  {
    var sp := LTrim(v + ['\n']);
    PlainSnoc(v, '\n');
    PlainLTrim(v + ['\n']);
    ScanPassesPlain(sp);
    assert sp[..|sp|] == sp;
    TrimSnoc(v, '\n');
    PlainUnwrap(sp);
  }

  /** What is read behind `key=` on a written line, for every value. */
  lemma DecodeEncode(v: string)
    ensures Decode(Encode(v) + ['\n']) == Stored(v)
  {
    if NeedsQuote(v) { DecodeEnquoted(v); } else { DecodePlain(v); }
  }

  /** The round trip is exact for the quoted values and for those without blanks at either end. */
  lemma StoredIsValue(v: string)
    ensures Stored(v) == v <==>
            NeedsQuote(v) || v == [] || (!Blank(v[0]) && !Blank(v[|v| - 1]))
  {
    LTrimIsSuffix(v);
    RTrimIsPrefix(LTrim(v));
  }
}
