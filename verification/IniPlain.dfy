/**
 * The notions of the INI model in plain characters: which letters are the same, what is blank, how a line and a value
 * that somebody wrote by hand are read, and what it means that a key is found.
 */
module IniPlain {
  import opened Wrappers
  import opened CString
  import opened Chunks
  import opened QuoteCodec
  import opened IniLines
  import opened IniModel
  import opened IniLaws

  // ---- letters and blanks

  /** The same name, but for the case of the letters A to Z. */
  predicate SameName(a: string, b: string) {
    |a| == |b| &&
    forall i :: 0 <= i < |a| ==>
      a[i] == b[i] ||
      ('A' <= a[i] <= 'Z' && b[i] as int == a[i] as int + 32) ||
      ('A' <= b[i] <= 'Z' && a[i] as int == b[i] as int + 32)
  }

  lemma {:induction false} EqFoldIsSameName(a: string, b: string)
    ensures EqFold(a, b) <==> SameName(a, b)
  {
    if a == [] || b == [] {
      LowerLength(a, b);
    } else {
      EqFoldIsSameName(a[1..], b[1..]);
      SameLetter(a[0], b[0]);
      SameTail(a, b);
      assert Lower(a) == [Fold(a[0])] + Lower(a[1..]) && Lower(b) == [Fold(b[0])] + Lower(b[1..]);
      assert Lower(a)[1..] == Lower(a[1..]) && Lower(b)[1..] == Lower(b[1..]);
    }
  }

  lemma SameLetter(a: char, b: char)
    ensures Fold(a) == Fold(b) <==> SameName([a], [b])
  {
    assert [a][0] == a && [b][0] == b;
  }

  lemma SameTail(a: string, b: string)
    requires a != [] && b != []
    ensures SameName(a, b) <==> SameName([a[0]], [b[0]]) && SameName(a[1..], b[1..])
  {
    assert [a[0]][0] == a[0] && [b[0]][0] == b[0];
    if SameName([a[0]], [b[0]]) && SameName(a[1..], b[1..]) {
      assert forall i :: 1 <= i < |a| ==> a[i] == a[1..][i - 1] && b[i] == b[1..][i - 1];
    }
    if SameName(a, b) {
      assert forall i :: 0 <= i < |a| - 1 ==> a[1..][i] == a[i + 1] && b[1..][i] == b[i + 1];
    }
  }

  /** A byte is blank if it is at most a space as a signed character. */
  lemma BlankIsSigned(c: char)
    requires c as int < 256
    ensures Blank(c) <==> (if c as int < 128 then c as int else c as int - 256) <= 32
  {
  }

  predicate Blanks(w: string) { forall i :: 0 <= i < |w| ==> w[i] as int <= 32 || w[i] as int >= 128 }

  /** It begins and ends with something that is no blank. */
  predicate Solid(s: string) { s != [] && 32 < s[0] as int < 128 && 32 < s[|s| - 1] as int < 128 }

  lemma {:induction false} TrimsFront(w: string, s: string)
    requires Blanks(w) && (s == [] || 32 < s[0] as int < 128)
    ensures LTrim(w + s) == s
  {
    if w == [] {
      assert w + s == s;
    } else {
      assert (w + s)[1..] == w[1..] + s;
      TrimsFront(w[1..], s);
    }
  }

  lemma {:induction false} TrimsBack(s: string, w: string)
    requires Blanks(w) && (s == [] || 32 < s[|s| - 1] as int < 128)
    ensures RTrim(s + w) == s
  {
    hide RTrim;
    if w == [] {
      assert s + w == s;
      NothingToTrim(s);
    } else {
      var n := |w| - 1;
      TrimsBack(s, w[..n]);
      RTrimSnoc(s + w[..n], w[n]);
      assert s + w == (s + w[..n]) + [w[n]];
    }
  }

  lemma NothingToTrim(s: string)
    requires s == [] || 32 < s[|s| - 1] as int < 128
    ensures RTrim(s) == s
  {
  }

  // ---- lines

  lemma {:induction false} IndexOfNone(s: string, c: char)
    requires c !in s
    ensures Index(s, c) == |s|
  {
    if s == [] {
    } else {
      assert s[0] in s;
      IndexOfNone(s[1..], c);
    }
  }

  lemma {:induction false} BlanksHave(w: string, c: char)
    requires Blanks(w) && 32 < c as int < 128
    ensures c !in w
  {
  }

  /** The key's text in front of a sign: no sign in it, and nothing that makes it a comment or a header. */
  predicate KeyText(k: string) { Solid(k) && '=' !in k && k[0] != '[' && k[0] != ';' && k[0] != '#' }

  /**
   * `key = value`, with blanks anywhere around the key.  A colon does it, too, if there is no equals sign in the line
   * and no other colon in front of it.
   */
  lemma EntryIsRead(w: string, k: string, w': string, sign: char, raw: string)
    requires Blanks(w) && Blanks(w') && KeyText(k)
    requires sign == '=' || (sign == ':' && ':' !in k && '=' !in raw)
    ensures Parse(w + (k + w' + [sign] + raw)) == Line(false, None, false, Some(k), Decode(raw))
  {
    hide Decode, LTrim, RTrim, Index;
    var sp := k + w' + [sign] + raw;
    TrimsFront(w, sp);
    BlanksHave(w', '=');
    BlanksHave(w', ':');
    var front := k + w';
    assert sp == front + ([sign] + raw);
    IndexAfter(front, [sign] + raw, sign);
    FirstIsAt([sign] + raw, sign);
    if sign == ':' { IndexOfNone(sp, '='); }
    assert sp[..|front|] == front && sp[|front| + 1..] == raw;
    TrimsBack(k, w');
  }

  lemma FirstIsAt(s: string, c: char)
    requires s != [] && s[0] == c
    ensures Index(s, c) == 0
  {
  }

  /** A line whose first character is `;` or `#` is a comment: no header, and no lookup finds a key in it. */
  lemma CommentIsRead(w: string, c: char, rest: string, k: string)
    requires Blanks(w) && (c == ';' || c == '#')
    ensures var l := Parse(w + ([c] + rest)); !l.bracket && l.section == None && l.comment && !Entry(l, k)
  {
    hide Decode, LTrim, RTrim, Index;
    TrimsFront(w, [c] + rest);
  }

  /** `[name]`, whatever follows.  Without the closing bracket it ends a section and begins none. */
  lemma HeaderIsRead(w: string, name: string, rest: string)
    requires Blanks(w) && ']' !in name
    ensures var l := Parse(w + ("[" + name + "]" + rest)); l.bracket && l.section == Some(name)
    ensures var l := Parse(w + ("[" + name)); l.bracket && l.section == None
  {
    hide Decode, LTrim, RTrim, Index;
    var sp := "[" + name + "]" + rest;
    TrimsFront(w, sp);
    assert sp == ("[" + name) + ("]" + rest);
    IndexAfter("[" + name, "]" + rest, ']');
    FirstIsAt("]" + rest, ']');
    assert sp[1..|name| + 1] == name;
    TrimsFront(w, "[" + name);
    IndexOfNone("[" + name, ']');
  }

  /** A line without a sign has no key. */
  lemma NoKeyIsRead(s: string)
    requires '=' !in s && ':' !in s
    ensures Parse(s).key == None
  {
    hide Decode, RTrim, Index;
    var sp := LTrim(s);
    LTrimIsSuffix(s);
    IndexOfNone(sp, '=');
    IndexOfNone(sp, ':');
  }

  // ---- values

  /** Nothing, or a comment. */
  predicate Tail(s: string) { s == [] || s[0] == ';' || s[0] == '#' }

  lemma {:induction false} ScanStopsAt(s: string, tail: string)
    requires '"' !in s && ';' !in s && '#' !in s && Tail(tail)
    ensures CommentEnd(s + tail, false) == |s|
  {
    if s == [] {
      assert s + tail == tail;
    } else {
      assert s[0] in s;
      assert (s + tail)[1..] == s[1..] + tail;
      if |s| > 1 { assert s[1] in s; }
      ScanStopsAt(s[1..], tail);
    }
  }

  /** A value without quotes, blanks around it, and a comment. */
  lemma PlainValueIsRead(w: string, v: string, w': string, tail: string)
    requires Blanks(w) && Blanks(w') && Solid(v) && Tail(tail)
    requires '"' !in v && ';' !in v && '#' !in v
    ensures Decode(w + (v + w' + tail)) == v
  {
    var sp := v + w' + tail;
    TrimsFront(w, sp);
    BlanksHave(w', '"');
    BlanksHave(w', ';');
    BlanksHave(w', '#');
    ScanStopsAt(v + w', tail);
    assert sp[..|v + w'|] == v + w';
    TrimsBack(v, w');
    assert v[0] in v;
  }

  /** The comment scan runs over an escaped text that does not end with a backslash. */
  lemma {:induction false} ScanOverEscaped(v: string, rest: string)
    requires v == [] || v[|v| - 1] != '\\'
    requires rest != [] && rest[0] != '"'
    ensures CommentEnd(Escape(v) + (['"'] + rest), true) == |Escape(v)| + 1 + CommentEnd(rest, false)
  {
    var q := ['"'] + rest;
    if v == [] {
      assert Escape(v) + q == q;
      CloseQuote(q, rest);
    } else {
      EscapeFirst(v);
      hide Escape, CommentEnd, EscapeChar;
      ScanOverEscaped(v[1..], rest);
      assert Escape(v) + q == EscapeChar(v[0]) + (Escape(v[1..]) + q);
      EscapedQuote(v[1..], q);
      ScanOne(v[0], Escape(v[1..]) + q);
    }
  }

  lemma EscapeFirst(v: string)
    requires v != []
    ensures Escape(v) == EscapeChar(v[0]) + Escape(v[1..])
  {
  }

  lemma EscapedQuote(v: string, q: string)
    requires q != []
    ensures v != [] ==> (Escape(v) + q)[0] != '"'
    ensures Escape(v) + q != []
  {
  }

  lemma CloseQuote(q: string, rest: string)
    requires q == ['"'] + rest && rest != [] && rest[0] != '"'
    ensures CommentEnd(q, true) == 1 + CommentEnd(rest, false)
  {
    assert q[1..] == rest;
  }

  function Quoted(v: string): string { ['"'] + Escape(v) + ['"'] }

  /** A quoted value: the text between the quotes, with escaped quotes, blanks around it, and a comment. */
  lemma QuotedValueIsRead(w: string, v: string, w': string, tail: string)
    requires Blanks(w) && Blanks(w') && Tail(tail) && w' + tail != []
    requires v == [] || v[|v| - 1] != '\\'
    ensures Decode(w + (Quoted(v) + (w' + tail))) == v
  {
    var q, rest := Quoted(v), w' + tail;
    QuotedEnds(v);
    hide LTrim, RTrim, Escape, CommentEnd, Quoted, Dequote;
    TrimsFront(w, q + rest);
    BlanksHave(w', '"');
    BlanksHave(w', ';');
    BlanksHave(w', '#');
    ScanStopsAt(w', tail);
    assert rest[0] == if w' == [] then tail[0] else w'[0];
    ScanOverQuoted(v, rest);
    assert (q + rest)[..|q| + |w'|] == q + w';
    TrimsBack(q, w');
  }

  lemma QuotedEnds(v: string)
    ensures var q := Quoted(v); Solid(q) && Unwrap(q) == v
  {
    var q := Quoted(v);
    assert q[1..|q| - 1] == Escape(v);
    DequoteEscape(v);
  }

  lemma ScanOverQuoted(v: string, rest: string)
    requires v == [] || v[|v| - 1] != '\\'
    requires rest != [] && rest[0] != '"'
    ensures CommentEnd(Quoted(v) + rest, false) == |Quoted(v)| + CommentEnd(rest, false)
  {
    var e := Escape(v) + (['"'] + rest);
    assert Quoted(v) + rest == ['"'] + e;
    if v == [] {
      assert e == ['"'] + rest && e[1..] == rest;
      OpenAndClose(e, rest);
    } else {
      ScanOverEscaped(v, rest);
      assert e[0] == Escape(v)[0];
      OpenQuote(e);
    }
  }

  lemma OpenQuote(s: string)
    requires s != [] && s[0] != '"'
    ensures CommentEnd(['"'] + s, false) == 1 + CommentEnd(s, true)
  {
    assert (['"'] + s)[1..] == s;
  }

  lemma OpenAndClose(s: string, rest: string)
    requires s == ['"'] + rest
    ensures CommentEnd(['"'] + s, false) == 2 + CommentEnd(rest, false)
  {
    assert (['"'] + s)[2..] == rest;
  }

  /** The exception is needed: behind a final backslash the comment stays in the value. */
  lemma BackslashHidesQuote()
    ensures Decode("\"a\\\";c") == "\"a\\\";c"
  {
    var s := "\"a\\\";c";
    assert s[1..] == "a\\\";c" && s[2..] == "\\\";c" && s[4..] == ";c" && s[5..] == "c" && s[6..] == "";
    assert s[1..][1..] == s[2..] && s[2..][2..] == s[4..] && s[4..][1..] == s[5..] && s[5..][1..] == s[6..];
    assert CommentEnd(s[5..], true) == 1;
    assert CommentEnd(s[4..], true) == 2;
    assert CommentEnd(s[2..], true) == 4;
    assert CommentEnd(s[1..], true) == 5;
    assert s[..6] == s;
  }

  lemma {:induction false} EscapeOfPlain(a: string)
    requires '"' !in a
    ensures Escape(a) == a
  {
    if a == [] {
    } else {
      EscapeFirst(a);
      hide Escape;
      assert a[0] in a;
      EscapeOfPlain(a[1..]);
      assert a == [a[0]] + a[1..];
    }
  }

  lemma {:induction false} EscapeAppend(a: string, b: string)
    ensures Escape(a + b) == Escape(a) + Escape(b)
  {
    if a == [] {
      assert a + b == b;
    } else {
      EscapeFirst(a);
      EscapeFirst(a + b);
      hide Escape, EscapeChar;
      assert (a + b)[1..] == a[1..] + b;
      EscapeAppend(a[1..], b);
      Assoc(EscapeChar(a[0]), Escape(a[1..]), Escape(b));
    }
  }

  /** What escaping is: a backslash in front of every quote, and nothing else. */
  lemma EscapeIs(a: string, b: string)
    requires '"' !in a
    ensures Escape(a) == a && Escape(a + (['"'] + b)) == a + (['\\', '"'] + Escape(b))
  {
    EscapeOfPlain(a);
    EscapeAppend(a, ['"'] + b);
    EscapeFirst(['"'] + b);
    assert (['"'] + b)[1..] == b;
  }

  /** Doubled quotes. */
  function Doubled(v: string): string {
    if v == [] then [] else (if v[0] == '"' then ['"', '"'] else [v[0]]) + Doubled(v[1..])
  }

  /** They stand for quotes, like escaped ones. */
  lemma {:induction false} DequoteDoubled(v: string)
    requires '\\' !in v
    ensures Dequote(Doubled(v)) == v
  {
    var s := Doubled(v);
    if v == [] {
    } else {
      assert v[0] in v;
      DequoteDoubled(v[1..]);
      assert s[if v[0] == '"' then 2 else 1..] == Doubled(v[1..]);
    }
  }

  /** Which values `check_enquote` wants quoted, and how long the written value is. */
  lemma {:induction false} PlainIs(s: string)
    ensures Plain(s) <==> '"' !in s && ';' !in s && '#' !in s
  {
    if s == [] {
    } else {
      PlainIs(s[1..]);
      assert s == [s[0]] + s[1..];
    }
  }

  predicate WantsQuotes(v: string) {
    '"' in v || ';' in v || '#' in v || (v != [] && v[|v| - 1] == ' ')
  }

  /** The length of what is written: with quotes two more, and one for every quote in it. */
  function WrittenLength(v: string): nat { if WantsQuotes(v) then |v| + multiset(v)['"'] + 2 else |v| }

  /** The value fits in a line with its key and has no outer blanks, or quotes around them. */
  predicate Survives(k: string, v: string) {
    |k| + WrittenLength(v) <= 508 && (WantsQuotes(v) || v == [] || Solid(v))
  }

  lemma {:induction false} EscapeLength(v: string)
    ensures |Escape(v)| == |v| + multiset(v)['"']
  {
    if v == [] {
    } else {
      EscapeLength(v[1..]);
      assert v == [v[0]] + v[1..];
      assert multiset(v) == multiset([v[0]]) + multiset(v[1..]);
    }
  }

  lemma EncodeIs(v: string)
    ensures NeedsQuote(v) <==> WantsQuotes(v)
    ensures |Encode(v)| == WrittenLength(v)
    ensures Encode(v) == if WantsQuotes(v) then ['"'] + Escape(v) + ['"'] else v
  {
    PlainIs(v);
    EscapeLength(v);
  }

  lemma SurvivesIs(k: string, v: string)
    ensures Survives(k, v) <==> Fits(k, v) && Stored(v) == v
  {
    hide WrittenLength;
    EncodeIs(v);
    StoredIsValue(v);
  }

  /** The written lines, character by character. */
  lemma WrittenLinesAre(s: string, k: string, v: string)
    ensures ValidSection(s) ==> SectionLine(s) == "[" + s + "]\n"
    ensures ValidKey(k) && |k| + WrittenLength(v) <= 508 ==>
              KeyLine(k, v) == k + "=" + (if WantsQuotes(v) then ['"'] + Escape(v) + ['"'] else v) + "\n"
  {
    hide WrittenLength, WrittenValue;
    EncodeIs(v);
    if ValidKey(k) && |k| + WrittenLength(v) <= 508 { WrittenValueFits(k, v); }
  }

  // ---- being found

  predicate IsHeader(l: Line, section: string) {
    l.bracket && l.section.Some? && SameName(l.section.value, section)
  }

  predicate IsEntry(l: Line, key: string) { !l.bracket && !l.comment && l.key.Some? && SameName(l.key.value, key) }

  /** Line `i` is where the key is found: the first entry for it behind the first header, within the section. */
  ghost predicate FoundAt(ls: seq<Line>, section: string, key: string, from: nat, i: nat) {
    from <= i < |ls| && IsEntry(ls[i], key) &&
    (forall j :: from <= j < i ==> !ls[j].bracket && !IsEntry(ls[j], key)) &&
    if section == [] then from == 0
    else from > 0 && IsHeader(ls[from - 1], section) && forall j :: 0 <= j < from - 1 ==> !IsHeader(ls[j], section)
  }

  lemma {:induction false} FirstIs(ls: seq<Line>, from: nat, m: Mark, i: nat)
    requires from <= i <= |ls| && (i < |ls| ==> Hits(ls[i], m))
    requires forall j :: from <= j < i ==> !Hits(ls[j], m)
    ensures First(ls, from, m) == i
    decreases i - from
  {
    if from == i {
    } else {
      FirstIs(ls, from + 1, m, i);
    }
  }

  lemma HitsIs(l: Line, name: string)
    ensures Hits(l, AHeader(name)) <==> IsHeader(l, name)
    ensures Hits(l, AnEntry(name)) <==> l.bracket || IsEntry(l, name)
  {
    if l.section.Some? { EqFoldIsSameName(l.section.value, name); }
    if l.key.Some? { EqFoldIsSameName(l.key.value, name); }
  }

  /** A key that stands where it is found is found there. */
  lemma FoundIsFound(ls: seq<Line>, section: string, key: string, from: nat, i: nat)
    requires FoundAt(ls, section, key, from, i)
    ensures Find(ls, section, key) == Some(ls[i].value)
  {
    forall j | 0 <= j < |ls|
      ensures Hits(ls[j], AHeader(section)) <==> IsHeader(ls[j], section)
      ensures Hits(ls[j], AnEntry(key)) <==> ls[j].bracket || IsEntry(ls[j], key)
    {
      HitsIs(ls[j], section);
      HitsIs(ls[j], key);
    }
    hide Hits, IsHeader;
    if section != [] { FirstIs(ls, 0, AHeader(section), from - 1); }
    FirstIs(ls, from, AnEntry(key), i);
  }

  /** And one that is found stands somewhere. */
  lemma FindIsSomewhere(ls: seq<Line>, section: string, key: string) returns (from: nat, i: nat)
    requires Find(ls, section, key).Some?
    ensures FoundAt(ls, section, key, from, i)
  {
    from := Start(ls, section).value;
    i := First(ls, from, AnEntry(key));
    HitsIs(ls[i], key);
    forall j | from <= j < i ensures !ls[j].bracket && !IsEntry(ls[j], key) {
      NoneBefore(ls, from, AnEntry(key), j);
      HitsIs(ls[j], key);
    }
    if section != [] {
      HitsIs(ls[from - 1], section);
      forall j | 0 <= j < from - 1 ensures !IsHeader(ls[j], section) {
        NoneBefore(ls, 0, AHeader(section), j);
        HitsIs(ls[j], section);
      }
    }
  }
}
