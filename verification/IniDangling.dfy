/**
 * The one file that notices the comparison of minIni.c:485 with a character outside the buffer: it ends with the header
 * of the section, without a line break, and no break is forced behind it.  The entry goes to the header's line, and
 * what does not fit there becomes a line of its own.
 */
module IniDangling {
  import opened Wrappers
  import opened CString
  import opened Chunks
  import opened QuoteCodec
  import opened IniLines
  import opened IniModel
  import opened IniLaws

  /** There is such a file. */
  lemma ThereIsDangling()
    ensures Dangling(Some("[s]"), "s", true) && IsStr("[s]")
  {
    var c := "[s]";
    HeaderS(c);
    FlatOne(c);
    PiecesOfFlat([c]);
    hide Pieces, Flat, Parse, HeaderOf;
    assert Lines([c])[0] == Parse(c);
  }

  lemma HeaderS(c: string)
    requires c == "[s]"
    ensures HeaderOf(Parse(c), "s")
  {
    assert LTrim(c) == c;
    IndexAfter("[s", "]", ']');
    assert c == "[s" + "]";
    assert c[1..2] == "s";
  }

  /** How much of the line goes to the header's line. */
  function Kept(last: string, line: string): (n: nat)
    ensures n <= |line|
  {
    if MAX_PIECE - |last| < 0 || MAX_PIECE - |last| >= |line| then |line| else MAX_PIECE - |last|
  }

  /** What does not. */
  function Rest(file: Option<string>, line: string): string {
    if file.None? || Pieces(file.value) == [] then [] else
      var cs := Pieces(file.value);
      line[Kept(cs[|cs| - 1], line)..]
  }

  /** It is read as an entry for this key. */
  predicate RestIsEntry(rest: string, k: string) { rest != [] && !Parse(rest).bracket && Entry(Parse(rest), k) }

  function RestLine(rest: string): seq<Line> { if rest == [] then [] else [Parse(rest)] }

  // ---- the header's line

  lemma {:induction false} LTrimAppend(s: string, t: string)
    requires LTrim(s) != []
    ensures LTrim(s + t) == LTrim(s) + t
  {
    if Blank(s[0]) {
      LTrimAppend(s[1..], t);
      assert (s + t)[1..] == s[1..] + t;
    }
  }

  lemma {:induction false} IndexAppend(s: string, t: string, c: char)
    requires Index(s, c) < |s|
    ensures Index(s + t, c) == Index(s, c)
  {
    if s[0] != c {
      IndexAppend(s[1..], t, c);
      assert (s + t)[1..] == s[1..] + t;
    }
  }

  /** More text behind a header does not change its name. */
  lemma HeaderAppend(c: string, t: string)
    requires Parse(c).section.Some?
    ensures Parse(c + t).section == Parse(c).section && Parse(c + t).bracket
  {
    hide LTrim, Index;
    var sp := LTrim(c);
    LTrimAppend(c, t);
    IndexAppend(sp, t, ']');
    assert (sp + t)[1..Index(sp, ']')] == sp[1..Index(sp, ']')];
  }

  lemma KeyLineEnds(k: string, v: string)
    requires |k| <= INI_BUFFERSIZE - 4
    ensures EndsLine(KeyLine(k, v))
  {
  }

  lemma TwoParts(last: string, line: string)
    requires Piece(last) && !Complete(last) && Complete(line) && EndsLine(line)
    ensures var n := Kept(last, line);
            n > 0 && Complete(last + line[..n]) && (n < |line| ==> Complete(line[n..])) &&
            (last + line[..n]) + line[n..] == last + line
  {
    var n := Kept(last, line);
    var c := last + line[..n];
    forall i | 0 <= i < |c| - 1 ensures c[i] != '\n' {
      assert c[i] == if i < |last| then last[i] else line[i - |last|];
    }
    assert n == |line| ==> c[|c| - 1] == line[n - 1];
  }

  function RestPiece(rest: string): seq<string> { if rest == [] then [] else [rest] }

  lemma SameText(front: seq<string>, last: string, line: string, c: string, rest: string)
    requires c + rest == last + line
    ensures Flat(front + [last] + [line]) == Flat((front + [c]) + RestPiece(rest))
  {
    FlatAppend(front + [last], [line]);
    FlatAppend(front, [last]);
    FlatAppend(front, [c]);
    FlatAppend(front + [c], RestPiece(rest));
    FlatOne(last);
    FlatOne(line);
    FlatOne(c);
    FlatOne(rest);
    assert Flat(RestPiece(rest)) == rest;
    hide Flat;
    assert Flat(front) + last + line == Flat(front) + (last + line);
    assert Flat(front) + c + rest == Flat(front) + (c + rest);
  }

  lemma DanglingText(front: seq<string>, last: string, line: string)
    requires AllComplete(front) && Piece(last) && !Complete(last) && Complete(line) && EndsLine(line)
    ensures var n := Kept(last, line);
            LinesOf(Flat(front + [last] + [line])) ==
            Lines(front) + [Parse(last + line[..n])] + RestLine(line[n..])
  {
    hide Pieces, Parse, Piece, Complete, Kept, Flat;
    var n := Kept(last, line);
    var c, rest := last + line[..n], line[n..];
    TwoParts(last, line);
    SameText(front, last, line, c, rest);
    CutAppend(front + [c], RestPiece(rest));
    assert Lines(front + [c]) == Lines(front) + [Parse(c)];
    assert Lines(RestPiece(rest)) == RestLine(rest);
  }

  /**
   * What the put leaves: in place of the header's line one that is the same header, and the line of the rest, if there
   * is one.
   */
  lemma DanglingLines(text: string, section: string, k: string, v: string)
    returns (front: seq<Line>, h: Line, h': Line)
    requires ValidSection(section) && ValidKey(k) && ValidValue(v) && Dangling(Some(text), section, true)
    ensures LinesOf(text) == front + [h] && h'.bracket == h.bracket == true && h'.section == h.section
    ensures section != [] && HeaderOf(h, section) && First(front, 0, AHeader(section)) == |front|
    ensures LinesOf(Puts(Some(text), section, Some(k), Some(v), true).value) ==
            front + [h'] + RestLine(Rest(Some(text), KeyLine(k, v)))
  {
    hide Pieces, Parse, KeyLine, SectionLine, First, Flat, Kept;
    var cs := Pieces(text);
    var n := |cs| - 1;
    var before, last, line := cs[..n], cs[n], KeyLine(k, v);
    PiecesAreWellCut(text);
    WrittenLinesAreComplete(section, k, v);
    KeyLineEnds(k, v);
    assert cs == before + [last];
    assert Lines(cs) == Lines(before) + [Parse(last)];
    assert Start(Lines(cs), section) == Some(|cs|);
    front, h, h' := Lines(before), Parse(last), Parse(last + line[..Kept(last, line)]);
    FirstTake(Lines(cs), 0, AHeader(section), n);
    assert Lines(cs)[..n] == front;
    HeaderAppend(last, line[..Kept(last, line)]);
    NothingBehind(Lines(cs), section, k);
    assert ForcedBreak(cs, |cs|, true) == [];
    assert cs + [] + [line] == before + [last] + [line];
    DanglingText(before, last, line);
  }

  /** The section ends with its header, so that the entry is appended. */
  lemma NothingBehind(ls: seq<Line>, section: string, k: string)
    requires Start(ls, section) == Some(|ls|)
    ensures Locate(ls, section, k) == Append(|ls|) && Find(ls, section, k) == None
  {
  }

  // ---- what lookups notice

  /** Two headers of one name at the end of a list are the same to every lookup, and nothing is found behind them. */
  lemma SameHeader(front: seq<Line>, h: Line, h': Line, section: string, section': string, k': string)
    requires h.bracket && h'.bracket && h.section == h'.section && HeaderOf(h, section)
    requires section != [] && First(front, 0, AHeader(section)) == |front|
    ensures Find(front + [h'], section', k') == Find(front + [h], section', k')
    ensures EqFold(section, section') ==> Find(front + [h], section', k') == None
    ensures Start(front + [h'], section) == Some(|front| + 1)
  {
    hide First;
    HeaderAtEnd(front, h, section', k');
    HeaderAtEnd(front, h', section', k');
    StartAppend(front, [h'], section);
    HeaderAlone(h', section, k');
    if EqFold(section, section') { StartIgnoresCase(front, section, section'); }
  }

  lemma HeaderAlone(h: Line, section: string, k: string)
    requires h.bracket && section != []
    ensures Start([h], section) == if HeaderOf(h, section) then Some(1) else None
    ensures Find([h], section, k) == None && FindFrom([h], 0, k) == None
  {
    assert First([h], 1, AnEntry(k)) == 1;
    assert First([h], 1, AHeader(section)) == 1;
  }

  /** A bracket line at the end of a list is not noticed. */
  lemma HeaderAtEnd(front: seq<Line>, h: Line, section: string, k: string)
    requires h.bracket
    ensures Find(front + [h], section, k) == if Start(front, section).None? then None else Find(front, section, k)
  {
    hide First;
    FindAppend(front, [h], section, k);
    if section != [] { HeaderAlone(h, section, k); } else { HeaderAlone(h, [' '], k); }
  }

  /** A line behind the header of a section, at the end of the file, is seen from that section and from no other. */
  lemma LineAtEnd(a: seq<Line>, x: Line, section: string, section': string, k': string)
    requires section != [] && Start(a, section) == Some(|a|)
    ensures Find(a + [x], section', k') ==
            if EqFold(section, section') && !x.bracket && Entry(x, k') then Some(x.value) else Find(a, section', k')
  {
    FindAppend(a, [x], section', k');
    if EqFold(section, section') {
      StartIgnoresCase(a, section, section');
      assert First([x], 1, AnEntry(k')) == 1;
    } else {
      OthersStayOut(a, section, section', k');
      assert First([x], 1, AnEntry(k')) == 1;
    }
  }

  /** The put with a dangling header, and any lookup after it. */
  lemma LookupAfterDangling(text: string, section: string, k: string, v: string, section': string, k': string)
    requires ValidSection(section) && ValidKey(k) && ValidValue(v) && Dangling(Some(text), section, true)
    ensures var rest := Rest(Some(text), KeyLine(k, v));
            Lookup(Puts(Some(text), section, Some(k), Some(v), true), section', k') ==
            if EqFold(section, section') && RestIsEntry(rest, k') then Some(Parse(rest).value)
            else Lookup(Some(text), section', k')
    ensures EqFold(section, section') ==> Lookup(Some(text), section', k') == None
  {
    hide Parse, KeyLine, Rest, Pieces, First;
    var front, h, h' := DanglingLines(text, section, k, v);
    var rest := Rest(Some(text), KeyLine(k, v));
    SameHeader(front, h, h', section, section', k');
    if rest == [] {
      assert front + [h'] + [] == front + [h'];
    } else {
      LineAtEnd(front + [h'], Parse(rest), section, section', k');
    }
  }

  // ---- the torn value is not the value

  /** How often the character occurs. */
  function Count(s: string, c: char): nat { multiset(s)[c] }

  lemma CountAppend(a: string, b: string, c: char)
    ensures Count(a + b, c) == Count(a, c) + Count(b, c)
  {
  }

  lemma TrimDrops(s: string, c: char)
    ensures Count(LTrim(s), c) <= Count(s, c) && Count(RTrim(s), c) <= Count(s, c)
  {
    var n := |s| - |LTrim(s)|;
    LTrimIsSuffix(s);
    RTrimIsPrefix(s);
    hide Count, LTrim, RTrim;
    SliceDrops(s, n, |s|, c);
    SliceDrops(s, 0, |RTrim(s)|, c);
    assert s[n..|s|] == s[n..] && s[0..|RTrim(s)|] == s[..|RTrim(s)|];
  }

  lemma SliceDrops(s: string, i: nat, j: nat, c: char)
    requires i <= j <= |s|
    ensures Count(s[i..j], c) <= Count(s, c)
  {
    hide Count;
    assert s == s[..i] + s[i..j] + s[j..];
    CountAppend(s[..i] + s[i..j], s[j..], c);
    CountAppend(s[..i], s[i..j], c);
  }

  lemma {:induction false} DequoteDrops(s: string, c: char)
    ensures Count(Dequote(s), c) <= Count(s, c)
  {
    hide Count;
    if s == [] {
    } else if (s[0] == '"' || s[0] == '\\') && |s| > 1 && s[1] == '"' {
      DequoteDrops(s[2..], c);
      CountAppend(['"'], Dequote(s[2..]), c);
      assert s == [s[0]] + (['"'] + s[2..]);
      CountAppend([s[0]], ['"'] + s[2..], c);
      CountAppend(['"'], s[2..], c);
    } else {
      DequoteDrops(s[1..], c);
      CountAppend([s[0]], Dequote(s[1..]), c);
      assert s == [s[0]] + s[1..];
      CountAppend([s[0]], s[1..], c);
    }
  }

  /** Reading a value drops characters and adds none. */
  lemma DecodeDrops(raw: string, c: char)
    ensures Count(Decode(raw), c) <= Count(raw, c)
  {
    hide LTrim, RTrim, Dequote, CommentEnd;
    var sp := LTrim(raw);
    TrimDrops(raw, c);
    var cut := sp[..CommentEnd(sp, false)];
    SliceDrops(sp, 0, |cut|, c);
    TrimDrops(cut, c);
    var t := RTrim(cut);
    if |t| > 1 {
      SliceDrops(t, 1, |t| - 1, c);
      DequoteDrops(t[1..|t| - 1], c);
    }
  }

  lemma {:induction false} EscapeKeeps(v: string, c: char)
    requires c != '\\'
    ensures Count(Escape(v), c) == Count(v, c)
  {
    if v == [] {
    } else {
      EscapeCharKeeps(v[0], c);
      hide Count, EscapeChar;
      EscapeKeeps(v[1..], c);
      CountAppend(EscapeChar(v[0]), Escape(v[1..]), c);
      assert v == [v[0]] + v[1..];
      CountAppend([v[0]], v[1..], c);
    }
  }

  lemma EscapeCharKeeps(d: char, c: char)
    requires c != '\\'
    ensures Count(EscapeChar(d), c) == Count([d], c)
  {
  }

  /** Writing a value adds backslashes and quotes only. */
  lemma WritingKeeps(v: string, room: nat, c: char)
    requires room > 0 && c != '\\' && c != '"'
    ensures Count(WrittenValue(v, room), c) <= Count(v, c)
  {
    if |v| > room - 1 { SliceDrops(v, 0, room - 1, c); }
    if room >= 3 {
      var u := v[..Fitting(v, room - 3)];
      SliceDrops(v, 0, |u|, c);
      EscapeKeeps(u, c);
    }
  }

  /**
   * If the end of an entry's line is itself read as an entry for the key, then not with the value: its assignment sign
   * is in the written value, and so the value has one such sign less.
   */
  lemma TornIsNotValue(k: string, v: string, j: nat)
    requires ValidKey(k) && 0 < j < |KeyLine(k, v)| && Entry(Parse(KeyLine(k, v)[j..]), k)
    ensures Parse(KeyLine(k, v)[j..]).value != v
  {
    hide WrittenValue, Decode, LTrim, RTrim, Index, KeyLine;
    var line, w := KeyLine(k, v), WrittenValue(v, INI_BUFFERSIZE - 3 - |k|);
    KeyLineParts(k, v);
    var t := line[j..];
    var sp := LTrim(t);
    LTrimIsSuffix(t);
    var at := AssignAt(sp);
    LowerLength(RTrim(sp[..at]), k);
    SignInValue(k, w, line, |line| - |sp|, sp, at);
    DecodeDrops(sp[at + 1..], sp[at]);
    WritingKeeps(v, INI_BUFFERSIZE - 3 - |k|, sp[at]);
  }

  lemma KeyLineParts(k: string, v: string)
    requires ValidKey(k)
    ensures KeyLine(k, v) == k + ['='] + WrittenValue(v, INI_BUFFERSIZE - 3 - |k|) + ['\n']
  {
  }

  lemma SignInValue(k: string, w: string, line: string, from: nat, sp: string, at: nat)
    requires line == k + ['='] + w + ['\n'] && 0 < from <= |line| && sp == line[from..]
    requires |k| <= at < |sp| && (sp[at] == '=' || sp[at] == ':')
    ensures Count(sp[at + 1..], sp[at]) < Count(w, sp[at])
  {
    var i := from + at - |k| - 1;
    assert w[i] == sp[at];
    assert sp[at + 1..] == w[i + 1..] + ['\n'];
    assert w == w[..i] + [w[i]] + w[i + 1..];
  }

  /** With a dangling header the put is lost: the entry is not found, or with another value if it was torn apart. */
  lemma DanglingLosesEntry(text: string, section: string, k: string, v: string)
    requires ValidSection(section) && ValidKey(k) && ValidValue(v) && Dangling(Some(text), section, true)
    ensures Lookup(Puts(Some(text), section, Some(k), Some(v), true), section, k) != Some(v)
    ensures Rest(Some(text), KeyLine(k, v)) == [] ==>
              Lookup(Puts(Some(text), section, Some(k), Some(v), true), section, k) == None
  {
    LookupAfterDangling(text, section, k, v, section, k);
    hide Parse, KeyLine, Puts, Pieces;
    var rest := Rest(Some(text), KeyLine(k, v));
    if rest != [] && Entry(Parse(rest), k) {
      var last := Pieces(text)[|Pieces(text)| - 1];
      PiecesAreWellCut(text);
      TornIsNotValue(k, v, Kept(last, KeyLine(k, v)));
    }
  }
}
