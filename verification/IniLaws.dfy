/**
 * The text side of the laws: the lines that are written read back as what they say, and the edited text, cut into
 * lines again, is the edited list of lines.
 */
module IniLaws {
  import opened Wrappers
  import opened CString
  import opened Chunks
  import opened QuoteCodec
  import opened IniLines
  import opened IniModel

  // ---- the written lines read back

  predicate ValidKey(k: string) {
    IsStr(k) && '=' !in k && '\n' !in k && |k| <= INI_BUFFERSIZE - 4 &&
    (k != [] ==> !Blank(k[0]) && !Blank(k[|k| - 1]) && k[0] != '[' && k[0] != ';' && k[0] != '#')
  }

  predicate ValidSection(s: string) { IsStr(s) && ']' !in s && '\n' !in s && |s| <= INI_BUFFERSIZE - 5 }

  predicate ValidValue(v: string) { IsStr(v) && '\n' !in v }

  /** The key and the value, encoded as it must be, fit in one line. */
  predicate Fits(k: string, v: string) { |k| + |Encode(v)| <= INI_BUFFERSIZE - 4 }

  lemma KeyBeforeAssign(k: string, rest: string)
    requires '=' !in k
    ensures var sp := k + ['='] + rest; AssignAt(sp) == |k| && sp[..|k|] == k && sp[|k| + 1..] == rest
  {
    var sp := k + ['='] + rest;
    assert sp == k + (['='] + rest);
    IndexAfter(k, ['='] + rest, '=');
  }

  lemma ParseAssignment(k: string, rest: string)
    requires ValidKey(k)
    ensures Parse(k + ['='] + rest) == Line(false, None, false, Some(k), Decode(rest))
  {
    var c := k + ['='] + rest;
    KeyBeforeAssign(k, rest);
    assert c[0] == if k == [] then '=' else k[0];
    assert LTrim(c) == c && RTrim(k) == k;
  }

  lemma ParseKeyLine(k: string, v: string)
    requires ValidKey(k)
    ensures Parse(KeyLine(k, v)) ==
            Line(false, None, false, Some(k), Decode(WrittenValue(v, INI_BUFFERSIZE - 3 - |k|) + ['\n']))
  {
    var w := WrittenValue(v, INI_BUFFERSIZE - 3 - |k|);
    assert KeyLine(k, v) == k + ['='] + (w + ['\n']);
    ParseAssignment(k, w + ['\n']);
  }

  lemma ParseSectionLine(s: string)
    requires ValidSection(s)
    ensures HeaderLine(Parse(SectionLine(s)), s)
  {
    var c := SectionLine(s);
    assert c == (['['] + s) + [']', '\n'];
    assert LTrim(c) == c;
    IndexAfter(['['] + s, [']', '\n'], ']');
    assert c[1..|s| + 1] == s;
  }

  /** The value that fits is written as it is encoded. */
  lemma WrittenValueFits(k: string, v: string)
    requires ValidKey(k) && Fits(k, v)
    ensures WrittenValue(v, INI_BUFFERSIZE - 3 - |k|) == Encode(v)
  {
    var room := INI_BUFFERSIZE - 3 - |k|;
    if NeedsQuote(v) {
      FittingIsMaximal(v, room - 3);
      assert v[..|v|] == v;
    }
  }

  lemma {:induction false} EscapeHasNoBreak(s: string)
    requires '\n' !in s
    ensures '\n' !in Escape(s)
  {
    if s == [] {
    } else {
      assert s[0] in s && '\n' !in s[1..];
      EscapeHasNoBreak(s[1..]);
    }
  }

  lemma WrittenValueHasNoBreak(v: string, room: nat)
    requires '\n' !in v && room > 0 && IsStr(v)
    ensures '\n' !in WrittenValue(v, room) && |WrittenValue(v, room)| < room
  {
    CopyTextFits(v, room, if NeedsQuote(v) then QUOTE_ENQUOTE else QUOTE_NONE);
    if room >= 3 { EscapeHasNoBreak(v[..Fitting(v, room - 3)]); }
  }

  /** A text with one line break, at its end, that is short enough is one complete piece. */
  lemma IsComplete(c: string)
    requires '\n' !in c && |c| < MAX_PIECE
    ensures Complete(c + ['\n'])
  {
  }

  lemma WrittenLinesAreComplete(s: string, k: string, v: string)
    requires ValidSection(s) && ValidKey(k) && ValidValue(v)
    ensures Complete(SectionLine(s)) && Complete(KeyLine(k, v))
  {
    var room := INI_BUFFERSIZE - 3 - |k|;
    WrittenValueHasNoBreak(v, room);
    IsComplete(k + ['='] + WrittenValue(v, room));
    IsComplete(['['] + s + [']']);
    assert SectionLine(s) == ['['] + s + [']'] + ['\n'];
  }

  // ---- a break behind an unterminated last line

  lemma {:induction false} ScanSnoc(s: string, isstring: bool)
    ensures CommentEnd(s + ['\n'], isstring) ==
            if CommentEnd(s, isstring) < |s| then CommentEnd(s, isstring) else |s| + 1
  {
    var t := s + ['\n'];
    if s == [] {
      assert t[1..] == [];
    } else {
      assert t[0] == s[0] && t[1..] == s[1..] + ['\n'];
      if |s| > 1 { assert t[1] == s[1] && t[2..] == s[2..] + ['\n']; }
      if (s[0] == ';' || s[0] == '#') && !isstring {
      } else if |s| > 1 && s[1] == '"' && (s[0] == '"' || s[0] == '\\') {
        ScanSnoc(s[2..], isstring);
      } else if s[0] == '"' {
        ScanSnoc(s[1..], !isstring);
      } else {
        ScanSnoc(s[1..], isstring);
      }
    }
  }

  lemma DecodeSnoc(raw: string)
    ensures Decode(raw + ['\n']) == Decode(raw)
  {
    var sp := LTrim(raw);
    LTrimSnoc(raw, '\n');
    if sp != [] {
      var e := CommentEnd(sp, false);
      ScanSnoc(sp, false);
      if e < |sp| {
        assert (sp + ['\n'])[..e] == sp[..e];
      } else {
        assert (sp + ['\n'])[..|sp| + 1] == sp + ['\n'] && sp[..e] == sp;
        RTrimSnoc(sp, '\n');
      }
    }
  }

  lemma SectionNameSnoc(sp: string)
    ensures SectionName(sp + ['\n']) == SectionName(sp)
  {
    var ep := Index(sp, ']');
    IndexSnoc(sp, ']', '\n');
    if Bracket(sp) && ep < |sp| { assert (sp + ['\n'])[1..ep] == sp[1..ep]; }
  }

  lemma AssignSnoc(sp: string)
    ensures KeyName(sp + ['\n']) == KeyName(sp) && ValueOf(sp + ['\n']) == ValueOf(sp)
  {
    var at := AssignAt(sp);
    IndexSnoc(sp, '=', '\n');
    IndexSnoc(sp, ':', '\n');
    if at < |sp| {
      assert (sp + ['\n'])[..at] == sp[..at] && (sp + ['\n'])[at + 1..] == sp[at + 1..] + ['\n'];
      DecodeSnoc(sp[at + 1..]);
    }
  }

  /** It does not change what that line says. */
  lemma ParseSnoc(c: string)
    ensures Parse(c + ['\n']) == Parse(c)
  {
    var sp := LTrim(c);
    LTrimSnoc(c, '\n');
    if sp != [] {
      SectionNameSnoc(sp);
      AssignSnoc(sp);
    }
  }

  lemma ParseBreak()
    ensures Parse("\n") == BLANK
  {
    assert LTrim("\n") == [];
  }

  // ---- cutting an edited file again

  predicate AllComplete(cs: seq<string>) { forall i :: 0 <= i < |cs| ==> Complete(cs[i]) }

  lemma WellCutAppend(a: seq<string>, b: seq<string>)
    requires AllComplete(a) && WellCut(b)
    ensures WellCut(a + b)
  {
    var ab := a + b;
    forall i | 0 <= i < |ab| ensures Piece(ab[i]) && (i < |ab| - 1 ==> Complete(ab[i])) {
      assert ab[i] == if i < |a| then a[i] else b[i - |a|];
    }
  }

  lemma CutAppend(a: seq<string>, b: seq<string>)
    requires AllComplete(a) && WellCut(b)
    ensures LinesOf(Flat(a + b)) == Lines(a) + Lines(b)
  {
    WellCutAppend(a, b);
    PiecesOfFlat(a + b);
    assert Lines(a + b) == Lines(a) + Lines(b);
  }

  /** The pieces that `cs` and a break that may be forced behind them are read as. */
  function Joined(cs: seq<string>, forced: seq<string>): seq<string> {
    if forced == [] || cs == [] || Complete(cs[|cs| - 1]) then cs + forced
    else cs[..|cs| - 1] + [cs[|cs| - 1] + ['\n']]
  }

  lemma JoinedText(cs: seq<string>, forced: seq<string>)
    requires forced == [] || forced == ["\n"]
    ensures Flat(Joined(cs, forced)) == Flat(cs + forced)
  {
    if forced != [] && cs != [] {
      var n := |cs| - 1;
      var c := cs[n];
      assert cs == cs[..n] + [c];
      FlatAppend(cs[..n], [c]);
      FlatAppend(cs[..n], [c + ['\n']]);
      FlatAppend(cs, forced);
      assert [c][1..] == [] && [c + ['\n']][1..] == [] && forced[1..] == [];
      assert Flat([c]) == c && Flat([c + ['\n']]) == c + ['\n'] && Flat(forced) == ['\n'];
    }
  }

  lemma JoinedLines(cs: seq<string>, forced: seq<string>) returns (blank: bool)
    requires WellCut(cs) && (forced == [] || forced == ["\n"])
    requires forced == [] ==> cs == [] || Complete(cs[|cs| - 1])
    ensures AllComplete(Joined(cs, forced))
    ensures Lines(Joined(cs, forced)) == Lines(cs) + if blank then [BLANK] else []
  {
    blank := forced != [] && (cs == [] || Complete(cs[|cs| - 1]));
    if blank {
      ParseBreak();
      assert Lines(cs + forced) == Lines(cs) + [BLANK];
    } else if forced != [] {
      LinesWithBreak(cs);
      assert Lines(cs) + [] == Lines(cs);
    }
  }

  lemma LinesWithBreak(cs: seq<string>)
    requires cs != []
    ensures Lines(cs[..|cs| - 1] + [cs[|cs| - 1] + ['\n']]) == Lines(cs)
  {
    var ds := cs[..|cs| - 1] + [cs[|cs| - 1] + ['\n']];
    ParseSnoc(cs[|cs| - 1]);
    assert forall i :: 0 <= i < |cs| ==> Lines(ds)[i] == Lines(cs)[i];
  }

  /**
   * The one case in which the character outside the buffer matters: the file ends with the header of
   * the section, without a line break, and that character happens to be a line break.
   */
  predicate Dangling(file: Option<string>, section: string, junk: bool) {
    file.Some? && junk &&
    var cs := Pieces(file.value);
    cs != [] && !Complete(cs[|cs| - 1]) && Start(Lines(cs), section) == Some(|cs|)
  }

  function EntryOf(line: Option<string>): Option<Line> { if line.None? then None else Some(Parse(line.value)) }

  /** The edited file, read again, is the edited list of lines. */
  lemma EditReadsBack(cs: seq<string>, section: string, key: string, line: Option<string>, header: string, junk: bool)
    returns (blank: bool)
    requires WellCut(cs) && (line.Some? ==> Complete(header) && Complete(line.value))
    requires line.Some? && junk && cs != [] && Start(Lines(cs), section) == Some(|cs|) ==> Complete(cs[|cs| - 1])
    ensures LinesOf(Flat(EditKey(cs, section, key, line, header, junk))) ==
            EditLines(Lines(cs), section, key, EntryOf(line), Parse(header), blank)
  {
    hide Pieces, Parse, Flat, First;
    blank := false;
    match Locate(Lines(cs), section, key)
    case Replace(i) => SpliceReadsBack(cs, i, i + 1, line);
    case Insert(i) => SpliceReadsBack(cs, i, i, line);
    case Append(a) =>
      if line.None? {
        PiecesOfFlat(cs);
      } else {
        blank := AppendReadsBack(cs, ForcedBreak(cs, a, junk), [line.value]);
        assert Lines([line.value]) == [Parse(line.value)];
      }
    case NewSection =>
      if line.None? {
        PiecesOfFlat(cs);
      } else {
        blank := NewSectionReadsBack(cs, header, line.value, junk);
      }
  }

  lemma NewSectionReadsBack(cs: seq<string>, header: string, line: string, junk: bool) returns (blank: bool)
    requires WellCut(cs) && Complete(header) && Complete(line)
    ensures LinesOf(Flat(cs + ForcedBreak(cs, 0, junk) + [header] + [line])) ==
            Lines(cs) + (if blank then [BLANK] else []) + [Parse(header)] + [Parse(line)]
  {
    var forced := ForcedBreak(cs, 0, junk);
    blank := AppendReadsBack(cs, forced, [header] + [line]);
    NewSectionLines(Lines(cs), header, line, blank, cs + forced);
  }

  lemma NewSectionLines(ls: seq<Line>, header: string, line: string, blank: bool, front: seq<string>)
    ensures ls + (if blank then [BLANK] else []) + Lines([header] + [line]) ==
            ls + (if blank then [BLANK] else []) + [Parse(header)] + [Parse(line)]
    ensures front + ([header] + [line]) == front + [header] + [line]
  {
    assert Lines([header] + [line]) == [Parse(header)] + [Parse(line)];
  }

  lemma SpliceReadsBack(cs: seq<string>, i: nat, j: nat, line: Option<string>)
    requires WellCut(cs) && i < |cs| && i <= j <= i + 1
    requires line.Some? ==> Complete(line.value)
    ensures LinesOf(Flat(cs[..i] + Opt(line) + cs[j..])) == Lines(cs)[..i] + Opt(EntryOf(line)) + Lines(cs)[j..]
  {
    CutAppend(cs[..i] + Opt(line), cs[j..]);
    assert Lines(cs[..i] + Opt(line)) == Lines(cs[..i]) + Lines(Opt(line));
    assert Lines(cs[..i]) == Lines(cs)[..i] && Lines(cs[j..]) == Lines(cs)[j..];
    assert Lines(Opt(line)) == Opt(EntryOf(line));
  }

  lemma AppendReadsBack(cs: seq<string>, forced: seq<string>, tail: seq<string>) returns (blank: bool)
    requires WellCut(cs) && (forced == [] || forced == ["\n"]) && AllComplete(tail)
    requires forced == [] ==> cs == [] || Complete(cs[|cs| - 1])
    ensures LinesOf(Flat(cs + forced + tail)) == Lines(cs) + (if blank then [BLANK] else []) + Lines(tail)
  {
    JoinedText(cs, forced);
    blank := JoinedLines(cs, forced);
    FlatAppend(cs + forced, tail);
    FlatAppend(Joined(cs, forced), tail);
    CutAppend(Joined(cs, forced), tail);
  }
}
