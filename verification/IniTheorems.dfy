/**
 * What `ini_puts` and `ini_gets` promise together, for every file: what was put is got, nothing else
 * changes, putting twice is putting once, and deletions delete what they should.
 */
module IniTheorems {
  import opened Wrappers
  import opened CString
  import opened Chunks
  import opened QuoteCodec
  import opened IniLines
  import opened IniModel
  import opened IniLaws
  import opened IniPlain
  import opened IniDangling
  import opened Decimal

  /** What is read back for a value, also for one that does not fit. */
  function ReadBack(k: string, v: string): string
    requires |k| <= INI_BUFFERSIZE - 4
  {
    Decode(WrittenValue(v, INI_BUFFERSIZE - 3 - |k|) + ['\n'])
  }

  /** A file with another last line than an unterminated section header is never in danger. */
  lemma TerminatedIsNotDangling(text: string, section: string, junk: bool)
    requires text == [] || text[|text| - 1] == '\n'
    ensures !Dangling(Some(text), section, junk)
  {
    var cs := Pieces(text);
    if cs != [] {
      var front, last := cs[..|cs| - 1], cs[|cs| - 1];
      PiecesAreWellCut(text);
      assert cs == front + [last];
      FlatAppend(front, [last]);
      FlatOne(last);
      assert last[|last| - 1] == (Flat(front) + last)[|text| - 1];
    }
  }

  // ---- put, then get

  lemma NewFileLines(section: string, k: string, v: string)
    requires ValidSection(section) && ValidKey(k) && ValidValue(v)
    ensures LinesOf((if section == [] then [] else SectionLine(section)) + KeyLine(k, v)) ==
            (if section == [] then [] else [Parse(SectionLine(section))]) + [Parse(KeyLine(k, v))]
  {
    WrittenLinesAreComplete(section, k, v);
    if section == [] { OneLine(KeyLine(k, v)); } else { TwoLines(SectionLine(section), KeyLine(k, v)); }
  }

  lemma OneLine(line: string)
    requires Complete(line)
    ensures LinesOf([] + line) == [] + [Parse(line)]
  {
    FlatOne(line);
    CutAppend([], [line]);
    assert Lines([line]) == [Parse(line)];
    assert [] + [line] == [line] && [] + line == line;
  }

  lemma TwoLines(header: string, line: string)
    requires Complete(header) && Complete(line)
    ensures LinesOf(header + line) == [Parse(header)] + [Parse(line)]
  {
    FlatOne(header);
    FlatOne(line);
    CutAppend([header], [line]);
    FlatAppend([header], [line]);
    assert Lines([line]) == [Parse(line)] && Lines([header]) == [Parse(header)];
  }

  lemma PutInNewFile(section: string, k: string, v: string)
    requires ValidSection(section) && ValidKey(k) && ValidValue(v)
    ensures Lookup(Puts(None, section, Some(k), Some(v), false), section, k) == Some(ReadBack(k, v))
  {
    var entry, header := Parse(KeyLine(k, v)), Parse(SectionLine(section));
    ParseKeyLine(k, v);
    ParseSectionLine(section);
    NewFileLines(section, k, v);
    if section == [] {
      Seen([], entry, [], section, k);
      assert [] + [entry] + [] == [] + [entry];
    } else {
      FindNewSection(header, entry, section, k);
    }
  }

  lemma EditIsReadBack(cs: seq<string>, section: string, k: string, line: string, header: string, junk: bool)
    requires WellCut(cs) && Complete(header) && Complete(line)
    requires junk && cs != [] && Start(Lines(cs), section) == Some(|cs|) ==> Complete(cs[|cs| - 1])
    requires EntryLine(Parse(line), k) && HeaderLine(Parse(header), section)
    ensures Find(LinesOf(Flat(EditKey(cs, section, k, Some(line), header, junk))), section, k)
         == Some(Parse(line).value)
  {
    var blank := EditReadsBack(cs, section, k, Some(line), header, junk);
    PutIsFound(Lines(cs), section, k, Parse(line), Parse(header), blank);
  }

  /** After a put that rewrites the file, a lookup gives what the written line says. */
  lemma PutIsReadBack(file: Option<string>, section: string, k: string, v: string, junk: bool)
    requires ValidSection(section) && ValidKey(k) && ValidValue(v) && !Dangling(file, section, junk)
    requires Lookup(file, section, k) != Some(v)
    ensures Lookup(Puts(file, section, Some(k), Some(v), junk), section, k) == Some(ReadBack(k, v))
  {
    if file.None? {
      PutInNewFile(section, k, v);
    } else {
      ParseKeyLine(k, v);
      ParseSectionLine(section);
      PiecesAreWellCut(file.value);
      WrittenLinesAreComplete(section, k, v);
      EditIsReadBack(Pieces(file.value), section, k, KeyLine(k, v), SectionLine(section), junk);
    }
  }

  lemma DecodeIsShorter(raw: string)
    ensures |Decode(raw + ['\n'])| <= |raw|
  {
    DecodeSnoc(raw);
  }

  /** A value that does not fit comes back different. */
  lemma UnfitIsLost(k: string, v: string)
    requires ValidKey(k) && ValidValue(v) && !Fits(k, v)
    ensures ReadBack(k, v) != v
  {
    var room := INI_BUFFERSIZE - 3 - |k|;
    var w := WrittenValue(v, room);
    DecodeIsShorter(w);
    if NeedsQuote(v) && room >= 3 {
      FittingIsMaximal(v, room - 3);
      DecodeEnquoted(v[..Fitting(v, room - 3)]);
    } else if NeedsQuote(v) && |v| <= room - 1 {
      DecodeSnoc(v);
      assert v == [v[0]] && v[1..] == [] && Plain(v[1..]);
      OneSpecial(v[0]);
    }
  }

  lemma OneSpecial(c: char)
    requires Special(c) || c == ' '
    ensures Decode([c]) == []
  {
    if c == ' ' { assert LTrim([c][1..]) == []; }
    if c == '"' { assert CommentEnd([c], false) == 1 by { assert [c][1..] == []; } assert [c][..1] == [c]; }
  }

  /** What the read-back value is, and when it is the value. */
  lemma ReadBackIs(k: string, v: string)
    requires ValidKey(k) && ValidValue(v)
    ensures Fits(k, v) ==> ReadBack(k, v) == Stored(v)
    ensures ReadBack(k, v) == v <==> Fits(k, v) && Stored(v) == v
  {
    if Fits(k, v) {
      WrittenValueFits(k, v);
      DecodeEncode(v);
    } else {
      UnfitIsLost(k, v);
    }
  }

  /**
   * Put, then get.  For every file, section, key and value: the value comes back exactly if it was there before, or
   * if it fits in a line and is one that is quoted or has no blank at either end, and no dangling header is in the
   * way.
   */
  lemma PutThenGet(file: Option<string>, section: string, k: string, v: string, junk: bool)
    requires ValidSection(section) && ValidKey(k) && ValidValue(v)
    ensures Lookup(Puts(file, section, Some(k), Some(v), junk), section, k) == Some(v) <==>
            Lookup(file, section, k) == Some(v) || (!Dangling(file, section, junk) && Survives(k, v))
  {
    if Dangling(file, section, junk) {
      DanglingLosesEntry(file.value, section, k, v);
      LookupAfterDangling(file.value, section, k, v, section, k);
    } else if Lookup(file, section, k) != Some(v) {
      PutIsReadBack(file, section, k, v, junk);
      ReadBackIs(k, v);
      SurvivesIs(k, v);
    }
  }

  /** The second of two identical puts takes the early exit. */
  lemma PutTwice(file: Option<string>, section: string, k: string, v: string, junk: bool, junk': bool)
    requires ValidSection(section) && ValidKey(k) && ValidValue(v) && !Dangling(file, section, junk)
    requires Survives(k, v)
    ensures var once := Puts(file, section, Some(k), Some(v), junk);
            Puts(once, section, Some(k), Some(v), junk') == once
  {
    PutThenGet(file, section, k, v, junk);
  }

  /** The last of two puts wins. */
  lemma LastPutWins(file: Option<string>, section: string, k: string, v: string, v': string, junk: bool, junk': bool)
    requires ValidSection(section) && ValidKey(k) && ValidValue(v') && ValidValue(v)
    requires Survives(k, v')
    requires !Dangling(Puts(file, section, Some(k), Some(v), junk), section, junk')
    ensures Lookup(Puts(Puts(file, section, Some(k), Some(v), junk), section, Some(k), Some(v'), junk'), section, k)
         == Some(v')
  {
    PutThenGet(Puts(file, section, Some(k), Some(v), junk), section, k, v', junk');
  }

  // ---- what else changes

  /**
   * Setting or removing a key leaves every other key of every section as it was, except for the key that the rest of
   * an entry torn apart by a dangling header may be read as.
   */
  lemma PutKeepsOthers(file: Option<string>, section: string, k: string, value: Option<string>, junk: bool,
                       section': string, k': string)
    requires ValidSection(section) && ValidKey(k) && (value.Some? ==> ValidValue(value.value))
    requires !EqFold(section, section') || !EqFold(k, k')
    ensures Lookup(Puts(file, section, Some(k), value, junk), section', k') == Lookup(file, section', k') <==>
            !(value.Some? && Dangling(file, section, junk) && EqFold(section, section') &&
              RestIsEntry(Rest(file, KeyLine(k, value.value)), k'))
  {
    hide Pieces, Parse, Puts, Rest, KeyLine;
    if value.Some? && Dangling(file, section, junk) {
      LookupAfterDangling(file.value, section, k, value.value, section', k');
    } else {
      EditedKeepsOthers(file, section, k, value, junk, section', k');
    }
  }

  lemma EditedKeepsOthers(file: Option<string>, section: string, k: string, value: Option<string>, junk: bool,
                          section': string, k': string)
    requires ValidSection(section) && ValidKey(k) && (value.Some? ==> ValidValue(value.value))
    requires value.Some? ==> !Dangling(file, section, junk)
    requires !EqFold(section, section') || !EqFold(k, k')
    ensures Lookup(Puts(file, section, Some(k), value, junk), section', k') == Lookup(file, section', k')
  {
    ParseSectionLine(section);
    if value.Some? {
      ParseKeyLine(k, value.value);
      WrittenLinesAreComplete(section, k, value.value);
    }
    if file.None? {
      if value.Some? { NewFileKeepsOthers(section, k, value.value, section', k'); }
    } else {
      var cs := Pieces(file.value);
      var line := LineFor(k, value);
      PiecesAreWellCut(file.value);
      var blank := EditReadsBack(cs, section, k, line, SectionLine(section), junk);
      EditKeepsOthers(Lines(cs), section, k, EntryOf(line), Parse(SectionLine(section)), blank, section', k');
    }
  }

  lemma NewFileKeepsOthers(section: string, k: string, v: string, section': string, k': string)
    requires ValidSection(section) && ValidKey(k) && ValidValue(v)
    requires !EqFold(section, section') || !EqFold(k, k')
    ensures Lookup(Puts(None, section, Some(k), Some(v), false), section', k') == None
  {
    var entry, header := Parse(KeyLine(k, v)), Parse(SectionLine(section));
    ParseKeyLine(k, v);
    ParseSectionLine(section);
    NewFileLines(section, k, v);
    if section == [] {
      AppendKeepsOthers([], entry, section, k, section', k');
    } else {
      NewSectionKeepsOthers([], header, entry, section, k, section', k');
      assert [] + ([header] + [entry]) == [header] + [entry];
    }
  }

  // ---- deletion

  /** After the removal of a key, the rest of its section is what decides. */
  lemma RemoveThenGet(text: string, section: string, k: string, junk: bool)
    ensures Lookup(Puts(Some(text), section, Some(k), None, junk), section, k) ==
            match Locate(LinesOf(text), section, k)
            case Replace(i) => FindFrom(LinesOf(text), i + 1, k)
            case _ => None
  {
    var cs := Pieces(text);
    PiecesAreWellCut(text);
    var blank := EditReadsBack(cs, section, k, None, SectionLine(section), junk);
    RemovedKey(Lines(cs), section, k, Parse(SectionLine(section)), blank);
  }

  /** After the removal of its only entry a key has the default again. */
  lemma DefaultComesBack(text: string, section: string, k: string, junk: bool, default: string, size: nat)
    requires ValidKey(k) && |default| < size
    requires match Locate(LinesOf(text), section, k)
             case Replace(i) => FindFrom(LinesOf(text), i + 1, k) == None
             case _ => true
    ensures Gets(Puts(Some(text), section, Some(k), None, junk), section, k, default, size) == default
  {
    RemoveThenGet(text, section, k, junk);
  }

  lemma EraseReadsBack(text: string, section: string)
    ensures LinesOf(Flat(EraseSection(Pieces(text), section))) == EraseLines(LinesOf(text), section)
  {
    PiecesAreWellCut(text);
    var r := Erased(LinesOf(text), section);
    CutOut(Pieces(text), r.0, r.1);
  }

  lemma CutOut(cs: seq<string>, h: nat, e: nat)
    requires WellCut(cs) && h <= e <= |cs| && (h == e ==> h == 0)
    ensures LinesOf(Flat(cs[..h] + cs[e..])) == Lines(cs)[..h] + Lines(cs)[e..]
  {
    CutAppend(cs[..h], cs[e..]);
    assert Lines(cs[..h]) == Lines(cs)[..h] && Lines(cs[e..]) == Lines(cs)[e..];
  }

  /** Erasing a section leaves the keys of all others as they were. */
  lemma EraseKeepsOtherSections(text: string, section: string, junk: bool, section': string, k': string)
    requires !EqFold(section, section')
    requires section != [] || LinesOf(text) == [] || !LinesOf(text)[0].bracket
    ensures Lookup(Puts(Some(text), section, None, None, junk), section', k') == Lookup(Some(text), section', k')
  {
    EraseReadsBack(text, section);
    EraseKeepsOthers(LinesOf(text), section, section', k');
  }

  /** The file without the section is left, except for the erasure of the nameless section at the
      front of a file that begins with a bracket line: that line goes, and its section's lines too. */
  lemma EraseIsErasure(text: string, section: string, junk: bool)
    ensures LinesOf(Puts(Some(text), section, None, None, junk).value) == WithoutSection(LinesOf(text), section) <==>
            section != [] || LinesOf(text) == [] || !LinesOf(text)[0].bracket
  {
    EraseReadsBack(text, section);
    EraseIsExact(LinesOf(text), section);
  }

  // ---- case

  /** Names that differ in the case of their letters only are the same name. */
  lemma LookupIgnoresCase(file: Option<string>, section: string, section': string, k: string, k': string)
    requires SameName(section, section') && SameName(k, k')
    ensures Lookup(file, section, k) == Lookup(file, section', k')
  {
    EqFoldIsSameName(section, section');
    EqFoldIsSameName(k, k');
    if file.Some? {
      var ls := LinesOf(file.value);
      StartIgnoresCase(ls, section, section');
      if Start(ls, section).Some? { FirstIgnoresCase(ls, Start(ls, section).value, k, k'); }
    }
  }

  // ---- integers

  lemma {:induction false} DigitsArePlain(s: string)
    requires AllDigits(s)
    ensures Plain(s) && NUL !in s && '\n' !in s
  {
    if s == [] {
    } else {
      DigitsArePlain(s[1..]);
      assert s == [s[0]] + s[1..];
    }
  }

  /** The text of a number needs no quotes and has no blank at its ends. */
  lemma NumberText(v: int)
    ensures var t := Text(v); ValidValue(t) && WrittenLength(t) == |t| && Solid(t)
  {
    var d := Digits(Abs(v));
    DigitsAreDigits(Abs(v));
    DigitsArePlain(d);
    AllDigitsAt(d, 0);
    AllDigitsAt(d, |d| - 1);
    if v < 0 { assert Text(v)[1..] == d && Text(v)[0] == '-'; }
    PlainIs(Text(v));
  }

  /** A number that was put is got, for every `long`, if its key leaves room for it. */
  lemma PutlThenGetl(file: Option<string>, section: string, k: string, v: int, default: int, junk: bool)
    requires ValidSection(section) && ValidKey(k) && IsLong(v) && !Dangling(file, section, junk)
    requires |k| + |Text(v)| <= INI_BUFFERSIZE - 4
    ensures Getl(Puts(file, section, Some(k), Some(Text(v)), junk), section, k, default) == v
  {
    NumberText(v);
    LongHasNineteenDigits(v);
    PutThenGet(file, section, k, Text(v), junk);
    StrToLOfText(v);
  }

  // ---- enumeration

  /** `ini_getsection` and `ini_getkey` find the name with number `idx` exactly if no name up to it is empty. */
  lemma {:induction false} EnumerationIsExact(names: seq<string>, idx: nat)
    requires idx < |names|
    ensures idx < |BeforeEmpty(names)| <==> [] !in names[..idx + 1]
    ensures idx < |BeforeEmpty(names)| ==> BeforeEmpty(names)[idx] == names[idx]
  {
    var head := [names[0]];
    assert names[..idx + 1] == head + names[1..][..idx];
    if names[0] != [] && idx > 0 {
      EnumerationIsExact(names[1..], idx - 1);
    }
  }
}
