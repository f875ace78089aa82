/**
 * What a put does to the text of a file, and what is found in a text that somebody wrote: statements about characters,
 * in which the search loops do not occur.
 */
module IniTexts {
  import opened Wrappers
  import opened CString
  import opened Chunks
  import opened QuoteCodec
  import opened IniLines
  import opened IniModel
  import opened IniLaws
  import opened IniPlain
  import opened IniDangling

  // ---- what changes

  lemma {:induction false} SolidStart(s: string)
    requires s != [] && !Blank(s[0])
    ensures RTrim(s) != [] && RTrim(s)[0] == s[0]
  {
    if Blank(s[|s| - 1]) {
      SolidStart(s[..|s| - 1]);
    } else {
    }
  }

  /** A line that `ini_puts` takes for the entry of a valid key is no comment. */
  lemma AssignsIsEntry(c: string, k: string)
    requires ValidKey(k) && Assigns(Parse(c), k)
    ensures !Parse(c).comment
  {
    hide LTrim, Decode, Index, RTrim, EqFold;
    var sp := LTrim(c);
    LowerLength(Parse(c).key.value, k);
    EqFoldIsSameName(Parse(c).key.value, k);
    if Comment(sp) { SolidStart(sp[..AssignAt(sp)]); }
  }

  /** For valid keys the search of `ini_puts` is the one of `getkeystring`. */
  lemma {:induction false} SameSearch(cs: seq<string>, from: nat, k: string)
    requires ValidKey(k) && from <= |cs|
    ensures First(Lines(cs), from, AnAssign(k)) == First(Lines(cs), from, AnEntry(k))
    decreases |cs| - from
  {
    hide Parse;
    if from == |cs| {
    } else {
      if Assigns(Parse(cs[from]), k) { AssignsIsEntry(cs[from], k); }
      SameSearch(cs, from + 1, k);
    }
  }

  /** The text of one piece cut out of a file. */
  lemma AroundPiece(cs: seq<string>, i: nat)
    requires i < |cs|
    ensures Flat(cs) == Flat(cs[..i]) + cs[i] + Flat(cs[i + 1..])
    ensures Flat(cs) == Flat(cs[..i]) + Flat(cs[i..])
    ensures Flat(cs[i..]) == cs[i] + Flat(cs[i + 1..])
  {
    assert cs == cs[..i] + cs[i..] && cs[i..] == [cs[i]] + cs[i + 1..];
    FlatAppend(cs[..i], cs[i..]);
    FlatAppend([cs[i]], cs[i + 1..]);
    FlatOne(cs[i]);
  }

  lemma FlatEdit(a: seq<string>, line: Option<string>, b: seq<string>)
    ensures Flat(a + Opt(line) + b) == Flat(a) + (if line.Some? then line.value else []) + Flat(b)
  {
    FlatAppend(a + Opt(line), b);
    FlatAppend(a, Opt(line));
    if line.Some? { FlatOne(line.value); }
  }

  lemma FlatAppended(cs: seq<string>, brk: seq<string>, header: seq<string>, line: string)
    requires |brk| <= 1 && |header| <= 1
    ensures Flat(cs + brk + header + [line]) ==
            Flat(cs) + (if brk == [] then [] else brk[0]) + (if header == [] then [] else header[0]) + line
  {
    FlatAppend(cs + brk + header, [line]);
    FlatAppend(cs + brk, header);
    FlatAppend(cs, brk);
    FlatOne(line);
    if brk != [] { FlatOne(brk[0]); assert brk == [brk[0]]; }
    if header != [] { FlatOne(header[0]); assert header == [header[0]]; }
  }

  /** The last character of a file is that of its last piece. */
  lemma LastCharacter(text: string)
    requires Pieces(text) != []
    ensures text != [] && text[|text| - 1] == '\n' <==> EndsLine(Pieces(text)[|Pieces(text)| - 1])
  {
    hide Pieces;
    var cs := Pieces(text);
    PiecesAreWellCut(text);
    AroundPiece(cs, |cs| - 1);
    assert Flat(cs[|cs|..]) == [];
    var last := cs[|cs| - 1];
    assert Flat(cs) == Flat(cs[..|cs| - 1]) + last + [];
    assert text[|text| - 1] == last[|last| - 1];
  }

  /** How a text is edited: `gone` is taken out, and what is written in its place. */
  datatype Edit = Edit(a: string, gone: string, brk: string, header: string, b: string)

  /**
   * What `ini_puts` does to the text of a file, if it does not leave it alone.  One piece goes: the line in which the
   * key is found, if it is found.  What is written comes in its place, or in front of the next bracket line, or to the
   * end, there with a line break in front of it if the last line has none, and with the header if the section is not
   * there.  Everything else stays as it is, character by character.
   */
  ghost predicate IsEdit(e: Edit, text: string, section: string, k: string, junk: bool) {
    var cs := Pieces(text);
    var there := Start(LinesOf(text), section);
    text == e.a + e.gone + e.b &&
    e.header == (if there.Some? then [] else SectionLine(section)) &&
    (e.gone != [] ==>
      e.gone in cs && IniPlain.IsEntry(Parse(e.gone), k) &&
      Lookup(Some(text), section, k) == Some(Parse(e.gone).value) && e.brk == []) &&
    (e.gone == [] ==> Lookup(Some(text), section, k) == None) &&
    (e.gone == [] && e.b != [] ==>
      there.Some? && e.brk == [] && LTrim(e.b) != [] && LTrim(e.b)[0] == '[') &&
    // at the end; nothing was cached if no line came behind the header, or no line at all
    (e.gone == [] && e.b == [] ==>
      var nothing := |cs| == if there.Some? then there.value else 0;
      e.brk == if (if nothing then junk else text != [] && text[|text| - 1] == '\n') then [] else "\n")
  }

  /** The text afterwards, with the line that is written, if one is. */
  function Edited(e: Edit, line: Option<string>): string {
    if line.None? then e.a + e.b else e.a + e.brk + e.header + line.value + e.b
  }

  lemma PutEditsText(text: string, section: string, k: string, value: Option<string>, junk: bool) returns (e: Edit)
    requires ValidKey(k) && (value.Some? ==> Lookup(Some(text), section, k) != value)
    ensures IsEdit(e, text, section, k, junk)
    ensures Puts(Some(text), section, Some(k), value, junk) == Some(Edited(e, LineFor(k, value)))
  {
    hide Parse, SectionLine, LineFor, First, Flat, Pieces, Puts, IsEdit, Edited, Locate;
    PutsIs(text, section, k, value, junk);
    var cs, line := Pieces(text), LineFor(k, value);
    match Locate(LinesOf(text), section, k)
    case Replace(i) =>
      e := ReplaceEdit(text, section, k, junk, i);
      SplicedText(cs, i, i + 1, line, cs[i]);
    case Insert(i) =>
      e := InsertEdit(text, section, k, junk, i);
      SplicedText(cs, i, i, line, []);
    case Append(a) =>
      PlaceIsFound(text, section, k);
      e := AppendEdit(text, section, k, junk);
      AppendedText(cs, ForcedBreak(cs, a, junk), [], line);
    case NewSection =>
      PlaceIsFound(text, section, k);
      e := AppendEdit(text, section, k, junk);
      AppendedText(cs, ForcedBreak(cs, 0, junk), [SectionLine(section)], line);
  }

  lemma SplicedText(cs: seq<string>, i: nat, j: nat, line: Option<string>, gone: string)
    requires i <= j <= |cs|
    ensures Flat(cs[..i] + Opt(line) + cs[j..]) == Edited(Edit(Flat(cs[..i]), gone, [], [], Flat(cs[j..])), line)
  {
    hide Flat;
    FlatEdit(cs[..i], line, cs[j..]);
    NoMore(Flat(cs[..i]), [], []);
  }

  lemma AppendedText(cs: seq<string>, brk: seq<string>, header: seq<string>, line: Option<string>)
    requires |brk| <= 1 && |header| <= 1
    ensures var e := Edit(Flat(cs), [], if brk == [] then [] else brk[0], if header == [] then [] else header[0], []);
            (line.None? ==> Flat(cs) == Edited(e, line)) &&
            (line.Some? ==> Flat(cs + brk + header + [line.value]) == Edited(e, line)) &&
            (line.Some? && header == [] ==> Flat(cs + brk + [line.value]) == Edited(e, line))
  {
    hide Flat;
    if line.Some? {
      FlatAppended(cs, brk, header, line.value);
      var b, h := if brk == [] then [] else brk[0], if header == [] then [] else header[0];
      NoMore(Flat(cs) + b, h, line.value);
      if header == [] { assert cs + brk + header == cs + brk; }
    } else {
      NoMore(Flat(cs), [], []);
    }
  }

  lemma PutsIs(text: string, section: string, k: string, value: Option<string>, junk: bool)
    requires value.Some? ==> Lookup(Some(text), section, k) != value
    ensures Puts(Some(text), section, Some(k), value, junk) ==
            Some(Flat(EditKey(Pieces(text), section, k, LineFor(k, value), SectionLine(section), junk)))
  {
  }

  /** Where `ini_puts` makes its change, and whether the key is found. */
  lemma PlaceIsFound(text: string, section: string, k: string)
    requires ValidKey(k)
    ensures var ls := LinesOf(text);
            var place := Locate(ls, section, k);
            (Start(ls, section).Some? <==> !place.NewSection?) &&
            (place.Append? ==> place.start == Start(ls, section).value) &&
            (place.Insert? ==> ls[place.i].bracket) &&
            (place.Replace? ==>
              IniPlain.IsEntry(ls[place.i], k) && Lookup(Some(text), section, k) == Some(ls[place.i].value)) &&
            (!place.Replace? ==> Lookup(Some(text), section, k) == None)
  {
    hide Pieces, Parse, IniPlain.IsEntry;
    var ls := LinesOf(text);
    if Start(ls, section).Some? {
      SameSearch(Pieces(text), Start(ls, section).value, k);
      var i := First(ls, Start(ls, section).value, AnEntry(k));
      if i < |ls| { HitsIs(ls[i], k); }
    }
  }

  lemma ReplaceEdit(text: string, section: string, k: string, junk: bool, i: nat) returns (e: Edit)
    requires ValidKey(k) && i < |Pieces(text)| && Locate(LinesOf(text), section, k) == Replace(i)
    ensures IsEdit(e, text, section, k, junk)
    ensures e == Edit(Flat(Pieces(text)[..i]), Pieces(text)[i], [], [], Flat(Pieces(text)[i + 1..]))
  {
    hide Pieces, Parse, SectionLine, First, Flat, IniPlain.IsEntry, Locate, Lookup, Start;
    PlaceIsFound(text, section, k);
    PiecesAreWellCut(text);
    AroundPiece(Pieces(text), i);
    e := Edit(Flat(Pieces(text)[..i]), Pieces(text)[i], [], [], Flat(Pieces(text)[i + 1..]));
  }

  lemma InsertEdit(text: string, section: string, k: string, junk: bool, i: nat) returns (e: Edit)
    requires ValidKey(k) && i < |Pieces(text)| && Locate(LinesOf(text), section, k) == Insert(i)
    ensures IsEdit(e, text, section, k, junk)
    ensures e == Edit(Flat(Pieces(text)[..i]), [], [], [], Flat(Pieces(text)[i..]))
  {
    hide Pieces, Parse, SectionLine, First, Flat, IniPlain.IsEntry, Locate, Lookup, Start, LTrim;
    PlaceIsFound(text, section, k);
    AroundPiece(Pieces(text), i);
    BracketFirst(Pieces(text)[i], Flat(Pieces(text)[i + 1..]));
    e := Edit(Flat(Pieces(text)[..i]), [], [], [], Flat(Pieces(text)[i..]));
    assert text == e.a + [] + e.b;
  }

  lemma BracketFirst(c: string, rest: string)
    ensures Parse(c).bracket ==> c + rest != [] && LTrim(c + rest) != [] && LTrim(c + rest)[0] == '['
  {
    hide Index, Decode;
    if Parse(c).bracket { LTrimAppend(c, rest); }
  }

  /** At the end, for a section that is there or is not. */
  lemma AppendEdit(text: string, section: string, k: string, junk: bool) returns (e: Edit)
    requires ValidKey(k)
    requires Locate(LinesOf(text), section, k).Append? || Locate(LinesOf(text), section, k).NewSection?
    ensures IsEdit(e, text, section, k, junk)
    ensures var there := Start(LinesOf(text), section);
            var brk := ForcedBreak(Pieces(text), if there.Some? then there.value else 0, junk);
            e == Edit(text, [], if brk == [] then [] else brk[0],
                      if there.Some? then [] else SectionLine(section), [])
  {
    hide Pieces, Parse, SectionLine, First, Flat, IniPlain.IsEntry, Locate, Lookup, Start;
    PlaceIsFound(text, section, k);
    if Pieces(text) != [] { LastCharacter(text); }
    var there := Start(LinesOf(text), section);
    var brk := ForcedBreak(Pieces(text), if there.Some? then there.value else 0, junk);
    e := Edit(text, [], if brk == [] then [] else brk[0], if there.Some? then [] else SectionLine(section), []);
    assert text == text + [] + [];
  }

  lemma NoMore(a: string, b: string, c: string)
    ensures a + [] == a && a + [] + [] == a && a + b + c + [] == a + b + c && a + [] + [] + c == a + c
  {
  }

  /** Erasing a section takes one stretch of whole lines out of the text and leaves the rest. */
  lemma EraseCutsText(text: string, section: string, junk: bool) returns (i: nat, j: nat)
    ensures i <= j <= |Pieces(text)|
    ensures text == Flat(Pieces(text)[..i]) + Flat(Pieces(text)[i..j]) + Flat(Pieces(text)[j..])
    ensures Puts(Some(text), section, None, None, junk) == Some(Flat(Pieces(text)[..i]) + Flat(Pieces(text)[j..]))
    ensures section != [] && i < j ==>
              IniPlain.IsHeader(LinesOf(text)[i], section) &&
              forall m :: i < m < j ==> !LinesOf(text)[m].bracket
    ensures section != [] && i == j ==> forall l :: l in LinesOf(text) ==> !IniPlain.IsHeader(l, section)
  {
    hide Pieces, Parse, Flat;
    var cs, ls := Pieces(text), LinesOf(text);
    var r := Erased(ls, section);
    i, j := r.0, r.1;
    assert cs == cs[..i] + cs[i..j] + cs[j..];
    FlatAppend(cs[..i] + cs[i..j], cs[j..]);
    FlatAppend(cs[..i], cs[i..j]);
    FlatAppend(cs[..i], cs[j..]);
    if section != [] { ErasedStretch(ls, section); }
  }

  lemma ErasedStretch(ls: seq<Line>, section: string)
    requires section != []
    ensures var r := Erased(ls, section);
            if r.0 < r.1 then
              IniPlain.IsHeader(ls[r.0], section) && forall m :: r.0 < m < r.1 ==> !ls[m].bracket
            else forall m :: 0 <= m < |ls| ==> !IniPlain.IsHeader(ls[m], section)
  {
    var h := First(ls, 0, AHeader(section));
    if h < |ls| {
      HitsIs(ls[h], section);
      forall m | h < m < Erased(ls, section).1 ensures !ls[m].bracket { NoneBefore(ls, h + 1, ABracket, m); }
    } else {
      forall m | 0 <= m < |ls| ensures !IniPlain.IsHeader(ls[m], section) {
        NoneBefore(ls, 0, AHeader(section), m);
        HitsIs(ls[m], section);
      }
    }
  }

  // ---- what is found

  lemma FoundInParts(pre: seq<Line>, h: Line, mid: seq<Line>, l: Line, post: seq<Line>, section: string, k: string)
    requires section != [] && IniPlain.IsHeader(h, section) && IniPlain.IsEntry(l, k)
    requires forall x :: x in pre ==> !IniPlain.IsHeader(x, section)
    requires forall x :: x in mid ==> !x.bracket && !IniPlain.IsEntry(x, k)
    ensures Find(pre + [h] + mid + [l] + post, section, k) == Some(l.value)
  {
    hide IniPlain.IsHeader, IniPlain.IsEntry, Find;
    var ls, n := pre + [h] + mid + [l] + post, |pre| + 1;
    assert forall j :: 0 <= j < |pre| ==> ls[j] == pre[j] && pre[j] in pre;
    assert ls[n - 1] == h && ls[n + |mid|] == l;
    assert forall j :: n <= j < n + |mid| ==> ls[j] == mid[j - n] && mid[j - n] in mid;
    FoundIsFound(ls, section, k, n, n + |mid|);
  }

  lemma LinesOfParts(pre: seq<string>, header: string, mid: seq<string>, line: string)
    requires AllComplete(pre) && Complete(header) && AllComplete(mid) && Complete(line)
    ensures AllComplete(pre + [header] + mid + [line])
    ensures Lines(pre + [header] + mid + [line]) == Lines(pre) + [Parse(header)] + Lines(mid) + [Parse(line)]
  {
    hide Parse, Complete;
  }

  /**
   * A text that was put together from lines: some in front of the header, the header, some that are neither the end of
   * the section nor the entry, the entry, and anything behind it.
   */
  lemma WrittenIsFound(pre: seq<string>, header: string, mid: seq<string>, line: string, post: seq<string>,
                       section: string, k: string)
    requires AllComplete(pre) && Complete(header) && AllComplete(mid) && Complete(line) && WellCut(post)
    requires section != [] && IniPlain.IsHeader(Parse(header), section) && IniPlain.IsEntry(Parse(line), k)
    requires forall l :: l in Lines(pre) ==> !IniPlain.IsHeader(l, section)
    requires forall l :: l in Lines(mid) ==> !l.bracket && !IniPlain.IsEntry(l, k)
    ensures Lookup(Some(Flat(pre + [header] + mid + [line] + post)), section, k) == Some(Parse(line).value)
  {
    hide Lines, Parse, Flat, Pieces, IniPlain.IsHeader, IniPlain.IsEntry, Find, Complete, AllComplete, WellCut;
    LinesOfParts(pre, header, mid, line);
    CutAppend(pre + [header] + mid + [line], post);
    FoundInParts(Lines(pre), Parse(header), Lines(mid), Parse(line), Lines(post), section, k);
  }

  /** A text of a header and an entry. */
  lemma TwoLinesAreFound(header: string, line: string, section: string, k: string)
    requires Complete(header) && Complete(line)
    requires section != [] && IniPlain.IsHeader(Parse(header), section) && IniPlain.IsEntry(Parse(line), k)
    ensures Lookup(Some(header + line), section, k) == Some(Parse(line).value)
  {
    hide Parse, Flat, Pieces, IniPlain.IsHeader, IniPlain.IsEntry, Find, Complete;
    WrittenIsFound([], header, [], line, [], section, k);
    assert [] + [header] + [] + [line] + [] == [header] + [line];
    FlatAppend([header], [line]);
    FlatOne(header);
    FlatOne(line);
  }

  /** For example, whatever the case of the names. */
  lemma ExampleIsFound()
    ensures Lookup(Some("[Controller]\n" + "ip = 1.2.3.4 ; home\n"), "CONTROLLER", "IP") == Some("1.2.3.4")
  {
    hide Parse, Lookup, IniPlain.IsHeader, IniPlain.IsEntry;
    ExampleHeader("[Controller]\n");
    ExampleEntry("ip = 1.2.3.4 ; home\n");
    TwoLinesAreFound("[Controller]\n", "ip = 1.2.3.4 ; home\n", "CONTROLLER", "IP");
  }

  lemma ExampleHeader(s: string)
    requires s == "[Controller]\n"
    ensures IniPlain.IsHeader(Parse(s), "CONTROLLER") && Complete(s)
  {
    hide Parse;
    HeaderIsRead("", "Controller", "\n");
    assert s == "" + ("[" + "Controller" + "]" + "\n");
  }

  lemma ExampleEntry(s: string)
    requires s == "ip = 1.2.3.4 ; home\n"
    ensures IniPlain.IsEntry(Parse(s), "IP") && Parse(s).value == "1.2.3.4" && Complete(s)
  {
    hide Parse, Decode;
    var raw := " 1.2.3.4 ; home\n";
    ExampleValue(raw);
    EntryIsRead("", "ip", " ", '=', raw);
    assert s == "" + ("ip" + " " + ['='] + raw);
  }

  lemma ExampleValue(raw: string)
    requires raw == " 1.2.3.4 ; home\n"
    ensures Decode(raw) == "1.2.3.4"
  {
    hide Decode;
    PlainValueIsRead(" ", "1.2.3.4", " ", "; home\n");
    assert raw == " " + ("1.2.3.4" + " " + "; home\n");
  }

  // ---- enumeration and lookup

  /** Every key that is enumerated is found by a lookup ... */
  lemma {:induction false} EnumeratedIsFound(ls: seq<Line>, from: nat, idx: nat)
    requires from <= |ls| && idx < |Keys(ls[from..])|
    ensures FindFrom(ls, from, Keys(ls[from..])[idx]).Some?
    decreases |ls| - from
  {
    var k := Keys(ls[from..])[idx];
    assert from < |ls| && ls[from..][1..] == ls[from + 1..];
    if Entry(ls[from], k) {
    } else {
      var own := if ls[from].comment then [] else Opt(ls[from].key);
      assert Keys(ls[from..]) == own + Keys(ls[from + 1..]);
      if idx < |own| { assert EqFold(k, k); }
      EnumeratedIsFound(ls, from + 1, idx - |own|);
    }
  }

  /** ... and every key that a lookup finds is enumerated, in some case. */
  lemma {:induction false} FoundIsEnumerated(ls: seq<Line>, from: nat, k: string) returns (idx: nat)
    requires from <= |ls| && FindFrom(ls, from, k).Some?
    ensures idx < |Keys(ls[from..])| && SameName(Keys(ls[from..])[idx], k)
    decreases |ls| - from
  {
    assert from < |ls| && ls[from..][1..] == ls[from + 1..];
    var own := if ls[from].comment then [] else Opt(ls[from].key);
    assert Keys(ls[from..]) == own + Keys(ls[from + 1..]);
    if Entry(ls[from], k) {
      EqFoldIsSameName(ls[from].key.value, k);
      idx := 0;
    } else {
      idx := FoundIsEnumerated(ls, from + 1, k);
      idx := |own| + idx;
    }
  }

  /** The same for sections. */
  lemma {:induction false} SectionsAreFound(ls: seq<Line>, from: nat, name: string)
    requires from <= |ls| && forall l :: l in ls && l.section.Some? ==> l.bracket
    ensures First(ls, from, AHeader(name)) < |ls| <==>
            exists idx :: 0 <= idx < |Sections(ls[from..])| && SameName(Sections(ls[from..])[idx], name)
    decreases |ls| - from
  {
    var names := Sections(ls[from..]);
    if from == |ls| {
    } else {
      assert ls[from..][1..] == ls[from + 1..];
      var own, rest := Opt(ls[from].section), Sections(ls[from + 1..]);
      assert names == own + rest;
      SectionsAreFound(ls, from + 1, name);
      HitsIs(ls[from], name);
      assert ls[from] in ls;
      if own != [] && SameName(own[0], name) { assert names[0] == own[0]; }
      if idx: nat :| idx < |rest| && SameName(rest[idx], name) { assert names[|own| + idx] == rest[idx]; }
      if idx: nat :| idx < |names| && SameName(names[idx], name) {
        if idx >= |own| { assert rest[idx - |own|] == names[idx]; }
      }
    }
  }
}
