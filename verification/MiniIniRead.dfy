/** `getkeystring` and the functions that read with it, over the line buffer they share. */
module MiniIniRead {
  import opened Wrappers
  import opened CString
  import opened Chunks
  import opened QuoteCodec
  import opened IniLines
  import opened IniModel
  import opened IniFiles

  /** The next line, or the end of the file. */
  method ReadLine(r: InFile, buf: array<char>, ghost i: nat) returns (ok: bool)
    requires r.At(i) && buf.Length == INI_BUFFERSIZE
    modifies r`pos, buf
    ensures ok == (i < |Pieces(r.text)|)
    ensures ok ==> r.At(i + 1) && StrAt(buf, 0, Pieces(r.text)[i])
    ensures !ok ==> r.At(i) && buf[..] == old(buf[..])
  {
    ghost var cs := Pieces(r.text);
    if i < |cs| {
      PieceAt(r.text, i);
      PiecesAreWellCut(r.text);
      ReadPiece(r.text, i, MAX_PIECE);
    } else {
      OffEnd(cs);
    }
    ok := r.Read(buf, 0, INI_BUFFERSIZE);
  }

  /** A name in the buffer is compared by its length and with `strncasecmp`. */
  method SameName(buf: array<char>, from: nat, end: nat, name: string, ghost x: string) returns (same: bool)
    requires from <= end <= buf.Length && buf[from..end] == x
    ensures same == EqFold(x, name)
  {
    LowerLength(x, name);
    same := end - from == |name| && EqFold(buf[from..from + |name|], name);
  }

  /** The tests of minIni.c:184-186 and 574-576: a header line, and the one of `section`? */
  method TestHeader(buf: array<char>, section: string, ghost c: string)
    returns (sp: nat, ep: nat, header: bool, match': bool)
    requires StrAt(buf, 0, c)
    ensures header == SectionName(LTrim(c)).Some?
    ensures match' == (header && EqFold(SectionName(LTrim(c)).value, section))
    ensures header ==> sp < ep < buf.Length && buf[sp + 1..ep] == SectionName(LTrim(c)).value
    ensures header ==> IsStr(buf[sp + 1..ep])
  {
    sp := SkipLeading(buf, 0, c);
    ghost var s := LTrim(c);
    var found: bool;
    ep, found := StrChr(buf, sp, ']', s);
    StrAtHead(buf, sp, s);
    header := buf[sp] == '[' && found;
    match' := false;
    if header {
      StrAtPart(buf, sp, s, 1, ep - sp);
      PartIsStr(s, 1, ep - sp);
      match' := SameName(buf, sp + 1, ep, section, s[1..ep - sp]);
    }
  }

  /** `=`, or without it `:` */
  method FindAssign(buf: array<char>, sp: nat, ghost s: string) returns (ep: nat, found: bool)
    requires StrAt(buf, sp, s)
    ensures ep == sp + AssignAt(s) && found == (AssignAt(s) < |s|)
  {
    ep, found := StrChr(buf, sp, '=', s);
    if !found { ep, found := StrChr(buf, sp, ':', s); }
  }

  /** The tests of minIni.c:206-212 and 613-617: the assignment sign, and the entry `key`? */
  method TestEntry(buf: array<char>, sp: nat, key: string, ghost s: string)
    returns (ep: nat, assign: bool, match': bool)
    requires StrAt(buf, sp, s)
    ensures ep == sp + AssignAt(s) && assign == (AssignAt(s) < |s|)
    ensures match' == (KeyName(s).Some? && EqFold(KeyName(s).value, key))
    ensures assign ==> buf[sp..ep] == s[..AssignAt(s)] && IsStr(s[..AssignAt(s)])
  {
    ep, assign := FindAssign(buf, sp, s);
    match' := false;
    if assign {
      StrAtPart(buf, sp, s, 0, ep - sp);
      PartIsStr(s, 0, ep - sp);
      var end := SkipTrailing(buf, ep, sp);
      match' := SameName(buf, sp, end, key, RTrim(s[..AssignAt(s)]));
    }
  }

  /** One round of the comment scan: how far it goes, and its flag afterwards. */
  method ScanStep(buf: array<char>, ep: nat, isstring: bool, ghost s: string) returns (n: nat, isstring': bool)
    requires StrAt(buf, ep, s) && s != []
    requires (s[0] != ';' && s[0] != '#') || isstring
    ensures 0 < n <= |s| && CommentEnd(s, isstring) == n + CommentEnd(s[n..], isstring')
    ensures StrAt(buf, ep + n, s[n..])
  {
    StrAtHead(buf, ep, s);
    StrAtSecond(buf, ep, s);
    n, isstring' := 1, isstring;
    if buf[ep] == '"' {
      if buf[ep + 1] == '"' { n := 2; } else { isstring' := !isstring; }
    } else if buf[ep] == '\\' && buf[ep + 1] == '"' {
      n := 2;
    }
  }

  lemma ScanStops(s: string, isstring: bool)
    requires s == [] || ((s[0] == ';' || s[0] == '#') && !isstring)
    ensures CommentEnd(s, isstring) == 0
  {
  }

  /** The comment scan of minIni.c:230-240. */
  method ScanComment(buf: array<char>, sp: nat, ghost s: string) returns (ep: nat)
    requires StrAt(buf, sp, s)
    ensures ep == sp + CommentEnd(s, false)
  {
    hide CommentEnd;
    var isstring := false;
    ep := sp;
    ghost var rest := s;
    StrAtHead(buf, ep, rest);
    while buf[ep] != NUL && ((buf[ep] != ';' && buf[ep] != '#') || isstring)
      invariant StrAt(buf, ep, rest) && ep + |rest| == sp + |s|
      invariant ep - sp + CommentEnd(rest, isstring) == CommentEnd(s, false)
      invariant (buf[ep] == NUL <==> rest == []) && (rest != [] ==> buf[ep] == rest[0])
      decreases |rest|
    {
      var n: nat;
      n, isstring := ScanStep(buf, ep, isstring, rest);
      ep, rest := ep + n, rest[n..];
      StrAtHead(buf, ep, rest);
    }
    ScanStops(rest, isstring);
  }

  /** `*ep = '\0'` */
  method Cut(buf: array<char>, sp: nat, ep: nat, ghost s: string)
    requires sp <= ep < buf.Length && buf[sp..ep] == s && IsStr(s)
    modifies buf
    ensures StrAt(buf, sp, s)
  {
    buf[ep] := NUL;
    assert buf[sp..ep] == s;
  }

  /** Cuts the value off at a comment and at its trailing blanks (minIni.c:228-243). */
  method CutValue(buf: array<char>, at: nat, ghost raw: string) returns (sp: nat, ep: nat)
    requires StrAt(buf, at, raw)
    modifies buf
    ensures var t := RTrim(LTrim(raw)[..CommentEnd(LTrim(raw), false)]); StrAt(buf, sp, t) && ep == sp + |t|
  {
    hide CommentEnd, LTrim, RTrim;
    sp := SkipLeading(buf, at, raw);
    ghost var s := LTrim(raw);
    ep := ScanComment(buf, sp, s);
    ghost var u := s[..CommentEnd(s, false)];
    StrAtPart(buf, sp, s, 0, |u|);
    PartIsStr(s, 0, |u|);
    Cut(buf, sp, ep, u);
    ep := SkipTrailing(buf, ep, sp);
    RTrimIsPrefix(u);
    PartIsStr(u, 0, |RTrim(u)|);
    Cut(buf, sp, ep, RTrim(u));
  }

  /** Removes the quotes around a value while it is copied (minIni.c:245-251). */
  method CopyValue(buf: array<char>, sp: nat, ep: nat, ghost t: string, dest: array<char>, size: nat)
    requires StrAt(buf, sp, t) && ep == sp + |t| && size > 0 && size <= dest.Length && buf != dest
    modifies dest
    ensures StrAt(dest, 0, Take(Unwrap(t), size - 1))
  {
    var text, quotes := buf[sp..ep], QUOTE_NONE;
    StrAtHead(buf, sp, t);
    if buf[sp] == '"' {
      assert buf[ep - 1] == text[|text| - 1];
      if buf[ep - 1] == '"' {
        if |t| > 1 { PartIsStr(t, 1, |t| - 1); }
        text, quotes := if |text| == 1 then [] else text[1..|text| - 1], QUOTE_DEQUOTE;
      }
    }
    SaveStrncpy(dest, 0, text, size, quotes);
  }

  /** The value behind the assignment sign. */
  method ReadValue(buf: array<char>, at: nat, ghost raw: string, dest: array<char>, size: nat)
    requires StrAt(buf, at, raw) && size > 0 && size <= dest.Length && buf != dest
    modifies buf, dest
    ensures StrAt(dest, 0, Take(Decode(raw), size - 1))
  {
    var sp, ep := CutValue(buf, at, raw);
    CopyValue(buf, sp, ep, RTrim(LTrim(raw)[..CommentEnd(LTrim(raw), false)]), dest, size);
  }

  // ---- getkeystring

  lemma SectionsFrom(ls: seq<Line>, i: nat)
    requires i < |ls|
    ensures ls[i].section.Some? ==> Sections(ls[i..]) == [ls[i].section.value] + Sections(ls[i + 1..])
    ensures ls[i].section.None? ==> Sections(ls[i..]) == Sections(ls[i + 1..])
  {
    assert ls[i..][1..] == ls[i + 1..];
  }

  lemma KeysFrom(ls: seq<Line>, i: nat)
    requires i < |ls| && !ls[i].bracket
    ensures !ls[i].comment && ls[i].key.Some? ==> Keys(ls[i..]) == [ls[i].key.value] + Keys(ls[i + 1..])
    ensures ls[i].comment || ls[i].key.None? ==> Keys(ls[i..]) == Keys(ls[i + 1..])
  {
    assert ls[i..][1..] == ls[i + 1..];
  }

  /** The state of a search for the name with number `target`: `idx + 1` names have been passed. */
  ghost predicate Passed(names: seq<string>, rest: seq<string>, idx: int, target: int) {
    -1 <= idx < target &&
    (if idx + 1 <= |BeforeEmpty(names)| then BeforeEmpty(rest) == BeforeEmpty(names)[idx + 1..] else false)
  }

  lemma PassedAtStart(names: seq<string>, target: int)
    requires target >= 0
    ensures Passed(names, names, -1, target)
  {
    assert BeforeEmpty(names)[0..] == BeforeEmpty(names);
  }

  /** The next name: it is an empty one, or the one that is looked for, or one more is passed. */
  lemma PassOne(names: seq<string>, name: string, rest: seq<string>, idx: int, target: int)
    requires Passed(names, [name] + rest, idx, target)
    ensures name == [] ==> |BeforeEmpty(names)| <= target
    ensures name != [] && idx + 1 == target ==> target < |BeforeEmpty(names)| && BeforeEmpty(names)[target] == name
    ensures name != [] && idx + 1 < target ==> Passed(names, rest, idx + 1, target)
  {
    assert ([name] + rest)[1..] == rest;
    if name != [] {
      assert BeforeEmpty(names)[idx + 1..] == [name] + BeforeEmpty(rest);
      assert BeforeEmpty(names)[idx + 2..] == BeforeEmpty(names)[idx + 1..][1..] == BeforeEmpty(rest);
    }
  }

  /** Reads a line and tests it for a header (minIni.c:182-186 and 560-576). */
  method ReadHeader(r: InFile, buf: array<char>, section: string, ghost ls: seq<Line>, ghost i: nat)
    returns (ok: bool, sp: nat, ep: nat, header: bool, match': bool)
    requires r.At(i) && ls == LinesOf(r.text) && buf.Length == INI_BUFFERSIZE
    modifies r`pos, buf
    ensures r.Valid() && ok == (i < |ls|) && (ok ==> r.At(i + 1))
    ensures ok ==> header == ls[i].section.Some? && match' == (header && EqFold(ls[i].section.value, section))
    ensures ok && header ==> sp < ep < buf.Length && IsStr(buf[sp + 1..ep]) && buf[sp + 1..ep] == ls[i].section.value
    ensures ok ==> match' == HeaderOf(ls[i], section) && StrAt(buf, 0, Pieces(r.text)[i])
  {
    sp, ep, header, match' := 0, 0, false, false;
    ok := ReadLine(r, buf, i);
    if ok {
      sp, ep, header, match' := TestHeader(buf, section, Pieces(r.text)[i]);
      assert ls[i] == Parse(Pieces(r.text)[i]);
    }
  }

  /**
   * The first loop (minIni.c:178-197): to the header of a section, or to the `idxSection`-th header;
   * on the way to that an empty name counts as a match.
   */
  method SeekHeader(r: InFile, buf: array<char>, section: string, idxSection: int)
    returns (found: bool, idx: int, sp: nat, ep: nat, ghost i: nat)
    requires r.At(0) && buf.Length == INI_BUFFERSIZE
    requires idxSection >= 0 ==> section == []
    modifies r`pos, buf
    ensures r.Valid() && (found ==> r.At(i) && sp < ep < buf.Length && IsStr(buf[sp + 1..ep]))
    ensures idxSection < 0 && section != [] ==>
              Start(LinesOf(r.text), section) == if found then Some(i) else None
    ensures idxSection >= 0 ==>
              var names := BeforeEmpty(Sections(LinesOf(r.text)));
              (found && idx == idxSection <==> idxSection < |names|) &&
              (idxSection < |names| ==> buf[sp + 1..ep] == names[idxSection])
  {
    hide Pieces;
    hide Parse;
    ghost var ls := LinesOf(r.text);
    ghost var names := Sections(ls);
    idx, i, found := -1, 0, false;
    assert ls[0..] == ls;
    if idxSection >= 0 { PassedAtStart(names, idxSection); }
    while true
      invariant r.At(i) && i <= |ls| && idx >= -1 && !found
      invariant idxSection < 0 ==> First(ls, 0, AHeader(section)) == First(ls, i, AHeader(section))
      invariant idxSection >= 0 ==> Passed(names, Sections(ls[i..]), idx, idxSection)
      decreases |ls| - i
    {
      var ok, header, match';
      ok, sp, ep, header, match' := ReadHeader(r, buf, section, ls, i);
      if !ok { return; }
      SectionsFrom(ls, i);
      i := i + 1;
      if header {
        if idxSection >= 0 { PassOne(names, buf[sp + 1..ep], Sections(ls[i..]), idx, idxSection); }
        LowerLength(buf[sp + 1..ep], section);
        if match' { found := true; return; }
        idx := idx + 1;
        if idx == idxSection { found := true; return; }
      }
    }
  }

  /** The tests of minIni.c:206-212: bracket line, entry, and the entry `key`? */
  method TestLine(buf: array<char>, key: string, ghost c: string)
    returns (sp: nat, ep: nat, bracket: bool, entry: bool, match': bool, ghost raw: string)
    requires StrAt(buf, 0, c)
    ensures var s := LTrim(c);
            bracket == Bracket(s) && entry == (!Comment(s) && KeyName(s).Some?) &&
            match' == (entry && EqFold(KeyName(s).value, key)) &&
            (entry ==> IsStr(s[..AssignAt(s)]) && raw == RawValue(s))
    ensures entry ==> sp <= ep < buf.Length && buf[sp..ep] == LTrim(c)[..AssignAt(LTrim(c))]
    ensures entry ==> StrAt(buf, ep + 1, raw)
  {
    ghost var s := LTrim(c);
    sp := SkipLeading(buf, 0, c);
    StrAtHead(buf, sp, s);
    bracket := buf[sp] == '[';
    var assign;
    ep, assign, match' := TestEntry(buf, sp, key, s);
    entry := buf[sp] != ';' && buf[sp] != '#' && assign;
    match' := entry && match';
    raw := RawValue(s);
    if entry { StrAtSuffix(buf, sp, s, AssignAt(s) + 1); }
  }

  /** Reads a line and tests it for an entry (minIni.c:206-212). */
  method ReadEntry(r: InFile, buf: array<char>, key: string, ghost ls: seq<Line>, ghost i: nat)
    returns (ok: bool, sp: nat, ep: nat, bracket: bool, entry: bool, match': bool, ghost raw: string, ghost c: string)
    requires r.At(i) && ls == LinesOf(r.text) && buf.Length == INI_BUFFERSIZE
    modifies r`pos, buf
    ensures r.Valid() && ok == (i < |ls|) && (ok ==> r.At(i + 1))
    ensures ok ==> bracket == ls[i].bracket && entry == (!ls[i].comment && ls[i].key.Some?)
    ensures ok ==> match' == (entry && EqFold(ls[i].key.value, key))
    ensures ok && entry ==> sp <= ep < buf.Length && IsStr(buf[sp..ep]) && RTrim(buf[sp..ep]) == ls[i].key.value
    ensures ok && entry ==> StrAt(buf, ep + 1, raw) && raw == RawValue(LTrim(c)) && ls[i] == Parse(c)
  {
    sp, ep, bracket, entry, match', raw, c := 0, 0, false, false, false, [], [];
    ok := ReadLine(r, buf, i);
    if ok {
      c := Pieces(r.text)[i];
      sp, ep, bracket, entry, match', raw := TestLine(buf, key, c);
      assert ls[i] == Parse(c);
    }
  }

  /** What the second loop knows before line `i`. */
  ghost predicate Searching(ls: seq<Line>, from: nat, i: nat, key: string, idx: int, idxKey: int) {
    from <= i <= |ls| && idx >= -1 &&
    (idxKey < 0 ==> First(ls, from, AnEntry(key)) == First(ls, i, AnEntry(key))) &&
    (idxKey >= 0 ==> Passed(Keys(ls[from..]), Keys(ls[i..]), idx, idxKey))
  }

  /** What it has found when it stops: the entry `key`, or the name with number `idxKey`. */
  ghost predicate Searched(ls: seq<Line>, from: nat, i: nat, key: string, idx: int, idxKey: int, found: bool) {
    from <= i <= |ls| && (found ==> i < |ls| && ls[i].key.Some?) &&
    (idxKey < 0 ==> i == First(ls, from, AnEntry(key)) && (found <==> i < |ls| && !ls[i].bracket)) &&
    (idxKey >= 0 ==>
      var names := BeforeEmpty(Keys(ls[from..]));
      (found && idx == idxKey <==> idxKey < |names|) && (idxKey < |names| ==> ls[i].key.value == names[idxKey]))
  }

  lemma SearchStarts(ls: seq<Line>, from: nat, key: string, idxKey: int)
    requires from <= |ls|
    ensures Searching(ls, from, from, key, -1, idxKey)
  {
    if idxKey >= 0 { PassedAtStart(Keys(ls[from..]), idxKey); }
  }

  lemma SearchFails(ls: seq<Line>, from: nat, i: nat, key: string, idx: int, idxKey: int)
    requires Searching(ls, from, i, key, idx, idxKey) && (i == |ls| || ls[i].bracket)
    ensures Searched(ls, from, i, key, idx, idxKey, false)
  {
    if idxKey >= 0 { assert Keys(ls[i..]) == []; }
  }

  lemma SearchSkips(ls: seq<Line>, from: nat, i: nat, key: string, idx: int, idxKey: int)
    requires Searching(ls, from, i, key, idx, idxKey) && i < |ls| && !ls[i].bracket
    requires ls[i].comment || ls[i].key.None?
    ensures Searching(ls, from, i + 1, key, idx, idxKey)
  {
    KeysFrom(ls, i);
  }

  lemma SearchMeets(ls: seq<Line>, from: nat, i: nat, key: string, idx: int, idxKey: int)
    requires Searching(ls, from, i, key, idx, idxKey) && i < |ls| && !ls[i].bracket
    requires !ls[i].comment && ls[i].key.Some? && (idxKey >= 0 ==> key == [])
    ensures EqFold(ls[i].key.value, key) ==> Searched(ls, from, i, key, idx, idxKey, true)
    ensures !EqFold(ls[i].key.value, key) && idx + 1 == idxKey ==> Searched(ls, from, i, key, idx + 1, idxKey, true)
    ensures !EqFold(ls[i].key.value, key) && idx + 1 != idxKey ==> Searching(ls, from, i + 1, key, idx + 1, idxKey)
  {
    KeysFrom(ls, i);
    LowerLength(ls[i].key.value, key);
    if idxKey >= 0 { PassOne(Keys(ls[from..]), ls[i].key.value, Keys(ls[i + 1..]), idx, idxKey); }
  }

  /** The second loop (minIni.c:202-212): to an entry, or to the `idxKey`-th entry of the section. */
  method SeekEntry(r: InFile, buf: array<char>, key: string, idxKey: int, ghost from: nat, ghost ls: seq<Line>)
    returns (found: bool, idx: int, sp: nat, ep: nat, ghost i: nat, ghost raw: string, ghost c: string)
    requires r.At(from) && ls == LinesOf(r.text) && buf.Length == INI_BUFFERSIZE
    requires idxKey >= 0 ==> key == []
    modifies r`pos, buf
    ensures r.Valid() && Searched(ls, from, i, key, idx, idxKey, found)
    ensures found ==> sp <= ep < buf.Length && IsStr(buf[sp..ep]) && RTrim(buf[sp..ep]) == ls[i].key.value
    ensures found ==> StrAt(buf, ep + 1, raw) && raw == RawValue(LTrim(c)) && ls[i] == Parse(c)
  {
    hide Parse;
    idx, i, found := -1, from, false;
    SearchStarts(ls, from, key, idxKey);
    while true
      invariant r.At(i) && i <= |ls| && !found && Searching(ls, from, i, key, idx, idxKey)
      decreases |ls| - i
    {
      var ok, bracket, entry, match';
      ok, sp, ep, bracket, entry, match', raw, c := ReadEntry(r, buf, key, ls, i);
      if !ok || bracket { SearchFails(ls, from, i, key, idx, idxKey); return; }
      if entry {
        SearchMeets(ls, from, i, key, idx, idxKey);
        if match' { found := true; return; }
        idx := idx + 1;
        if idx == idxKey { found := true; return; }
      } else {
        SearchSkips(ls, from, i, key, idx, idxKey);
      }
      i := i + 1;
    }
  }

  /** What `getkeystring` puts out: the value of a key, or the name of a section or of a key. */
  function KeyString(ls: seq<Line>, section: string, key: Option<string>, idxSection: int, idxKey: int): Option<string>
    requires idxSection >= 0 || idxKey >= 0 || key.Some?
  {
    if idxSection >= 0 then
      var names := BeforeEmpty(Sections(ls));
      if idxSection < |names| then Some(names[idxSection]) else None
    else if idxKey >= 0 then
      match Start(ls, section)
      case None => None
      case Some(a) =>
        var names := BeforeEmpty(Keys(ls[a..]));
        if idxKey < |names| then Some(names[idxKey]) else None
    else Find(ls, section, key.value)
  }

  /** minIni.c `getkeystring`, for the arguments its callers pass (minIni.c:274, 368, 394, 534). */
  method GetKeyString(r: InFile, section: string, key: Option<string>, idxSection: int, idxKey: int,
                      buffer: array<char>, size: nat) returns (ok: bool)
    requires r.At(0) && 0 < size <= buffer.Length
    requires idxSection >= 0 ==> section == [] && key.None? && idxKey < 0
    requires idxKey >= 0 ==> key.None?
    requires key.None? ==> idxSection >= 0 || idxKey >= 0
    modifies r`pos, buffer
    ensures r.Valid()
    ensures var v := KeyString(LinesOf(r.text), section, key, idxSection, idxKey);
            ok == v.Some? && (ok ==> StrAt(buffer, 0, Take(v.value, size - 1)))
  {
    var localBuffer := new char[INI_BUFFERSIZE];
    var found, idx, sp, ep;
    ghost var i := 0;
    ghost var ls := LinesOf(r.text);
    if section != [] || idxSection >= 0 {
      found, idx, sp, ep, i := SeekHeader(r, localBuffer, section, idxSection);
      if !found { return false; }
      if idxSection >= 0 {
        if idx == idxSection {
          SaveStrncpy(buffer, 0, localBuffer[sp + 1..ep], size, QUOTE_NONE);
          return true;
        }
        return false;
      }
    }
    if idxKey >= 0 {
      ok := GetKeyName(r, localBuffer, idxKey, buffer, size, i, ls);
    } else {
      ok := GetValue(r, localBuffer, key.value, buffer, size, i, ls);
    }
  }

  lemma ParsedValue(c: string, l: Line)
    requires l == Parse(c) && l.key.Some?
    ensures Decode(RawValue(LTrim(c))) == l.value
  {
  }

  /** The rest of `getkeystring` once the section has been found (minIni.c:199-252): a value ... */
  method GetValue(r: InFile, buf: array<char>, key: string, buffer: array<char>, size: nat, ghost from: nat,
                  ghost ls: seq<Line>) returns (ok: bool)
    requires r.At(from) && ls == LinesOf(r.text)
    requires 0 < size <= buffer.Length && buf.Length == INI_BUFFERSIZE && buf != buffer
    modifies r`pos, buf, buffer
    ensures r.Valid()
    ensures var v := FindFrom(ls, from, key);
            ok == v.Some? && (ok ==> StrAt(buffer, 0, Take(v.value, size - 1)))
  {
    var idx, sp, ep;
    ghost var i, raw, c;
    ok, idx, sp, ep, i, raw, c := SeekEntry(r, buf, key, -1, from, ls);
    if ok {
      ParsedValue(c, ls[i]);
      ReadValue(buf, ep + 1, raw, buffer, size);
    }
  }

  /** ... or the name of a key. */
  method GetKeyName(r: InFile, buf: array<char>, idxKey: nat, buffer: array<char>, size: nat, ghost from: nat,
                    ghost ls: seq<Line>) returns (ok: bool)
    requires r.At(from) && ls == LinesOf(r.text)
    requires 0 < size <= buffer.Length && buf.Length == INI_BUFFERSIZE && buf != buffer
    modifies r`pos, buf, buffer
    ensures r.Valid()
    ensures var names := BeforeEmpty(Keys(ls[from..]));
            ok == (idxKey < |names|) && (ok ==> StrAt(buffer, 0, Take(names[idxKey], size - 1)))
  {
    var found, idx, sp, ep;
    ghost var i, raw, c;
    found, idx, sp, ep, i, raw, c := SeekEntry(r, buf, [], idxKey, from, ls);
    ok := found && idx == idxKey;
    if ok {
      var end := SkipTrailing(buf, ep, sp);
      RTrimIsPrefix(buf[sp..ep]);
      PartIsStr(buf[sp..ep], 0, end - sp);
      SaveStrncpy(buffer, 0, buf[sp..end], size, QUOTE_NONE);
    }
  }
}
