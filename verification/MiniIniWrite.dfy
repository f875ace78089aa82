/**
 * `ini_puts`: one pass over the file, in which lines are not copied but counted.  `cachelen` bytes
 * behind `mark` are due to be copied; `cache_flush` goes back to `mark` and reads them once more.
 */
module MiniIniWrite {
  import opened Wrappers
  import opened CString
  import opened Chunks
  import opened QuoteCodec
  import opened IniLines
  import opened IniModel
  import opened IniFiles
  import opened MiniIniRead

  // ---- writing lines

  /** Puts a character behind the string in the buffer. */
  method Extend(buf: array<char>, n: nat, c: char, ghost s: string)
    requires StrAt(buf, 0, s) && n == |s| && n + 1 < buf.Length && c != NUL
    modifies buf
    ensures StrAt(buf, 0, s + [c])
  {
    buf[n] := c;
    buf[n + 1] := NUL;
    assert buf[..n + 1] == s + [c];
  }

  /** minIni.c `writesection` */
  method WriteSection(buf: array<char>, section: string, w: OutFile)
    requires buf.Length == INI_BUFFERSIZE && IsStr(section)
    modifies buf, w
    ensures w.text == old(w.text) + if section == [] then [] else SectionLine(section)
  {
    hide CopyText;
    if |section| > 0 {
      buf[0] := '[';
      ghost var t := Take(section, INI_BUFFERSIZE - 5);
      CopyTextPlain(section, INI_BUFFERSIZE - 4);
      SaveStrncpy(buf, 1, section, INI_BUFFERSIZE - 4, QUOTE_NONE);
      ghost var s := ['['] + t;
      StrAtCons(buf, t);
      var p := StrLen(buf, 0, s);
      Extend(buf, p, ']', s);
      Extend(buf, p + 1, '\n', s + [']']);
      w.Write(buf, s + [']'] + ['\n']);
      assert s + [']'] + ['\n'] == SectionLine(section);
    }
  }

  lemma StrAtCons(buf: array<char>, t: string)
    requires StrAt(buf, 1, t) && buf[0] != NUL
    ensures StrAt(buf, 0, [buf[0]] + t)
  {
    assert buf[0..1 + |t|] == [buf[0]] + buf[1..1 + |t|];
  }

  lemma StrAtAppend(buf: array<char>, s: string, t: string)
    requires |s| <= buf.Length && buf[..|s|] == s && IsStr(s) && StrAt(buf, |s|, t)
    ensures StrAt(buf, 0, s + t)
  {
    assert buf[0..|s| + |t|] == buf[..|s|] + buf[|s|..|s| + |t|];
  }

  lemma CopyTextPlain(s: string, maxlen: nat)
    requires maxlen > 0
    ensures CopyText(s, maxlen, QUOTE_NONE) == Take(s, maxlen - 1)
  {
  }

  /** minIni.c `writekey` */
  method WriteKey(buf: array<char>, key: string, value: string, w: OutFile)
    requires buf.Length == INI_BUFFERSIZE && IsStr(key) && IsStr(value)
    modifies buf, w
    ensures w.text == old(w.text) + KeyLine(key, value)
  {
    hide CopyText;
    hide NeedsQuote;
    var option := CheckEnquote(value);
    ghost var k := Take(key, INI_BUFFERSIZE - 4);
    CopyTextPlain(key, INI_BUFFERSIZE - 3);
    SaveStrncpy(buf, 0, key, INI_BUFFERSIZE - 3, QUOTE_NONE);
    var p := StrLen(buf, 0, k);
    Extend(buf, p, '=', k);
    p := p + 1;
    ghost var v := CopyText(value, INI_BUFFERSIZE - p - 2, option);
    ghost var s := k + ['='];
    assert buf[..p] == s;
    SaveStrncpy(buf, p, value, INI_BUFFERSIZE - p - 2, option);
    StrAtAppend(buf, s, v);
    p := StrLen(buf, 0, s + v);
    Extend(buf, p, '\n', s + v);
    w.Write(buf, s + v + ['\n']);
  }

  // ---- the cache

  /** minIni.c `cache_accum` */
  method CacheAccum(buf: array<char>, size: nat, max: nat, ghost s: string) returns (ok: bool, size': nat)
    requires StrAt(buf, 0, s)
    ensures ok == (size + |s| < max)
    ensures size' == if ok then size + |s| else size
  {
    var len := StrLen(buf, 0, s);
    ok := size + len < max;
    size' := if ok then size + len else size;
  }

  /** `size` characters behind `mark` are pieces `j` up to `i` of the file. */
  ghost predicate Cached(r: InFile, mark: nat, size: nat, j: nat, i: nat)
  {
    j <= i <= |Pieces(r.text)| && mark == Off(Pieces(r.text), j) && mark + size == Off(Pieces(r.text), i)
  }

  lemma PieceFits(text: string, j: nat, m: nat, i: nat)
    requires j <= m < i <= |Pieces(text)|
    requires Off(Pieces(text), i) - Off(Pieces(text), j) <= MAX_PIECE
    ensures Off(Pieces(text), j) <= Off(Pieces(text), m) < Off(Pieces(text), m + 1) <= Off(Pieces(text), i) <= |text|
    ensures Off(Pieces(text), m + 1) - Off(Pieces(text), m) == |Pieces(text)[m]|
  {
    var cs := Pieces(text);
    PiecesAreWellCut(text);
    PieceAt(text, m);
    OffMonotone(cs, j, m);
    OffMonotone(cs, m + 1, i);
  }

  /**
   * minIni.c `cache_flush`.  Its loop terminates and its assertion holds: reading back with what is left
   * of the buffer gives the same pieces again.  `junk` is the comparison in line 485 when nothing is cached.
   */
  method CacheFlush(buf: array<char>, size: nat, r: InFile, w: OutFile, mark: nat, junk: bool,
                    ghost j: nat, ghost i: nat)
    returns (flag: bool, mark': nat)
    requires r.Valid() && buf.Length == INI_BUFFERSIZE && size <= MAX_PIECE && Cached(r, mark, size, j, i)
    modifies r`pos, w, buf
    ensures r.At(i) && mark' == r.pos == mark + size <= |r.text|
    ensures w.text == old(w.text) + r.text[mark..mark + size]
    ensures flag == if size == 0 then junk else r.text[mark + size - 1] == '\n'
  {
    hide Pieces;
    hide Flat;
    ghost var cs := Pieces(r.text);
    SplitAt(cs, i);
    SplitAt(cs, j);
    var pos := 0;
    r.Seek(mark);
    buf[0] := NUL;
    ghost var m := j;
    while pos < size
      invariant j <= m <= i && r.At(m) && r.pos == mark + pos && pos <= size
      invariant StrAt(buf, 0, r.text[mark..mark + pos]) && w.text == old(w.text)
      decreases size - pos
    {
      pos, m := Refill(buf, pos, size, r, mark, j, m, i);
      assert pos <= size;
    }
    StrAtHead(buf, 0, r.text[mark..mark + pos]);
    assert pos == 0 ==> w.text + r.text[mark..mark + pos] == w.text;
    if buf[0] != NUL { w.Write(buf, r.text[mark..mark + pos]); }
    mark' := r.pos;
    flag := if pos == 0 then junk else buf[pos - 1] == '\n';
    assert pos > 0 ==> buf[..pos][pos - 1] == r.text[mark..mark + pos][pos - 1];
  }

  lemma StrAtJoin(buf: array<char>, pos: nat, a: string, c: string)
    requires pos == |a| && IsStr(a) && StrAt(buf, pos, c) && buf[..pos] == a
    ensures StrAt(buf, 0, a + c)
  {
    assert buf[..pos + |c|] == buf[..pos] + buf[pos..pos + |c|];
  }

  /** What one round of the loop reads. */
  lemma NextPiece(text: string, mark: nat, size: nat, j: nat, m: nat, i: nat)
    requires j <= m <= i <= |Pieces(text)| && size <= MAX_PIECE
    requires mark == Off(Pieces(text), j) && mark + size == Off(Pieces(text), i)
    requires mark <= Off(Pieces(text), m) < mark + size
    ensures m < i && Off(Pieces(text), m) < Off(Pieces(text), m + 1) <= mark + size <= |text|
    ensures LineLen(text[Off(Pieces(text), m)..], MAX_PIECE - (Off(Pieces(text), m) - mark))
         == Off(Pieces(text), m + 1) - Off(Pieces(text), m)
  {
    hide Pieces, Off, LineLen;
    PieceFits(text, j, m, i);
    ReadPiece(text, m, MAX_PIECE - (Off(Pieces(text), m) - mark));
  }

  /** One round of the loop: `ini_read(buffer + pos, INI_BUFFERSIZE - pos)`. */
  method Refill(buf: array<char>, pos: nat, size: nat, r: InFile, mark: nat, ghost j: nat, ghost m: nat, ghost i: nat)
    returns (pos': nat, ghost m': nat)
    requires buf.Length == INI_BUFFERSIZE && size <= MAX_PIECE && Cached(r, mark, size, j, i)
    requires j <= m <= i && r.At(m) && r.pos == mark + pos && pos < size
    requires StrAt(buf, 0, r.text[mark..mark + pos])
    modifies r`pos, buf
    ensures m' == m + 1 && m' <= i && r.At(m') && r.pos == mark + pos' && pos < pos' <= size
    ensures StrAt(buf, 0, r.text[mark..mark + pos'])
  {
    hide Pieces;
    hide Flat;
    hide LineLen;
    NextPiece(r.text, mark, size, j, m, i);
    ghost var done := r.text[mark..mark + pos];
    m' := m + 1;
    var ok := r.Read(buf, pos, INI_BUFFERSIZE - pos);
    ghost var c := r.text[mark + pos..r.pos];
    var n := StrLen(buf, pos, c);
    pos' := pos + n;
    assert buf[..pos] == done;
    StrAtJoin(buf, pos, done, c);
    assert r.text[mark..mark + pos'] == done + c;
  }

  // ---- the loops of ini_puts

  /**
   * What every loop keeps: the output so far and the cached characters together are `out`, which is what an
   * editor that copies line by line would have written before line `i`.
   */
  ghost predicate Copying(r: InFile, w: OutFile, mark: nat, size: nat, j: nat, i: nat, out: string)
    reads w
  {
    size <= MAX_PIECE && Cached(r, mark, size, j, i) && mark + size <= |r.text| &&
    w.text + r.text[mark..mark + size] == out
  }

  lemma CacheGrows(text: string, mark: nat, size: nat, i: nat)
    requires i < |Pieces(text)| && mark + size == Off(Pieces(text), i)
    ensures var c := Pieces(text)[i];
            0 < |c| <= MAX_PIECE && mark + size + |c| == Off(Pieces(text), i + 1) && mark + size + |c| <= |text| &&
            text[mark..mark + size + |c|] == text[mark..mark + size] + c
  {
    PiecesAreWellCut(text);
    PieceAt(text, i);
    var c := Pieces(text)[i];
    assert text[mark..mark + size + |c|] == text[mark..mark + size] + text[mark + size..mark + size + |c|];
  }

  /** Counts the line in the buffer as copied; makes room in the cache first if it must (minIni.c:578-582). */
  method CopyLine(buf: array<char>, size: nat, r: InFile, w: OutFile, mark: nat,
                  ghost j: nat, ghost i: nat, ghost out: string)
    returns (size': nat, mark': nat, ghost j': nat)
    requires buf.Length == INI_BUFFERSIZE && r.At(i + 1) && i < |Pieces(r.text)|
    requires StrAt(buf, 0, Pieces(r.text)[i]) && Copying(r, w, mark, size, j, i, out)
    modifies r`pos, w, buf
    ensures r.At(i + 1) && size' > 0 && Copying(r, w, mark', size', j', i + 1, out + Pieces(r.text)[i])
  {
    hide Pieces;
    hide Off;
    ghost var c := Pieces(r.text)[i];
    CacheGrows(r.text, mark, size, i);
    var ok: bool;
    ok, size' := CacheAccum(buf, size, INI_BUFFERSIZE, c);
    mark', j' := mark, j;
    if ok {
      assert w.text + (r.text[mark..mark + size] + c) == out + c;
    } else {
      var flag;
      flag, mark' := CacheFlush(buf, size, r, w, mark, false, j, i);
      j' := i;
      CacheGrows(r.text, mark', 0, i);
      assert r.text[mark'..mark'] == [];
      ok := ReadLine(r, buf, i);
      ok, size' := CacheAccum(buf, 0, INI_BUFFERSIZE, c);
      assert ok;
    }
  }

  /** The search for the section (minIni.c:557-585); `copyHeader` is `Key != NULL`. */
  method SeekSection(buf: array<char>, r: InFile, w: OutFile, section: string, copyHeader: bool, ghost ls: seq<Line>)
    returns (found: bool, size: nat, mark: nat, ghost j: nat, ghost i: nat)
    requires buf.Length == INI_BUFFERSIZE && r.At(0) && w.text == [] && ls == LinesOf(r.text)
    modifies r`pos, w, buf
    ensures r.Valid() && i == First(ls, 0, AHeader(section)) && found == (i < |ls|)
    ensures var end := if found && copyHeader then i + 1 else i;
            Copying(r, w, mark, size, j, end, Flat(Pieces(r.text)[..end])) && (!found && i > 0 ==> size > 0)
  {
    hide Pieces, Parse, LineLen, HeaderOf;
    ghost var cs := Pieces(r.text);
    size, mark, j, i := 0, 0, 0, 0;
    assert cs[..0] == [];
    while true
      invariant r.At(i) && i <= |ls| && First(ls, 0, AHeader(section)) == First(ls, i, AHeader(section))
      invariant Copying(r, w, mark, size, j, i, Flat(cs[..i])) && (i > 0 ==> size > 0)
      decreases |ls| - i
    {
      var sp, ep, header, match';
      found, sp, ep, header, match' := ReadHeader(r, buf, section, ls, i);
      if !found { return; }
      if !match' || copyHeader {
        OffStep(cs, i);
        size, mark, j := CopyLine(buf, size, r, w, mark, j, i, Flat(cs[..i]));
      }
      if match' { return; }
      i := i + 1;
    }
  }

  /** Reads a line and tests it for the entry (minIni.c:603-617). */
  method ReadAssignLine(r: InFile, buf: array<char>, key: string, ghost ls: seq<Line>, ghost i: nat)
    returns (ok: bool, bracket: bool, match': bool)
    requires r.At(i) && ls == LinesOf(r.text) && buf.Length == INI_BUFFERSIZE
    modifies r`pos, buf
    ensures r.Valid() && ok == (i < |ls|)
    ensures ok ==> r.At(i + 1) && match' == Assigns(ls[i], key) && bracket == ls[i].bracket
    ensures ok ==> StrAt(buf, 0, Pieces(r.text)[i])
  {
    bracket, match' := false, false;
    ok := ReadLine(r, buf, i);
    if ok {
      ghost var c := Pieces(r.text)[i];
      var sp := SkipLeading(buf, 0, c);
      StrAtHead(buf, sp, LTrim(c));
      bracket := buf[sp] == '[';
      var ep, assign;
      ep, assign, match' := TestEntry(buf, sp, key, LTrim(c));
      assert ls[i] == Parse(c);
    }
  }

  /** The search for the key (minIni.c:601-630), copying the lines it passes. */
  method SeekKey(buf: array<char>, r: InFile, w: OutFile, key: string, start: nat, ghost a: nat, ghost ls: seq<Line>)
    returns (found: bool, bracket: bool, size: nat, mark: nat, ghost j: nat, ghost i: nat)
    requires buf.Length == INI_BUFFERSIZE && r.At(a) && start == r.pos && ls == LinesOf(r.text)
    requires w.text == Flat(Pieces(r.text)[..a])
    modifies r`pos, w, buf
    ensures r.Valid() && i == First(ls, a, AnAssign(key)) && found == (i < |ls|) && (found ==> bracket == ls[i].bracket)
    ensures Copying(r, w, mark, size, j, i, Flat(Pieces(r.text)[..i])) && (i > a ==> size > 0) && (i == a ==> size == 0)
  {
    hide Pieces;
    hide Parse;
    ghost var cs := Pieces(r.text);
    size, mark, j, i := 0, start, a, a;
    assert r.text[mark..mark] == [];
    while true
      invariant r.At(i) && a <= i <= |ls| && First(ls, a, AnAssign(key)) == First(ls, i, AnAssign(key))
      invariant Copying(r, w, mark, size, j, i, Flat(cs[..i])) && (i > a ==> size > 0) && (i == a ==> size == 0)
      decreases |ls| - i
    {
      var match';
      found, bracket, match' := ReadAssignLine(r, buf, key, ls, i);
      if !found || match' || bracket { return; }
      OffStep(cs, i);
      size, mark, j := CopyLine(buf, size, r, w, mark, j, i, Flat(cs[..i]));
      i := i + 1;
    }
  }

  /** The same loop when a section is deleted: it moves the read position on and copies nothing. */
  method SkipSection(buf: array<char>, r: InFile, start: nat, ghost a: nat, ghost ls: seq<Line>)
    returns (found: bool, mark: nat, ghost i: nat)
    requires buf.Length == INI_BUFFERSIZE && r.At(a) && start == r.pos && ls == LinesOf(r.text)
    modifies r`pos, buf
    ensures r.Valid() && i == First(ls, a, ABracket) && found == (i < |ls|)
    ensures mark == Off(Pieces(r.text), i)
  {
    hide Pieces;
    hide Parse;
    mark, i := start, a;
    while true
      invariant r.At(i) && a <= i <= |ls| && First(ls, a, ABracket) == First(ls, i, ABracket)
      invariant mark == r.pos
      decreases |ls| - i
    {
      var bracket, match';
      found, bracket, match' := ReadAssignLine(r, buf, [], ls, i);
      if !found || bracket { return; }
      mark := r.pos;
      i := i + 1;
    }
  }

  /** The rest of the file (minIni.c:652-660). */
  method CopyRest(buf: array<char>, r: InFile, w: OutFile, size: nat, mark: nat, ghost j: nat, ghost from: nat,
                  ghost out: string)
    requires buf.Length == INI_BUFFERSIZE && r.At(from) && Copying(r, w, mark, size, j, from, out)
    modifies r`pos, w, buf
    ensures w.text == out + Flat(Pieces(r.text)[from..])
  {
    hide Pieces;
    ghost var cs := Pieces(r.text);
    var size, mark := size, mark;
    ghost var j, i := j, from;
    var more := true;
    assert cs[from..from] == [];
    while more
      invariant r.Valid() && from <= i <= |cs| && (more ==> r.At(i)) && (!more ==> i == |cs|)
      invariant Copying(r, w, mark, size, j, i, out + Flat(cs[from..i]))
      decreases |cs| - i, more
    {
      more := ReadLine(r, buf, i);
      if more {
        FlatNext(cs, from, i, out);
        size, mark, j := CopyLine(buf, size, r, w, mark, j, i, out + Flat(cs[from..i]));
        i := i + 1;
      }
    }
    var flag;
    flag, mark := CacheFlush(buf, size, r, w, mark, false, j, i);
    assert cs[from..|cs|] == cs[from..];
  }

  lemma FlatNext(cs: seq<string>, from: nat, i: nat, out: string)
    requires from <= i < |cs|
    ensures out + Flat(cs[from..i + 1]) == (out + Flat(cs[from..i])) + cs[i]
  {
    assert cs[from..i + 1] == cs[from..i] + [cs[i]];
    FlatAppend(cs[from..i], [cs[i]]);
    assert Flat([cs[i]]) == cs[i] + Flat([]);
  }

  // ---- ini_puts on an existing file

  lemma FlatThree(a: seq<string>, line: Option<string>, b: seq<string>)
    ensures Flat(a + Opt(line) + b) == (Flat(a) + if line.Some? then line.value else []) + Flat(b)
  {
    FlatAppend(a + Opt(line), b);
    FlatAppend(a, Opt(line));
    if line.Some? { assert Flat([line.value]) == line.value + Flat([]); }
  }

  /** Behind the last line: a forced break unless the flag says that there is one (minIni.c:562-568, 605-610). */
  method AppendLines(buf: array<char>, w: OutFile, flag: bool, section: string, key: string, value: string)
    requires buf.Length == INI_BUFFERSIZE && IsStr(section) && IsStr(key) && IsStr(value)
    modifies buf, w
    ensures w.text == old(w.text) + (if flag then [] else "\n") +
                      ((if section == [] then [] else SectionLine(section)) + KeyLine(key, value))
  {
    hide KeyLine;
    hide SectionLine;
    ghost var t := w.text;
    if !flag { w.WriteText("\n"); }
    assert w.text == t + (if flag then [] else "\n");
    WriteSection(buf, section, w);
    WriteKey(buf, key, value, w);
  }

  /** The flag at the end of the file is the one the model's forced break looks at. */
  lemma FlagAtEnd(text: string, flag: bool, size: nat, from: nat, junk: bool)
    requires from <= |Pieces(text)| && (from < |Pieces(text)| ==> size > 0)
    requires from == |Pieces(text)| ==> size == 0
    requires size <= |text| && flag == if size == 0 then junk else text[|text| - 1] == '\n'
    ensures Flat(ForcedBreak(Pieces(text), from, junk)) == if flag then [] else "\n"
  {
    hide Pieces;
    var cs := Pieces(text);
    if from < |cs| {
      var front, last := cs[..|cs| - 1], cs[|cs| - 1];
      PiecesAreWellCut(text);
      assert cs == front + [last];
      FlatAppend(front, [last]);
      assert Flat([last]) == last + Flat([]);
      assert last[|last| - 1] == (Flat(front) + last)[|text| - 1];
    }
    assert Flat(["\n"]) == "\n" + Flat([]);
  }

  /** The line the search stopped at: the new one, then the old one if it begins a section (minIni.c:636-661). */
  method WriteAt(buf: array<char>, r: InFile, w: OutFile, start: nat, key: string, value: Option<string>,
                 bracket: bool, ghost i: nat)
    requires buf.Length == INI_BUFFERSIZE && r.At(i) && start == r.pos && i < |Pieces(r.text)|
    requires w.text == Flat(Pieces(r.text)[..i])
    requires IsStr(key) && (value.Some? ==> IsStr(value.value))
    modifies r`pos, w, buf
    ensures var cs := Pieces(r.text);
            w.text == Flat(cs[..i] + Opt(LineFor(key, value)) + cs[if bracket then i else i + 1..])
  {
    hide Pieces, Parse, KeyLine, Off, LineLen;
    ghost var cs := Pieces(r.text);
    FlatThree(cs[..i], LineFor(key, value), cs[if bracket then i else i + 1..]);
    if value.Some? { WriteKey(buf, key, value.value, w); }
    ghost var out := w.text;
    var size, mark := 0, start;
    var ok := ReadLine(r, buf, i);
    NothingCached(r, w, mark, i, out);
    if bracket {
      ok, size := CacheAccum(buf, 0, INI_BUFFERSIZE, cs[i]);
      CacheGrows(r.text, mark, 0, i);
      CacheOne(r, w, mark, size, i, out);
      CopyRest(buf, r, w, size, mark, i, i + 1, out + cs[i]);
      FlatFrom(cs, i, out);
    } else {
      mark := r.pos;
      NothingCached(r, w, mark, i + 1, out);
      CopyRest(buf, r, w, 0, mark, i + 1, i + 1, out);
    }
  }

  /** From the start of the section's lines on (minIni.c:601-661), with a key. */
  method EditSection(buf: array<char>, r: InFile, w: OutFile, start: nat, key: string, value: Option<string>,
                     junk: bool, ghost section: string, ghost a: nat, ghost ls: seq<Line>)
    requires buf.Length == INI_BUFFERSIZE && r.At(a) && start == r.pos && ls == LinesOf(r.text)
    requires w.text == Flat(Pieces(r.text)[..a]) && Start(ls, section) == Some(a)
    requires IsStr(key) && (value.Some? ==> IsStr(value.value))
    modifies r`pos, w, buf
    ensures w.text ==
            Flat(EditKey(Pieces(r.text), section, key, LineFor(key, value), SectionLine(section), junk))
  {
    hide Pieces, Parse, KeyLine, SectionLine, Off, First, Hits, Flat, LineLen;
    ghost var cs := Pieces(r.text);
    ghost var i, j;
    var found, bracket, size, mark, flag;
    found, bracket, size, mark, j, i := SeekKey(buf, r, w, key, start, a, ls);
    flag, mark := CacheFlush(buf, size, r, w, mark, junk, j, i);
    if found {
      WriteAt(buf, r, w, mark, key, value, bracket, i);
    } else {
      EndOfText(r.text, i, mark);
      FlagAtEnd(r.text, flag, size, a, junk);
      if value.Some? {
        AppendLines(buf, w, flag, [], key, value.value);
        AppendedText(cs, ForcedBreak(cs, a, junk), KeyLine(key, value.value));
      }
    }
  }

  lemma NothingCached(r: InFile, w: OutFile, mark: nat, i: nat, out: string)
    requires i <= |Pieces(r.text)| && mark == Off(Pieces(r.text), i) && w.text == out
    ensures Copying(r, w, mark, 0, i, i, out)
  {
    SplitAt(Pieces(r.text), i);
    assert r.text[mark..mark] == [];
  }

  lemma CacheOne(r: InFile, w: OutFile, mark: nat, size: nat, i: nat, out: string)
    requires i < |Pieces(r.text)| && Copying(r, w, mark, 0, i, i, out) && size == |Pieces(r.text)[i]|
    ensures Copying(r, w, mark, size, i, i + 1, out + Pieces(r.text)[i])
  {
    CacheGrows(r.text, mark, 0, i);
    assert r.text[mark..mark] == [];
  }

  lemma FlatFrom(cs: seq<string>, i: nat, out: string)
    requires i < |cs|
    ensures out + Flat(cs[i..]) == (out + cs[i]) + Flat(cs[i + 1..])
  {
    assert cs[i..][1..] == cs[i + 1..];
  }

  lemma EndOfText(text: string, i: nat, mark: nat)
    requires i == |Pieces(text)| && mark == Off(Pieces(text), i)
    ensures mark == |text| && Flat(Pieces(text)[..i]) == text
  {
    assert Pieces(text)[..i] == Pieces(text);
  }

  lemma AppendedText(cs: seq<string>, forced: seq<string>, line: string)
    ensures Flat(cs + forced + [line]) == (Flat(cs) + Flat(forced)) + line
  {
    FlatAppend(cs + forced, [line]);
    FlatAppend(cs, forced);
    assert Flat([line]) == line + Flat([]);
  }

  lemma AppendedTwo(cs: seq<string>, forced: seq<string>, header: string, line: string)
    ensures Flat(cs + forced + [header] + [line]) == (Flat(cs) + Flat(forced)) + (header + line)
  {
    AppendedText(cs + forced, [header], line);
    FlatAppend(cs, forced);
    assert Flat([header]) == header + Flat([]);
  }

  /** Sets or removes a key in an existing file (minIni.c:543-662). */
  method EditFile(text: string, section: string, key: string, value: Option<string>, junk: bool)
    returns (out: string)
    requires IsStr(text) && IsStr(section) && IsStr(key) && (value.Some? ==> IsStr(value.value))
    ensures out == Flat(EditKey(Pieces(text), section, key, LineFor(key, value), SectionLine(section), junk))
  {
    hide Pieces, Parse, KeyLine, SectionLine, Off, First, Hits, Flat, LineLen;
    var r := new InFile(text);
    var w := new OutFile();
    var buf := new char[INI_BUFFERSIZE];
    ghost var cs, ls := Pieces(text), LinesOf(text);
    ghost var i, j := 0, 0;
    var size, mark, flag := 0, 0, true;
    var found := true;
    StartOfFile(text);
    if |section| > 0 {
      found, size, mark, j, i := SeekSection(buf, r, w, section, true, ls);
      flag, mark := CacheFlush(buf, size, r, w, mark, junk, j, if found then i + 1 else i);
      if !found {
        EndOfText(text, i, mark);
        FlagAtEnd(text, flag, size, 0, junk);
        if value.Some? {
          AppendLines(buf, w, flag, section, key, value.value);
          AppendedTwo(cs, ForcedBreak(cs, 0, junk), SectionLine(section), KeyLine(key, value.value));
        }
        return w.text;
      }
      i := i + 1;
    } else {
      flag, mark := CacheFlush(buf, size, r, w, mark, junk, 0, 0);
    }
    EditSection(buf, r, w, mark, key, value, junk, section, i, ls);
    out := w.text;
  }

  lemma StartOfFile(text: string)
    ensures Off(Pieces(text), 0) == 0 && Flat(Pieces(text)[..0]) == []
  {
  }

  /** Removes a section from an existing file (minIni.c:543-662 with `Key == NULL`). */
  method EraseFile(text: string, section: string, junk: bool) returns (out: string)
    requires IsStr(text) && IsStr(section)
    ensures out == Flat(EraseSection(Pieces(text), section))
  {
    hide Pieces, Parse, Off, First, Hits, LineLen, Flat, EraseSection;
    var r := new InFile(text);
    var w := new OutFile();
    var buf := new char[INI_BUFFERSIZE];
    ghost var cs, ls := Pieces(text), LinesOf(text);
    ghost var i, j, e := 0, 0, 0;
    var size, mark, flag := 0, 0, true;
    var found := true;
    StartOfFile(text);
    if |section| > 0 {
      found, size, mark, j, i := SeekSection(buf, r, w, section, false, ls);
    }
    flag, mark := CacheFlush(buf, size, r, w, mark, junk, j, i);
    if !found {
      EndOfText(text, i, mark);
      NothingErased(cs, section);
      return w.text;
    }
    found := ReadLine(r, buf, i);
    mark := r.pos;
    ghost var a := if found then i + 1 else i;
    found, mark, e := SkipSection(buf, r, mark, a, ls);
    ErasedText(cs, section, i, e);
    CopyFrom(buf, r, w, mark, found, junk, e);
    out := w.text;
  }

  lemma ErasedText(cs: seq<string>, section: string, i: nat, e: nat)
    requires i == if section == [] then 0 else First(Lines(cs), 0, AHeader(section))
    requires i < |cs| || section == []
    requires e == First(Lines(cs), if i < |cs| then i + 1 else i, ABracket)
    ensures Flat(EraseSection(cs, section)) == Flat(cs[..i]) + Flat(cs[e..])
  {
    hide Parse, Flat, Hits;
    FlatAppend(cs[..i], cs[e..]);
  }

  lemma NothingErased(cs: seq<string>, section: string)
    requires section != [] && First(Lines(cs), 0, AHeader(section)) == |cs|
    ensures EraseSection(cs, section) == cs
  {
  }

  /** The rest of the file behind a deleted section: from the next bracket line on, if there is one. */
  method CopyFrom(buf: array<char>, r: InFile, w: OutFile, start: nat, found: bool, junk: bool, ghost e: nat)
    requires buf.Length == INI_BUFFERSIZE && r.Valid() && e <= |Pieces(r.text)| && start == Off(Pieces(r.text), e)
    requires found == (e < |Pieces(r.text)|)
    modifies r`pos, w, buf
    ensures w.text == old(w.text) + Flat(Pieces(r.text)[e..])
  {
    hide Pieces, Parse, Off, Flat;
    ghost var cs, out := Pieces(r.text), w.text;
    var flag, mark;
    flag, mark := CacheFlush(buf, 0, r, w, start, junk, e, e);
    assert w.text == out;
    if found {
      var ok := ReadLine(r, buf, e);
      var size;
      NothingCached(r, w, mark, e, out);
      ok, size := CacheAccum(buf, 0, INI_BUFFERSIZE, cs[e]);
      CacheGrows(r.text, mark, 0, e);
      CacheOne(r, w, mark, size, e, out);
      CopyRest(buf, r, w, size, mark, e, e + 1, out + cs[e]);
      FlatFrom(cs, e, out);
    } else {
      NoMoreText(cs, e, out);
    }
  }

  lemma NoMoreText(cs: seq<string>, e: nat, out: string)
    requires e == |cs|
    ensures out + Flat(cs[e..]) == out
  {
  }
}
