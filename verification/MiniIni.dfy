/** The functions minIni.h offers, on a file that may or may not exist. */
module MiniIni {
  import opened Wrappers
  import opened CString
  import opened Chunks
  import opened QuoteCodec
  import opened IniLines
  import opened IniModel
  import opened IniFiles
  import opened MiniIniRead
  import opened MiniIniWrite
  import opened Decimal

  /** A file on disk. */
  class IniFile {
    var content: Option<string>

    ghost predicate Valid()
      reads this
    {
      content.Some? ==> IsStr(content.value)
    }

    constructor (content: Option<string>)
      ensures this.content == content
    {
      this.content := content;
    }
  }

  /** minIni.c `ini_gets`; its result is the length of the string it leaves in `buffer`. */
  method IniGets(file: IniFile, section: string, key: Option<string>, default: string, buffer: array?<char>, size: int)
    returns (n: nat)
    requires file.Valid() && IsStr(default) && (buffer != null ==> size <= buffer.Length)
    modifies buffer
    ensures buffer == null || size <= 0 || key.None? ==> n == 0 && Untouched(buffer, old(Chars(buffer)))
    ensures buffer != null && size > 0 && key.Some? ==>
              var text := Gets(file.content, section, key.value, default, size);
              StrAt(buffer, 0, text) && n == |text|
    // the value that is found, or else the default, cut to what the buffer holds
    ensures buffer != null && size > 0 && key.Some? ==>
              var missing := file.content.None? || Find(LinesOf(file.content.value), section, key.value).None?;
              var text := if missing then default else Find(LinesOf(file.content.value), section, key.value).value;
              if |text| < size then StrAt(buffer, 0, text) && n == |text|
              else StrAt(buffer, 0, text[..size - 1]) && n == size - 1
  {
    if buffer == null || size <= 0 || key.None? { return 0; }
    var ok := false;
    if file.content.Some? {
      var r := new InFile(file.content.value);
      StartOfFile(file.content.value);
      ok := GetKeyString(r, section, key, -1, -1, buffer, size);
    }
    if !ok { SaveStrncpy(buffer, 0, default, size, QUOTE_NONE); }
    n := StrLen(buffer, 0, Gets(file.content, section, key.value, default, size));
  }

  ghost function Chars(buffer: array?<char>): string
    reads buffer
  {
    if buffer == null then [] else buffer[..]
  }

  ghost predicate Untouched(buffer: array?<char>, before: string)
    reads buffer
  {
    Chars(buffer) == before
  }

  /** minIni.c `ini_getsection`: the name of the section with number `idx`. */
  method IniGetSection(file: IniFile, idx: int, buffer: array?<char>, size: int) returns (n: nat)
    requires file.Valid() && (buffer != null ==> size <= buffer.Length)
    modifies buffer
    ensures buffer == null || size <= 0 || idx < 0 ==> n == 0 && Untouched(buffer, old(Chars(buffer)))
    ensures buffer != null && size > 0 && idx >= 0 ==>
              var names := if file.content.None? then [] else BeforeEmpty(Sections(LinesOf(file.content.value)));
              var name := if idx < |names| then Take(names[idx], size - 1) else [];
              StrAt(buffer, 0, name) && n == |name|
  {
    if buffer == null || size <= 0 || idx < 0 { return 0; }
    var ok := false;
    ghost var name := [];
    if file.content.Some? {
      var r := new InFile(file.content.value);
      StartOfFile(file.content.value);
      ok := GetKeyString(r, [], None, idx, -1, buffer, size);
      if ok { name := Take(BeforeEmpty(Sections(LinesOf(file.content.value)))[idx], size - 1); }
    }
    if !ok { buffer[0] := NUL; }
    n := StrLen(buffer, 0, name);
  }

  /** minIni.c `ini_getkey`: the name of the key with number `idx` in a section. */
  method IniGetKey(file: IniFile, section: string, idx: int, buffer: array?<char>, size: int) returns (n: nat)
    requires file.Valid() && (buffer != null ==> size <= buffer.Length)
    modifies buffer
    ensures buffer == null || size <= 0 || idx < 0 ==> n == 0 && Untouched(buffer, old(Chars(buffer)))
    ensures buffer != null && size > 0 && idx >= 0 ==>
              var ls := if file.content.None? then [] else LinesOf(file.content.value);
              var there := Start(ls, section);
              var names := if there.None? then [] else BeforeEmpty(Keys(ls[there.value..]));
              var name := if idx < |names| then Take(names[idx], size - 1) else [];
              StrAt(buffer, 0, name) && n == |name|
  {
    if buffer == null || size <= 0 || idx < 0 { return 0; }
    var ok := false;
    ghost var name := [];
    if file.content.Some? {
      var r := new InFile(file.content.value);
      StartOfFile(file.content.value);
      ok := GetKeyString(r, section, None, -1, idx, buffer, size);
      if ok { name := Take(KeyString(LinesOf(file.content.value), section, None, -1, idx).value, size - 1); }
    }
    if !ok { buffer[0] := NUL; }
    n := StrLen(buffer, 0, name);
  }

  /**
   * minIni.c `ini_puts`.  Whatever the file, the names and the values are, it leaves exactly the content
   * that the edit of the list of lines describes.
   */
  method IniPuts(file: IniFile, section: string, key: Option<string>, value: Option<string>, junk: bool)
    returns (ok: bool)
    requires file.Valid() && IsStr(section) && (key.Some? ==> IsStr(key.value)) && (value.Some? ==> IsStr(value.value))
    modifies file
    ensures ok && file.content == Puts(old(file.content), section, key, value, junk)
    // what is already there is not written again, and without a file nothing is deleted
    ensures old(file.content).Some? && key.Some? && value.Some? ==>
              Find(LinesOf(old(file.content).value), section, key.value) == value ==>
                file.content == old(file.content)
    ensures old(file.content).None? && (key.None? || value.None?) ==> file.content == None
  {
    ok := true;
    if file.content.None? {
      if key.Some? && value.Some? {
        var text := NewFile(section, key.value, value.value);
        file.content := Some(text);
      }
      return;
    }
    var text := file.content.value;
    if key.None? {
      var out := EraseFile(text, section, junk);
      file.content := Some(out);
      return;
    }
    if value.Some? {
      var same := HasValue(text, section, key.value, value.value);
      if same { return; }
    }
    var out := EditFile(text, section, key.value, value, junk);
    file.content := Some(out);
  }

  /** A file that does not exist yet (minIni.c:516-526). */
  method NewFile(section: string, key: string, value: string) returns (text: string)
    requires IsStr(section) && IsStr(key) && IsStr(value)
    ensures text == (if section == [] then [] else SectionLine(section)) + KeyLine(key, value)
  {
    hide SectionLine, KeyLine;
    var w := new OutFile();
    var buf := new char[INI_BUFFERSIZE];
    WriteSection(buf, section, w);
    WriteKey(buf, key, value, w);
    text := w.text;
  }

  /** The early bail-out (minIni.c:532-538). */
  method HasValue(text: string, section: string, key: string, value: string) returns (same: bool)
    requires IsStr(text) && IsStr(value)
    ensures same == (Find(LinesOf(text), section, key) == Some(value))
  {
    var r := new InFile(text);
    var buf := new char[INI_BUFFERSIZE];
    StartOfFile(text);
    var ok := GetKeyString(r, section, Some(key), -1, -1, buf, INI_BUFFERSIZE);
    same := false;
    if ok {
      ghost var v := Find(LinesOf(text), section, key).value;
      FoundIsShort(text, section, key);
      var n := StrLen(buf, 0, v);
      same := buf[..n] == value;
    }
  }

  /** A value is shorter than the line it stands in, so the line buffer holds all of it. */
  lemma FoundIsShort(text: string, section: string, key: string)
    requires Find(LinesOf(text), section, key).Some?
    ensures |Find(LinesOf(text), section, key).value| < MAX_PIECE
  {
    var ls := LinesOf(text);
    var i := First(ls, Start(ls, section).value, AnEntry(key));
    PiecesAreWellCut(text);
    ValueIsShort(Pieces(text)[i]);
  }

  lemma ValueIsShort(c: string)
    requires c != []
    ensures |Parse(c).value| < |c|
  {
    DecodeIsShort(RawValue(LTrim(c)));
  }

  lemma DecodeIsShort(raw: string)
    ensures |Decode(raw)| <= |raw|
  {
  }

  // ---- integers

  /** minIni.c `ini_putl` */
  method IniPutl(file: IniFile, section: string, key: Option<string>, value: int, junk: bool) returns (ok: bool)
    requires file.Valid() && IsStr(section) && (key.Some? ==> IsStr(key.value)) && IsLong(value)
    modifies file
    ensures ok && file.content == Puts(old(file.content), section, key, Some(Text(value)), junk)
  {
    var localBuffer := new char[32];
    Long2Str(value, localBuffer);
    var n := StrLen(localBuffer, 0, Text(value));
    ok := IniPuts(file, section, key, Some(localBuffer[..n]), junk);
  }

  /** minIni.c `ini_getl` */
  method IniGetl(file: IniFile, section: string, key: Option<string>, default: int) returns (value: int)
    requires file.Valid() && IsLong(default)
    ensures value == if key.None? then default else Getl(file.content, section, key.value, default)
    // the default for a missing or empty entry, else the number at the start of what the buffer of 64 holds of it
    ensures key.None? || file.content.None? || Find(LinesOf(file.content.value), section, key.value).None? ==>
              value == default
    ensures key.Some? && file.content.Some? && Find(LinesOf(file.content.value), section, key.value).Some? ==>
              var text := Find(LinesOf(file.content.value), section, key.value).value;
              value == if text == [] then default else StrToL(if |text| < 64 then text else text[..63])
  {
    var localBuffer := new char[64];
    var len := IniGets(file, section, key, [], localBuffer, 64);
    value := if len == 0 then default else StrToL(localBuffer[..len]);
  }
}
