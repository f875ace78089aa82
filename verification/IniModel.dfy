/**
 * An INI file as text: how a line is read, which lines are written, and which content `ini_puts` is
 * meant to leave and `ini_gets` is meant to find.
 */
module IniModel {
  import opened Wrappers
  import opened CString
  import opened Chunks
  import opened QuoteCodec
  import opened IniLines
  import opened Decimal

  // ---- reading a line

  // These work on a line from its first character that is not blank on.

  /** It begins with `[`. */
  predicate Bracket(sp: string) { sp != [] && sp[0] == '[' }

  predicate Comment(sp: string) { sp != [] && (sp[0] == ';' || sp[0] == '#') }

  /** The name in a section header, which also needs its closing bracket. */
  function SectionName(sp: string): Option<string> {
    var ep := Index(sp, ']');
    if Bracket(sp) && ep < |sp| then Some(sp[1..ep]) else None
  }

  /** The place of the first `=`, or without any of the first `:`. */
  function AssignAt(sp: string): (ep: nat)
    ensures ep <= |sp| && (ep < |sp| ==> sp[ep] == '=' || sp[ep] == ':')
  {
    if Index(sp, '=') < |sp| then Index(sp, '=') else Index(sp, ':')
  }

  /** The text in front of the assignment sign. */
  function KeyName(sp: string): Option<string> {
    if AssignAt(sp) < |sp| then Some(RTrim(sp[..AssignAt(sp)])) else None
  }

  /** What follows the assignment sign. */
  function RawValue(sp: string): string { if AssignAt(sp) < |sp| then sp[AssignAt(sp) + 1..] else [] }

  function ValueOf(sp: string): string { if AssignAt(sp) < |sp| then Decode(RawValue(sp)) else [] }

  function Parse(c: string): Line {
    var sp := LTrim(c);
    Line(Bracket(sp), SectionName(sp), Comment(sp), KeyName(sp), ValueOf(sp))
  }

  function Lines(cs: seq<string>): seq<Line> { seq(|cs|, i requires 0 <= i < |cs| => Parse(cs[i])) }

  /** The lines of a file as they are read back. */
  function LinesOf(text: string): seq<Line> { Lines(Pieces(text)) }

  // ---- writing a line

  function SectionLine(section: string): string { ['['] + Take(section, INI_BUFFERSIZE - 5) + [']', '\n'] }

  /** The text behind the `=`; the quotes are left out when there is no room for them. */
  function WrittenValue(value: string, room: nat): string
    requires room > 0
  {
    CopyText(value, room, if NeedsQuote(value) then QUOTE_ENQUOTE else QUOTE_NONE)
  }

  /** The line `writekey` writes. */
  function KeyLine(key: string, value: string): string {
    var k := Take(key, INI_BUFFERSIZE - 4);
    k + ['='] + WrittenValue(value, INI_BUFFERSIZE - 3 - |k|) + ['\n']
  }

  // ---- the edit

  /**
   * The line break forced behind the last line.  `from` is the first line that the search loop has
   * copied; if it has copied none, minIni.c:485 compares a character outside the buffer: `junk`.
   */
  function ForcedBreak(cs: seq<string>, from: nat, junk: bool): seq<string> {
    if (if |cs| <= from then junk else EndsLine(cs[|cs| - 1])) then [] else ["\n"]
  }

  /**
   * Sets a key by writing `line`, or removes it when that is None: one line is replaced, inserted,
   * appended or removed.  `header` is written in front of the line if the section is not there.
   */
  function EditKey(cs: seq<string>, section: string, key: string, line: Option<string>, header: string, junk: bool)
    : seq<string>
  {
    match Locate(Lines(cs), section, key)
    case Replace(i) => cs[..i] + Opt(line) + cs[i + 1..]
    case Insert(i) => cs[..i] + Opt(line) + cs[i..]
    case Append(a) => if line.None? then cs else cs + ForcedBreak(cs, a, junk) + [line.value]
    case NewSection => if line.None? then cs else cs + ForcedBreak(cs, 0, junk) + [header] + [line.value]
  }

  /** What `ini_puts` writes for a value. */
  function LineFor(key: string, value: Option<string>): Option<string> {
    if value.None? then None else Some(KeyLine(key, value.value))
  }

  /** Removes a section.  Without a section name the first line goes, whatever it is (minIni.c:592). */
  function EraseSection(cs: seq<string>, section: string): seq<string> {
    cs[..Erased(Lines(cs), section).0] + cs[Erased(Lines(cs), section).1..]
  }

  /** The content `ini_puts` leaves; None is a file that does not exist. */
  function Puts(file: Option<string>, section: string, key: Option<string>, value: Option<string>, junk: bool)
    : Option<string>
  {
    match file
    case None =>
      if key.Some? && value.Some? then
        Some((if section == [] then [] else SectionLine(section)) + KeyLine(key.value, value.value))
      else None
    case Some(text) =>
      var cs := Pieces(text);
      if key.None? then Some(Flat(EraseSection(cs, section)))
      else if value.Some? && Find(Lines(cs), section, key.value) == value then file
      else Some(Flat(EditKey(cs, section, key.value, LineFor(key.value, value), SectionLine(section), junk)))
  }

  /** What a file says about a key. */
  function Lookup(file: Option<string>, section: string, key: string): Option<string> {
    if file.None? then None else Find(LinesOf(file.value), section, key)
  }

  /** The string `ini_gets` copies out. */
  function Gets(file: Option<string>, section: string, key: string, default: string, size: nat): string
    requires size > 0
  {
    match Lookup(file, section, key)
    case Some(v) => Take(v, size - 1)
    case None => Take(default, size - 1)
  }

  /** The number `ini_getl` returns. */
  function Getl(file: Option<string>, section: string, key: string, default: int): int {
    var t := Gets(file, section, key, [], 64);
    if t == [] then default else StrToL(t)
  }

  // ---- enumeration

  /** The section names in order. */
  function Sections(ls: seq<Line>): seq<string> {
    if ls == [] then [] else Opt(ls[0].section) + Sections(ls[1..])
  }

  /** The keys of a section in order: those of the lines up to the next bracket line. */
  function Keys(ls: seq<Line>): seq<string> {
    if ls == [] || ls[0].bracket then []
    else (if ls[0].comment then [] else Opt(ls[0].key)) + Keys(ls[1..])
  }

  /** The names before the first empty one. */
  function BeforeEmpty(names: seq<string>): seq<string> {
    if names == [] || names[0] == [] then [] else [names[0]] + BeforeEmpty(names[1..])
  }
}
