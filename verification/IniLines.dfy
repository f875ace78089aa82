/**
 * An INI file as a list of lines of which only the meaning is left, and what a lookup finds in it.
 * The lemmas say how searches and lookups behave when lists are put together from parts.
 */
module IniLines {
  import opened Wrappers
  import opened CString

  /**
   * What one line says.  `bracket`: it begins with `[` and so ends a section's area; `section`: it is
   * a complete header of that name; `comment`: it begins with `;` or `#`; `key`: the text in front of
   * its assignment sign; `value`: what is read behind that sign.
   */
  datatype Line = Line(bracket: bool, section: Option<string>, comment: bool, key: Option<string>, value: string)

  predicate HeaderOf(l: Line, section: string) {
    l.bracket && l.section.Some? && EqFold(l.section.value, section)
  }

  /** `ini_puts` takes this line for the entry `key`. */
  predicate Assigns(l: Line, key: string) { l.key.Some? && EqFold(l.key.value, key) }

  /** `getkeystring` takes this line for the entry `key`. */
  predicate Entry(l: Line, key: string) { !l.comment && Assigns(l, key) }

  /** What a search loop is looking for. */
  datatype Mark =
    | AHeader(section: string)  // the header of a section
    | AnEntry(key: string)      // getkeystring: the entry or the end of the section's area
    | AnAssign(key: string)     // ini_puts: the same, but it does not look for comments
    | ABracket                  // the end of the section's area

  predicate Hits(l: Line, m: Mark) {
    match m
    case AHeader(section) => HeaderOf(l, section)
    case AnEntry(key) => l.bracket || Entry(l, key)
    case AnAssign(key) => l.bracket || Assigns(l, key)
    case ABracket => l.bracket
  }

  /** The first line from `from` on that the mark hits, or the length of the list. */
  function First(ls: seq<Line>, from: nat, m: Mark): (i: nat)
    requires from <= |ls|
    ensures from <= i <= |ls| && (i < |ls| ==> Hits(ls[i], m))
    decreases |ls| - from
  {
    if from == |ls| || Hits(ls[from], m) then from else First(ls, from + 1, m)
  }

  /** Where a section's lines start.  The lines in front of all sections have the empty name. */
  function Start(ls: seq<Line>, section: string): (a: Option<nat>)
    ensures a.Some? ==> a.value <= |ls|
  {
    if section == [] then Some(0) else
      var h := First(ls, 0, AHeader(section));
      if h < |ls| then Some(h + 1) else None
  }

  /** The value a list of lines gives to a key, from a given line up to the next bracket line. */
  function FindFrom(ls: seq<Line>, from: nat, key: string): Option<string>
    requires from <= |ls|
  {
    var i := First(ls, from, AnEntry(key));
    if i < |ls| && !ls[i].bracket then Some(ls[i].value) else None
  }

  /** The value a list of lines gives to a key of a section. */
  function Find(ls: seq<Line>, section: string, key: string): Option<string> {
    match Start(ls, section)
    case None => None
    case Some(a) => FindFrom(ls, a, key)
  }

  datatype Place =
    | Replace(i: nat)      // line i assigns the key
    | Insert(i: nat)       // line i is the bracket line behind the section
    | Append(start: nat)   // the section, whose lines begin at `start`, runs to the end of the file
    | NewSection

  /** Where `ini_puts` makes its change. */
  function Locate(ls: seq<Line>, section: string, key: string): (p: Place)
    ensures p.Replace? || p.Insert? ==> p.i < |ls|
  {
    match Start(ls, section)
    case None => NewSection
    case Some(a) =>
      var i := First(ls, a, AnAssign(key));
      if i == |ls| then Append(a) else if ls[i].bracket then Insert(i) else Replace(i)
  }

  // ---- searches in lists put together from parts

  lemma {:induction false} FirstShift(a: seq<Line>, b: seq<Line>, from: nat, m: Mark)
    requires from <= |b|
    ensures First(a + b, |a| + from, m) == |a| + First(b, from, m)
    decreases |b| - from
  {
    if from < |b| && !Hits(b[from], m) { FirstShift(a, b, from + 1, m); }
  }

  lemma {:induction false} FirstAppend(a: seq<Line>, b: seq<Line>, from: nat, m: Mark)
    requires from <= |a|
    ensures First(a + b, from, m) == if First(a, from, m) < |a| then First(a, from, m) else |a| + First(b, 0, m)
    decreases |a| - from
  {
    if from == |a| {
      FirstShift(a, b, 0, m);
    } else if !Hits(a[from], m) {
      FirstAppend(a, b, from + 1, m);
    }
  }

  /** Nothing before the first hit is one. */
  lemma {:induction false} NoneBefore(ls: seq<Line>, from: nat, m: Mark, i: nat)
    requires from <= i < |ls| && i < First(ls, from, m)
    ensures !Hits(ls[i], m)
    decreases i - from
  {
    if from < i { NoneBefore(ls, from + 1, m, i); }
  }

  /** A hit bounds the search. */
  lemma {:induction false} NotAfter(ls: seq<Line>, from: nat, m: Mark, i: nat)
    requires from <= i < |ls| && Hits(ls[i], m)
    ensures First(ls, from, m) <= i
    decreases i - from
  {
    if !Hits(ls[from], m) { NotAfter(ls, from + 1, m, i); }
  }

  /** Of the searches inside a section the one for bracket lines goes furthest. */
  lemma {:induction false} SearchOrder(ls: seq<Line>, from: nat, key: string)
    requires from <= |ls|
    ensures First(ls, from, AnAssign(key)) <= First(ls, from, AnEntry(key)) <= First(ls, from, ABracket)
    decreases |ls| - from
  {
    if from == |ls| {
    } else {
      SearchOrder(ls, from + 1, key);
    }
  }

  /** No search looks at the case of a name. */
  lemma {:induction false} FirstIgnoresCase(ls: seq<Line>, from: nat, name: string, name': string)
    requires from <= |ls| && EqFold(name, name')
    ensures First(ls, from, AHeader(name)) == First(ls, from, AHeader(name'))
    ensures First(ls, from, AnEntry(name)) == First(ls, from, AnEntry(name'))
    decreases |ls| - from
  {
    if from == |ls| {
    } else {
      FirstIgnoresCase(ls, from + 1, name, name');
    }
  }

  lemma StartIgnoresCase(ls: seq<Line>, section: string, section': string)
    requires EqFold(section, section')
    ensures Start(ls, section) == Start(ls, section')
  {
    FirstIgnoresCase(ls, 0, section, section');
    assert |section| == |Lower(section)| == |section'|;
  }

  /** A search that ends inside the list passes all of the list before that place. */
  lemma FirstTake(ls: seq<Line>, from: nat, m: Mark, i: nat)
    requires from <= i <= |ls| && i <= First(ls, from, m)
    ensures First(ls[..i], from, m) == i
  {
    assert ls == ls[..i] + ls[i..];
    FirstAppend(ls[..i], ls[i..], from, m);
  }

  lemma StartAppend(a: seq<Line>, b: seq<Line>, section: string)
    ensures Start(a, section).Some? ==> Start(a + b, section) == Start(a, section)
    ensures Start(a, section).None? ==>
              Start(a + b, section) ==
              if Start(b, section).Some? then Some(|a| + Start(b, section).value) else None
  {
    FirstAppend(a, b, 0, AHeader(section));
  }

  lemma FindFromAppend(a: seq<Line>, b: seq<Line>, from: nat, key: string)
    requires from <= |a|
    ensures FindFrom(a + b, from, key) ==
            if First(a, from, AnEntry(key)) < |a| then FindFrom(a, from, key) else FindFrom(b, 0, key)
  {
    FirstAppend(a, b, from, AnEntry(key));
  }

  lemma FindFromShift(a: seq<Line>, b: seq<Line>, from: nat, key: string)
    requires from <= |b|
    ensures FindFrom(a + b, |a| + from, key) == FindFrom(b, from, key)
  {
    FirstShift(a, b, from, AnEntry(key));
  }

  /** A lookup in two parts: the section begins in the second ... */
  lemma FindInSecond(a: seq<Line>, b: seq<Line>, section: string, key: string)
    requires Start(a, section).None?
    ensures Find(a + b, section, key) == Find(b, section, key)
  {
    StartAppend(a, b, section);
    if Start(b, section).Some? {
      FindFromShift(a, b, Start(b, section).value, key);
    }
  }

  /** ... or in the first. */
  lemma FindInFirst(a: seq<Line>, b: seq<Line>, section: string, key: string)
    requires Start(a, section).Some?
    ensures Find(a + b, section, key) ==
            if First(a, Start(a, section).value, AnEntry(key)) < |a| then Find(a, section, key)
            else FindFrom(b, 0, key)
  {
    StartAppend(a, b, section);
    FindFromAppend(a, b, Start(a, section).value, key);
  }

  lemma FindAppend(a: seq<Line>, b: seq<Line>, section: string, key: string)
    ensures Start(a, section).None? ==> Find(a + b, section, key) == Find(b, section, key)
    ensures Start(a, section).Some? ==>
              Find(a + b, section, key) ==
              if First(a, Start(a, section).value, AnEntry(key)) < |a| then Find(a, section, key)
              else FindFrom(b, 0, key)
  {
    if Start(a, section).None? { FindInSecond(a, b, section, key); } else { FindInFirst(a, b, section, key); }
  }

  lemma FirstOfCons(x: Line, b: seq<Line>, m: Mark)
    ensures First([x] + b, 0, m) == if Hits(x, m) then 0 else 1 + First(b, 0, m)
  {
    FirstShift([x], b, 0, m);
  }

  /** A line in front that is no bracket line. */
  lemma FindCons(x: Line, b: seq<Line>, section: string, key: string)
    requires !x.bracket
    ensures section != [] || !Entry(x, key) ==> Find([x] + b, section, key) == Find(b, section, key)
    ensures !Entry(x, key) ==> FindFrom([x] + b, 0, key) == FindFrom(b, 0, key)
    ensures Entry(x, key) ==> FindFrom([x] + b, 0, key) == Some(x.value)
  {
    FirstOfCons(x, b, AHeader(section));
    FirstOfCons(x, b, AnEntry(key));
    if Start(b, section).Some? { FirstShift([x], b, Start(b, section).value, AnEntry(key)); }
  }

  // ---- what one line more or less does to the other lookups

  /** A line that is no bracket line and no entry for the key does not matter to the lookup. */
  lemma Unseen(a: seq<Line>, x: Line, b: seq<Line>, section: string, key: string)
    requires !x.bracket && !Entry(x, key)
    ensures Find(a + [x] + b, section, key) == Find(a + b, section, key)
  {
    assert a + [x] + b == a + ([x] + b);
    FindAppend(a, [x] + b, section, key);
    FindAppend(a, b, section, key);
    FindCons(x, b, section, key);
  }

  /**
   * Lookups in other sections never come past the part of a section's area that `a` ends with:
   * they stop before it, or start behind it.
   */
  lemma OthersStayOut(a: seq<Line>, section: string, other: string, key: string)
    requires Start(a, section).Some? && First(a, Start(a, section).value, ABracket) == |a|
    requires !EqFold(section, other)
    ensures Start(a, other).Some? ==> First(a, Start(a, other).value, AnEntry(key)) < |a|
    ensures Start(a, other).None? ==> other != []
  {
    if Start(a, other).Some? { StopsOutside(a, Start(a, section).value, section, other, key); }
  }

  lemma StopsOutside(a: seq<Line>, from: nat, section: string, other: string, key: string)
    requires Start(a, section) == Some(from) && First(a, from, ABracket) == |a|
    requires !EqFold(section, other) && Start(a, other).Some?
    ensures First(a, Start(a, other).value, AnEntry(key)) < |a|
  {
    var start := Start(a, other).value;
    StartIsBehindHeader(a, section);
    StartIsBehindHeader(a, other);
    if start == from { StartsDiffer(a, section, other); }
    hide First, Start, HeaderOf, EqFold;
    if start > from {
      NoneBefore(a, from, ABracket, start - 1);
      assert false;
    }
    NotAfter(a, start, AnEntry(key), from - 1);
  }

  /** In front of a section's lines is its header, in front of the nameless section nothing. */
  lemma StartIsBehindHeader(a: seq<Line>, section: string)
    requires Start(a, section).Some?
    ensures var from := Start(a, section).value;
            from <= |a| && if from == 0 then section == [] else HeaderOf(a[from - 1], section) && a[from - 1].bracket
  {
  }

  lemma StartsDiffer(a: seq<Line>, section: string, other: string)
    requires Start(a, section).Some? && Start(a, section) == Start(a, other)
    ensures EqFold(section, other)
  {
    hide First, Lower;
    StartIsBehindHeader(a, section);
    StartIsBehindHeader(a, other);
  }

  /** A line added to, or removed from, a section's area is not seen from other sections. */
  lemma UnseenElsewhere(a: seq<Line>, x: Line, b: seq<Line>, section: string, other: string, key: string)
    requires Start(a, section).Some? && First(a, Start(a, section).value, ABracket) == |a|
    requires !EqFold(section, other) && !x.bracket
    ensures Find(a + [x] + b, other, key) == Find(a + b, other, key)
  {
    OthersStayOut(a, section, other, key);
    assert a + [x] + b == a + ([x] + b);
    FindAppend(a, [x] + b, other, key);
    FindAppend(a, b, other, key);
    if Start(a, other).None? { FindCons(x, b, other, key); }
  }

  /** The lookup that the line is for. */
  lemma Seen(a: seq<Line>, x: Line, b: seq<Line>, section: string, key: string)
    requires Start(a, section).Some? && First(a, Start(a, section).value, AnEntry(key)) == |a|
    requires !x.bracket && Entry(x, key)
    ensures Find(a + [x] + b, section, key) == Some(x.value)
  {
    assert a + [x] + b == a + ([x] + b);
    FindAppend(a, [x] + b, section, key);
    FindCons(x, b, section, key);
  }

  // ---- the edit

  const BLANK := Line(false, None, false, None, [])

  function Opt<T>(x: Option<T>): seq<T> { if x.Some? then [x.value] else [] }

  /** `entry` says what is put in place of the key's line, `header` and `blank` what may come with it. */
  function EditLines(ls: seq<Line>, section: string, key: string, entry: Option<Line>, header: Line, blank: bool)
    : seq<Line>
  {
    match Locate(ls, section, key)
    case Replace(i) => ls[..i] + Opt(entry) + ls[i + 1..]
    case Insert(i) => ls[..i] + Opt(entry) + ls[i..]
    case Append(a) =>
      if entry.None? then ls else ls + (if blank then [BLANK] else []) + [entry.value]
    case NewSection =>
      if entry.None? then ls else ls + (if blank then [BLANK] else []) + [header] + [entry.value]
  }

  predicate HeaderLine(l: Line, section: string) { l.bracket && l.section == Some(section) }

  predicate EntryLine(l: Line, key: string) { !l.bracket && !l.comment && l.key == Some(key) }

  /** The part of the list in front of the changed line ends inside the section's area. */
  lemma PrefixOfPlace(ls: seq<Line>, section: string, key: string, i: nat)
    requires i < |ls| && (Locate(ls, section, key) == Replace(i) || Locate(ls, section, key) == Insert(i))
    ensures Start(ls[..i], section) == Start(ls, section) && Start(ls, section).Some?
    ensures First(ls[..i], Start(ls, section).value, ABracket) == i
    ensures First(ls[..i], Start(ls, section).value, AnEntry(key)) == i
  {
    var a := Start(ls, section).value;
    SearchOrder(ls, a, key);
    FirstTake(ls, a, ABracket, i);
    FirstTake(ls, a, AnEntry(key), i);
    StartOfPrefix(ls, section, i);
  }

  /** The start of a section is the same in every part of the list that reaches up to it. */
  lemma StartOfPrefix(ls: seq<Line>, section: string, i: nat)
    requires Start(ls, section).Some? && Start(ls, section).value <= i <= |ls|
    ensures Start(ls[..i], section) == Start(ls, section)
  {
    assert ls == ls[..i] + ls[i..];
    FirstAppend(ls[..i], ls[i..], 0, AHeader(section));
  }

  lemma FindBlank(ls: seq<Line>, blank: bool, tail: seq<Line>, section: string, key: string)
    ensures Find(ls + (if blank then [BLANK] else []) + tail, section, key) == Find(ls + tail, section, key)
  {
    if blank { Unseen(ls, BLANK, tail, section, key); } else { assert ls + [] == ls; }
  }

  /** The entry that was put is the one that is found. */
  lemma PutIsFound(ls: seq<Line>, section: string, key: string, entry: Line, header: Line, blank: bool)
    requires EntryLine(entry, key) && HeaderLine(header, section)
    ensures Find(EditLines(ls, section, key, Some(entry), header, blank), section, key) == Some(entry.value)
  {
    match Locate(ls, section, key)
    case Replace(i) =>
      PrefixOfPlace(ls, section, key, i);
      Seen(ls[..i], entry, ls[i + 1..], section, key);
    case Insert(i) =>
      PrefixOfPlace(ls, section, key, i);
      Seen(ls[..i], entry, ls[i..], section, key);
    case Append(a) =>
      FindBlank(ls, blank, [entry], section, key);
      SearchOrder(ls, a, key);
      Seen(ls, entry, [], section, key);
      assert ls + [entry] + [] == ls + [entry];
    case NewSection =>
      var tail := [header] + [entry];
      FindBlank(ls, blank, tail, section, key);
      assert ls + (if blank then [BLANK] else []) + [header] + [entry]
          == ls + (if blank then [BLANK] else []) + tail;
      FindAppend(ls, tail, section, key);
      FindNewSection(header, entry, section, key);
  }

  lemma FindNewSection(header: Line, entry: Line, section: string, key: string)
    requires section != [] && HeaderLine(header, section) && !entry.bracket
    ensures Find([header] + [entry], section, key) == if Entry(entry, key) then Some(entry.value) else None
  {
    assert Start([header], section) == Some(1);
    FindAppend([header], [entry], section, key);
    assert First([entry], 1, AnEntry(key)) == 1;
  }

  /** No lookup for another key or in another section notices the edit. */
  lemma EditKeepsOthers(ls: seq<Line>, section: string, key: string, entry: Option<Line>, header: Line, blank: bool,
                        section': string, key': string)
    requires entry.Some? ==> EntryLine(entry.value, key)
    requires HeaderLine(header, section)
    requires !EqFold(section, section') || !EqFold(key, key')
    ensures Find(EditLines(ls, section, key, entry, header, blank), section', key') == Find(ls, section', key')
  {
    match Locate(ls, section, key)
    case Replace(i) =>
      PrefixOfPlace(ls, section, key, i);
      LineKeepsOthers(ls[..i], ls[i], ls[i + 1..], section, key, section', key');
      assert ls == ls[..i] + [ls[i]] + ls[i + 1..];
      if entry.Some? { LineKeepsOthers(ls[..i], entry.value, ls[i + 1..], section, key, section', key'); }
      assert ls[..i] + [] == ls[..i];
    case Insert(i) =>
      PrefixOfPlace(ls, section, key, i);
      assert ls == ls[..i] + ls[i..];
      if entry.Some? { LineKeepsOthers(ls[..i], entry.value, ls[i..], section, key, section', key'); }
      assert ls[..i] + [] == ls[..i];
    case Append(a) =>
      if entry.Some? {
        FindBlank(ls, blank, [entry.value], section', key');
        SearchOrder(ls, a, key);
        AppendKeepsOthers(ls, entry.value, section, key, section', key');
      }
    case NewSection =>
      if entry.Some? {
        var tail := [header] + [entry.value];
        FindBlank(ls, blank, tail, section', key');
        assert ls + (if blank then [BLANK] else []) + [header] + [entry.value]
            == ls + (if blank then [BLANK] else []) + tail;
        NewSectionKeepsOthers(ls, header, entry.value, section, key, section', key');
      }
  }

  lemma LineKeepsOthers(a: seq<Line>, x: Line, b: seq<Line>, section: string, key: string, section': string,
                        key': string)
    requires Start(a, section).Some? && First(a, Start(a, section).value, ABracket) == |a|
    requires !x.bracket && Assigns(x, key)
    requires !EqFold(section, section') || !EqFold(key, key')
    ensures Find(a + [x] + b, section', key') == Find(a + b, section', key')
  {
    if EqFold(section, section') {
      Unseen(a, x, b, section', key');
    } else {
      UnseenElsewhere(a, x, b, section, section', key');
    }
  }

  lemma AppendKeepsOthers(ls: seq<Line>, x: Line, section: string, key: string, section': string, key': string)
    requires Start(ls, section).Some? && First(ls, Start(ls, section).value, AnAssign(key)) == |ls|
    requires !x.bracket && Assigns(x, key)
    requires !EqFold(section, section') || !EqFold(key, key')
    ensures Find(ls + [x], section', key') == Find(ls, section', key')
  {
    SearchOrder(ls, Start(ls, section).value, key);
    LineKeepsOthers(ls, x, [], section, key, section', key');
    assert ls + [x] + [] == ls + [x] && ls + [] == ls;
  }

  lemma NewSectionKeepsOthers(ls: seq<Line>, header: Line, x: Line, section: string, key: string,
                              section': string, key': string)
    requires Start(ls, section).None? && HeaderLine(header, section) && EntryLine(x, key)
    requires !EqFold(section, section') || !EqFold(key, key')
    ensures Find(ls + ([header] + [x]), section', key') == Find(ls, section', key')
  {
    var tail := [header] + [x];
    FindAppend(ls, tail, section', key');
    FirstOfCons(header, [x], AnEntry(key'));
    if Start(ls, section').None? {
      if EqFold(section, section') {
        FindNewSection(header.(section := Some(section')), x, section', key');
        FirstOfCons(header, [x], AHeader(section'));
        FirstShift([header], [x], 0, AnEntry(key'));
      } else {
        FirstOfCons(header, [x], AHeader(section'));
        assert First([x], 0, AHeader(section')) == 1 by { assert First([x], 1, AHeader(section')) == 1; }
      }
    }
  }

  /** What is found once a key's line has been removed: what the rest of the section says. */
  lemma RemovedKey(ls: seq<Line>, section: string, key: string, header: Line, blank: bool)
    ensures Find(EditLines(ls, section, key, None, header, blank), section, key) ==
            match Locate(ls, section, key)
            case Replace(i) => FindFrom(ls, i + 1, key)
            case _ => None
  {
    var place := Locate(ls, section, key);
    if place.Replace? {
      RemovedLine(ls, section, key, place.i);
    } else if !place.NewSection? {
      SearchOrder(ls, Start(ls, section).value, key);
      if place.Insert? {
        assert ls[..place.i] + [] + ls[place.i..] == ls;
        NotAfter(ls, Start(ls, section).value, AnEntry(key), place.i);
      }
    }
  }

  lemma RemovedLine(ls: seq<Line>, section: string, key: string, i: nat)
    requires Locate(ls, section, key) == Replace(i) && i < |ls|
    ensures Find(ls[..i] + [] + ls[i + 1..], section, key) == FindFrom(ls, i + 1, key)
  {
    hide First, Locate, Start, FindFrom;
    var front, rest := ls[..i], ls[i + 1..];
    PrefixOfPlace(ls, section, key, i);
    assert front + [] + rest == front + rest;
    FindInFirst(front, rest, section, key);
    assert ls == ls[..i + 1] + rest;
    FindFromShift(ls[..i + 1], rest, 0, key);
  }

  /** A section with its header and all lines up to the next bracket line taken out. */
  function WithoutSection(ls: seq<Line>, section: string): seq<Line> {
    match Start(ls, section)
    case None => ls
    case Some(a) => ls[..if section == [] then 0 else a - 1] + ls[First(ls, a, ABracket)..]
  }

  /**
   * The lines from `r.0` up to `r.1` that `ini_puts` takes out instead: without a section name the
   * first line goes, whatever it is.
   */
  function Erased(ls: seq<Line>, section: string): (r: (nat, nat))
    ensures r.0 <= r.1 <= |ls| && (r.0 == r.1 ==> r == (0, 0))
  {
    var h := if section == [] then 0 else First(ls, 0, AHeader(section));
    if h < |ls| then (h, First(ls, h + 1, ABracket)) else (0, 0)
  }

  function EraseLines(ls: seq<Line>, section: string): seq<Line> {
    ls[..Erased(ls, section).0] + ls[Erased(ls, section).1..]
  }

  /** The two agree except when there is no name and the file begins with a section. */
  lemma EraseIsExact(ls: seq<Line>, section: string)
    ensures EraseLines(ls, section) == WithoutSection(ls, section) <==>
            section != [] || ls == [] || !ls[0].bracket
  {
    if section == [] && ls != [] && ls[0].bracket {
      assert |EraseLines(ls, section)| < |ls|;
      assert WithoutSection(ls, section) == ls;
    }
  }

  lemma NoBracketNoHeader(ls: seq<Line>, section: string)
    requires First(ls, 0, ABracket) == |ls|
    ensures First(ls, 0, AHeader(section)) == |ls|
  {
    var i := First(ls, 0, AHeader(section));
    if i < |ls| { NotAfter(ls, 0, ABracket, i); }
  }

  /** The lines around a named section. */
  lemma SectionParts(ls: seq<Line>, section: string)
    returns (front: seq<Line>, header: Line, lines: seq<Line>, rest: seq<Line>)
    requires section != [] && Start(ls, section).Some?
    ensures ls == front + ([header] + lines + rest) && EraseLines(ls, section) == front + rest
    ensures HeaderOf(header, section) && Start(front, section).None?
    ensures First(lines, 0, ABracket) == |lines| && (rest == [] || rest[0].bracket)
    ensures rest == ls[First(ls, Start(ls, section).value, ABracket)..]
  {
    var a := Start(ls, section).value;
    var e := First(ls, a, ABracket);
    front, header, lines, rest := ls[..a - 1], ls[a - 1], ls[a..e], ls[e..];
    FirstTake(ls, 0, AHeader(section), a - 1);
    FirstBetween(ls, a, ABracket);
    CutInFour(ls, a - 1, e);
  }

  lemma CutInFour<T>(s: seq<T>, i: nat, j: nat)
    requires i < j <= |s|
    ensures s == s[..i] + ([s[i]] + s[i + 1..j] + s[j..])
  {
  }

  lemma FirstBetween(ls: seq<Line>, from: nat, m: Mark)
    requires from <= |ls|
    ensures var mid := ls[from..First(ls, from, m)]; First(mid, 0, m) == |mid|
  {
    var e := First(ls, from, m);
    FirstTake(ls, from, m, e);
    assert ls[..e] == ls[..from] + ls[from..e];
    FirstShift(ls[..from], ls[from..e], 0, m);
  }

  /** A named section between `front` and `rest` does not matter to lookups in other sections. */
  lemma NamedKeepsOthers(front: seq<Line>, header: Line, lines: seq<Line>, rest: seq<Line>,
                         section': string, key: string)
    requires header.bracket && !HeaderOf(header, section') && (rest == [] || rest[0].bracket)
    requires section' != [] ==> First(lines, 0, AHeader(section')) == |lines|
    ensures Find(front + ([header] + lines + rest), section', key) == Find(front + rest, section', key)
  {
    var mid := [header] + lines;
    FindAppend(front, mid + rest, section', key);
    FindAppend(front, rest, section', key);
    if Start(front, section').Some? {
      BracketStops(mid + rest, key);
      BracketStops(rest, key);
    } else {
      FirstOfCons(header, lines, AHeader(section'));
      FindInSecond(mid, rest, section', key);
    }
  }

  lemma UnnamedKeepsOthers(ls: seq<Line>, section': string, key: string)
    requires section' != []
    ensures Find(ls[First(ls, 0, ABracket)..], section', key) == Find(ls, section', key)
  {
    var e := First(ls, 0, ABracket);
    FirstTake(ls, 0, ABracket, e);
    NoBracketNoHeader(ls[..e], section');
    FindInSecond(ls[..e], ls[e..], section', key);
    assert ls == ls[..e] + ls[e..];
  }

  /** Erasing a section leaves every lookup in the other sections as it was. */
  lemma EraseKeepsOthers(ls: seq<Line>, section: string, section': string, key: string)
    requires !EqFold(section, section')
    requires section != [] || ls == [] || !ls[0].bracket
    ensures Find(EraseLines(ls, section), section', key) == Find(ls, section', key)
  {
    if section == [] {
      EraseIsExact(ls, section);
      UnnamedKeepsOthers(ls, section', key);
      assert WithoutSection(ls, section) == ls[First(ls, 0, ABracket)..];
    } else if Start(ls, section).Some? {
      var front, header, lines, rest := SectionParts(ls, section);
      NoBracketNoHeader(lines, section');
      NamedKeepsOthers(front, header, lines, rest, section', key);
    } else {
      assert ls[..0] + ls[0..] == ls;
    }
  }

  lemma BracketStops(ls: seq<Line>, key: string)
    requires ls == [] || ls[0].bracket
    ensures FindFrom(ls, 0, key) == None
  {
  }

  /** After an erasure the section is there only if the file had it once more. */
  lemma ErasedSection(ls: seq<Line>, section: string, key: string)
    requires section != [] && Start(ls, section).Some?
    ensures Find(EraseLines(ls, section), section, key) ==
            Find(ls[First(ls, Start(ls, section).value, ABracket)..], section, key)
  {
    var front, header, lines, rest := SectionParts(ls, section);
    FindInSecond(front, rest, section, key);
  }
}
