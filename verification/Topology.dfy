/** The wires between the switches: the matrix of topology.hpp. */
module Topology {
  import opened CString
  import opened Decimal

  const MAX_SWITCH_COUNT: nat := 400

  /** Port `lp` of switch `ls` is wired to port `rp` of switch `rs`. */
  datatype Link = Link(ls: int, lp: int, rs: int, rp: int) {
    function Flip(): Link { Link(rs, rp, ls, lp) }
  }

  type Links = seq<Link>

  /** The link an empty line stands for; it sets a place that is zero anyway. */
  const NO_LINK := Link(0, 0, 0, 0)

  predicate IsSwitch(s: int) { 0 <= s < MAX_SWITCH_COUNT }

  predicate InRange(links: Links) { forall k :: 0 <= k < |links| ==> IsSwitch(links[k].ls) && IsSwitch(links[k].rs) }

  // ---- what a list of links is

  /** The port of switch `i` the last link between `i` and `j` uses, or 0. */
  function PortOf(links: Links, i: int, j: int): int {
    if links == [] then 0 else
      var l := links[|links| - 1];
      if l.rs == i && l.ls == j then l.rp
      else if l.ls == i && l.rs == j then l.lp
      else PortOf(links[..|links| - 1], i, j)
  }

  /** The first switch not below `i` that is on port `p` of switch `s`. */
  function Seek(links: Links, s: int, p: int, i: nat): (k: nat)
    requires i <= MAX_SWITCH_COUNT
    ensures i <= k <= MAX_SWITCH_COUNT
    decreases MAX_SWITCH_COUNT - i
  {
    if i == MAX_SWITCH_COUNT || PortOf(links, s, i) == p then i else Seek(links, s, p, i + 1)
  }

  /** What is on port `p` of switch `s`: a switch and its port. */
  function Remote(links: Links, s: int, p: int): (int, int) {
    var k := Seek(links, s, p, 0);
    if k < MAX_SWITCH_COUNT then (k, PortOf(links, k, s)) else (0, 0)
  }

  class Matrix {
    const switches: array2<int>
    ghost var links: Links  // the connections set since the last `clear`

    ghost predicate Valid()
      reads this, switches
    {
      switches.Length0 == switches.Length1 == MAX_SWITCH_COUNT && InRange(links) &&
      forall i, j :: 0 <= i < MAX_SWITCH_COUNT && 0 <= j < MAX_SWITCH_COUNT ==> switches[i, j] == PortOf(links, i, j)
    }

    constructor ()
      ensures Valid() && fresh(switches) && links == []
    {
      switches := new int[MAX_SWITCH_COUNT, MAX_SWITCH_COUNT];
      new;
      Clear();
    }

    /** topology.hpp `clear` */
    method Clear()
      requires switches.Length0 == switches.Length1 == MAX_SWITCH_COUNT
      modifies this, switches
      ensures Valid() && links == []
    {
      for i := 0 to MAX_SWITCH_COUNT
        invariant forall a, b :: 0 <= a < i && 0 <= b < MAX_SWITCH_COUNT ==> switches[a, b] == 0
      {
        for j := 0 to MAX_SWITCH_COUNT
          invariant forall a, b :: 0 <= a < i && 0 <= b < MAX_SWITCH_COUNT ==> switches[a, b] == 0
          invariant forall b :: 0 <= b < j ==> switches[i, b] == 0
        {
          switches[i, j] := 0;
        }
      }
      links := [];
    }

    /** topology.hpp `SetConnections` */
    method SetConnections(leftSwitch: string, leftPort: string, rightSwitch: string, rightPort: string)
      requires Valid() && InRange([LinkOf(leftSwitch, leftPort, rightSwitch, rightPort)])
      modifies this, switches
      ensures Valid() && links == old(links) + [LinkOf(leftSwitch, leftPort, rightSwitch, rightPort)]
    {
      ghost var l := LinkOf(leftSwitch, leftPort, rightSwitch, rightPort);
      assert IsSwitch([l][0].ls) && IsSwitch([l][0].rs);
      var ls, lp := StrToL(leftSwitch), StrToL(leftPort);
      var rs, rp := StrToL(rightSwitch), StrToL(rightPort);
      switches[ls, rs] := ToInt(lp);
      switches[rs, ls] := ToInt(rp);
      links := links + [l];
      assert links[..|links| - 1] == old(links);
    }

    /** topology.hpp `GetConnection` */
    method GetConnection(s: int, port: int) returns (remoteSwitch: int, remotePort: int)
      requires Valid() && IsSwitch(s)
      ensures (remoteSwitch, remotePort) == Remote(links, s, port)
      // the first switch on that port and its port back, or nothing
      ensures if exists i :: 0 <= i < MAX_SWITCH_COUNT && switches[s, i] == port then
                IsSwitch(remoteSwitch) && switches[s, remoteSwitch] == port &&
                remotePort == switches[remoteSwitch, s] &&
                forall i :: 0 <= i < remoteSwitch ==> switches[s, i] != port
              else remoteSwitch == 0 && remotePort == 0
    {
      var i, found := 0, false;
      while i < MAX_SWITCH_COUNT
        invariant 0 <= i <= MAX_SWITCH_COUNT && !found && forall j :: 0 <= j < i ==> switches[s, j] != port
        invariant Seek(links, s, port, 0) == Seek(links, s, port, i)
      {
        if switches[s, i] == port { found := true; break; }
        i := i + 1;
      }
      if found {
        remoteSwitch := i;
        remotePort := switches[i, s];
      } else {
        remoteSwitch, remotePort := 0, 0;
      }
    }

    /** The loop of topology.hpp `LoadFromFile` over the lines `getline` gives. */
    method LoadFromFile(lines: seq<string>)
      requires switches.Length0 == switches.Length1 == MAX_SWITCH_COUNT && InRange(LinksOf(lines))
      modifies this, switches
      ensures Valid() && links == LinksOf(lines)
    {
      hide PortOf, StrToL, LinkOf, Detach;
      Clear();
      for n := 0 to |lines|
        invariant Valid() && links + LinksOf(lines[n..]) == LinksOf(lines)
      {
        assert lines[n..][0] == lines[n] && lines[n..][1..] == lines[n + 1..];
        var line := lines[n];
        var pos := Index(line, '=');
        if pos == |line| || pos > 0 {
          var (left, right) := Detach(line, '=');
          var l, r := Detach(left, ':'), Detach(right, ':');
          assert LinksOf(lines)[|links|] == LineLink(line);
          assert [LineLink(line)][0] == LineLink(line);
          SetConnections(l.0, l.1, r.0, r.1);
        }
      }
    }
  }

  // ---- the file

  /** What is kept of a `long` in an `int` of 32 bits. */
  function ToInt(v: int): int { (v + 0x8000_0000) % 0x1_0000_0000 - 0x8000_0000 }

  function LinkOf(ls: string, lp: string, rs: string, rp: string): Link {
    Link(StrToL(ls), ToInt(StrToL(lp)), StrToL(rs), ToInt(StrToL(rp)))
  }

  /**
   * topology.hpp `detach_by_char`: without the character both sides are everything, with it in front they are empty.
   */
  function Detach(s: string, c: char): (string, string) {
    var pos := Index(s, c);
    if pos == |s| then (s, s) else if pos == 0 then ("", "") else (s[..pos], s[pos + 1..])
  }

  function LineLink(line: string): Link {
    var (left, right) := Detach(line, '=');
    var (l, r) := (Detach(left, ':'), Detach(right, ':'));
    LinkOf(l.0, l.1, r.0, r.1)
  }

  function LinksOf(lines: seq<string>): Links {
    if lines == [] then [] else
      (if lines[0] != "" && lines[0][0] == '=' then [] else [LineLink(lines[0])]) + LinksOf(lines[1..])
  }

  /** The number that has the same lowest 32 bits, as a signed number. */
  lemma ToIntIs(v: int)
    ensures -0x8000_0000 <= ToInt(v) <= 0x7fff_ffff && (v - ToInt(v)) % 0x1_0000_0000 == 0
  {
  }

  /** Without an equals sign both ends are the whole line, and a line that begins with one is skipped. */
  lemma HalfALink(line: string, rest: seq<string>)
    ensures '=' !in line ==>
              var l := Detach(line, ':');
              LinksOf([line] + rest) == [LinkOf(l.0, l.1, l.0, l.1)] + LinksOf(rest)
    ensures line != "" && line[0] == '=' ==> LinksOf([line] + rest) == LinksOf(rest)
  {
    assert ([line] + rest)[1..] == rest;
    if '=' !in line { IndexAfter(line, [], '='); assert line + [] == line; }
  }

  /** How a link is written in a topology file. */
  function Written(l: Link): string { End(l.ls, l.lp) + "=" + End(l.rs, l.rp) }

  predicate Plain(s: string) { s != [] && '=' !in s && ':' !in s }

  lemma DetachAt(a: string, c: char, b: string)
    requires a != [] && c !in a
    ensures Detach(a + [c] + b, c) == (a, b)
  {
    assert a + [c] + b == a + ([c] + b);
    IndexAfter(a, [c] + b, c);
  }

  lemma DetachOtherwise(s: string, c: char)
    ensures c !in s ==> Detach(s, c) == (s, s)
    ensures s != [] && s[0] == c ==> Detach(s, c) == ("", "")
  {
    if c !in s { IndexAfter(s, [], c); assert s + [] == s; }
  }

  lemma TextIsPlain(v: int)
    ensures Plain(Text(v))
  {
    DigitsAreDigits(Abs(v));
    var d := Digits(Abs(v));
    forall k | 0 <= k < |d| ensures d[k] != '=' && d[k] != ':' { AllDigitsAt(d, k); }
  }

  predicate Fits(l: Link) {
    IsLong(l.ls) && IsLong(l.rs) && ToInt(l.lp) == l.lp && ToInt(l.rp) == l.rp
  }

  /** One end of a link, as it is written. */
  function End(s: int, p: int): string { Text(s) + ":" + Text(p) }

  /** It is read as that switch and port, and it has no `=`. */
  lemma ReadEnd(s: int, p: int)
    requires IsLong(s) && IsLong(p)
    ensures Detach(End(s, p), ':') == (Text(s), Text(p))
    ensures StrToL(Text(s)) == s && StrToL(Text(p)) == p
    ensures End(s, p) != [] && '=' !in End(s, p)
  {
    hide Text, StrToL, Index;
    TextIsPlain(s);
    TextIsPlain(p);
    StrToLOfText(s);
    StrToLOfText(p);
    DetachAt(Text(s), ':', Text(p));
  }

  lemma PortIsLong(p: int)
    requires ToInt(p) == p
    ensures IsLong(p)
  {
  }

  /** Reading the written link gives it back. */
  lemma LineLinkOfWritten(l: Link)
    requires Fits(l)
    ensures LineLink(Written(l)) == l
    ensures Written(l) != "" && Written(l)[0] != '='
  {
    PortIsLong(l.lp);
    PortIsLong(l.rp);
    hide StrToL, Detach, End, ToInt;
    ReadEnd(l.ls, l.lp);
    ReadEnd(l.rs, l.rp);
    DetachAt(End(l.ls, l.lp), '=', End(l.rs, l.rp));
    assert End(l.ls, l.lp)[0] in End(l.ls, l.lp);
  }

  /** The lines of a file with these links; what follows the last newline is one more, empty line. */
  function FileOf(links: Links): seq<string> {
    if links == [] then [""] else [Written(links[0])] + FileOf(links[1..])
  }

  lemma EmptyLine()
    ensures LineLink("") == NO_LINK
  {
    assert StrToL("") == 0;
  }

  /** A file of links is read as these links; the empty line at its end adds one that changes nothing. */
  lemma {:induction false} LinksOfFile(links: Links)
    requires forall k :: 0 <= k < |links| ==> Fits(links[k])
    ensures LinksOf(FileOf(links)) == links + [NO_LINK]
  {
    hide LineLink, Written, Fits;
    if links == [] {
      EmptyLine();
      assert LinksOf([""]) == [LineLink("")] + LinksOf([]);
    } else {
      LineLinkOfWritten(links[0]);
      LinksOfFile(links[1..]);
      assert FileOf(links)[1..] == FileOf(links[1..]);
      assert links == [links[0]] + links[1..];
    }
  }

  // ---- the laws of the lookup

  /** A link of the topology: two switches and two ports. */
  predicate Proper(links: Links) {
    InRange(links) && forall k :: 0 <= k < |links| ==>
      links[k] == NO_LINK || (links[k].ls != links[k].rs && links[k].lp != 0 && links[k].rp != 0)
  }

  predicate Same(a: Link, b: Link) { a == b || a == b.Flip() }

  predicate HasEnd(a: Link, s: int, p: int) { (a.ls == s && a.lp == p) || (a.rs == s && a.rp == p) }

  predicate Joins(a: Link, s: int, t: int) { (a.ls == s && a.rs == t) || (a.rs == s && a.ls == t) }

  /** The two links have a port or both switches in common. */
  predicate Touch(a: Link, b: Link) { HasEnd(a, b.ls, b.lp) || HasEnd(a, b.rs, b.rp) || Joins(a, b.ls, b.rs) }

  /** No port is used by two links, and no two switches are joined by two links. */
  predicate NoClash(links: Links) {
    forall i, j :: 0 <= i < |links| && 0 <= j < |links| && Touch(links[i], links[j]) ==> Same(links[i], links[j])
  }

  predicate Found(links: Links, l: Link) {
    Remote(links, l.ls, l.lp) == (l.rs, l.rp) && Remote(links, l.rs, l.rp) == (l.ls, l.lp)
  }

  /** Every link is found from both of its ends. */
  predicate AllFound(links: Links) { forall k :: 0 <= k < |links| ==> Found(links, links[k]) }

  lemma {:induction false} SeekIsFirst(links: Links, s: int, p: int, i: nat, j: nat)
    requires i <= j < MAX_SWITCH_COUNT
    ensures j < Seek(links, s, p, i) ==> PortOf(links, s, j) != p
    ensures j == Seek(links, s, p, i) ==> PortOf(links, s, j) == p
    decreases j - i
  {
    if i < j { SeekIsFirst(links, s, p, i + 1, j); }
  }

  lemma Front(links: Links)
    requires links != [] && Proper(links)
    ensures Proper(links[..|links| - 1]) && (NoClash(links) ==> NoClash(links[..|links| - 1]))
  {
    var front := links[..|links| - 1];
    assert forall k :: 0 <= k < |front| ==> front[k] == links[k];
  }

  /** Both directions of a wire are set. */
  lemma {:induction false} BothWays(links: Links, i: int, j: int)
    requires Proper(links)
    ensures PortOf(links, i, j) != 0 <==> PortOf(links, j, i) != 0
    ensures PortOf(links, i, i) == 0
  {
    if links == [] {
    } else {
      Front(links);
      BothWays(links[..|links| - 1], i, j);
    }
  }

  /** A port in the matrix is the end of a link. */
  lemma {:induction false} PortIsEnd(links: Links, i: int, j: int) returns (k: nat)
    requires Proper(links) && PortOf(links, i, j) != 0
    ensures k < |links| && links[k] != NO_LINK && Joins(links[k], i, j) && HasEnd(links[k], i, PortOf(links, i, j))
  {
    var n := |links| - 1;
    if Joins(links[n], i, j) {
      k := n;
    } else {
      Front(links);
      k := PortIsEnd(links[..n], i, j);
    }
  }

  /** The matrix shows every link. */
  lemma {:induction false} EndsAreKept(links: Links, k: nat)
    requires Proper(links) && NoClash(links) && k < |links|
    ensures PortOf(links, links[k].ls, links[k].rs) == links[k].lp
    ensures PortOf(links, links[k].rs, links[k].ls) == links[k].rp
  {
    var n, l := |links| - 1, links[k];
    if Joins(links[n], l.ls, l.rs) {
      assert Touch(links[n], links[k]);
    } else {
      Front(links);
      assert links[..n][k] == l;
      EndsAreKept(links[..n], k);
    }
  }

  /** No two neighbours of a switch are on the same port. */
  lemma PortsDiffer(links: Links, s: int, i: int, j: int)
    requires Proper(links) && NoClash(links) && PortOf(links, s, i) == PortOf(links, s, j) != 0
    ensures i == j
  {
    var a := PortIsEnd(links, s, i);
    var b := PortIsEnd(links, s, j);
    assert Touch(links[a], links[b]);
  }

  /** What is found at a port that is wired to `i`. */
  lemma RemoteOfPort(links: Links, s: int, i: nat)
    requires Proper(links) && NoClash(links) && i < MAX_SWITCH_COUNT && PortOf(links, s, i) != 0
    ensures Remote(links, s, PortOf(links, s, i)) == (i, PortOf(links, i, s))
  {
    var p := PortOf(links, s, i);
    var k := Seek(links, s, p, 0);
    SeekIsFirst(links, s, p, 0, i);
    if k < i {
      SeekIsFirst(links, s, p, 0, k);
      PortsDiffer(links, s, k, i);
    }
  }

  lemma NoLinkIsFound(links: Links)
    requires Proper(links)
    ensures Found(links, NO_LINK)
  {
    BothWays(links, 0, 0);
    SeekIsFirst(links, 0, 0, 0, 0);
  }

  lemma FoundIsUnique(links: Links, a: Link, b: Link)
    requires Found(links, a) && Found(links, b) && Touch(a, b)
    requires Proper([a, b])
    ensures Same(a, b)
  {
    assert [a, b][0] == a && [a, b][1] == b;
  }

  /**
   * The lookup gives the other end for every end that was set, exactly if no port is used twice and no two
   * switches are joined twice.
   */
  lemma AllLinksAreFound(links: Links)
    requires Proper(links)
    ensures AllFound(links) <==> NoClash(links)
  {
    if NoClash(links) {
      forall k | 0 <= k < |links| ensures Found(links, links[k]) {
        if links[k] == NO_LINK {
          NoLinkIsFound(links);
        } else {
          EndsAreKept(links, k);
          RemoteOfPort(links, links[k].ls, links[k].rs);
          RemoteOfPort(links, links[k].rs, links[k].ls);
        }
      }
    }
    if AllFound(links) {
      forall i, j | 0 <= i < |links| && 0 <= j < |links| && Touch(links[i], links[j]) ensures Same(links[i], links[j]) {
        FoundIsUnique(links, links[i], links[j]);
      }
    }
  }

  /** Looking up what was found leads back. */
  lemma LookupIsInvolution(links: Links, s: int, p: int)
    requires Proper(links) && NoClash(links) && IsSwitch(s) && Remote(links, s, p).1 != 0
    ensures Remote(links, Remote(links, s, p).0, Remote(links, s, p).1) == (s, p)
  {
    var k := Seek(links, s, p, 0);
    SeekIsFirst(links, s, p, 0, k);
    BothWays(links, s, k);
    RemoteOfPort(links, k, s);
  }

  /** A port that a link uses. */
  ghost predicate Used(links: Links, s: int, p: int) {
    exists k :: 0 <= k < |links| && links[k] != NO_LINK && HasEnd(links[k], s, p)
  }

  /** The remote port is 0 for an unused port (also for port 0), and for no other unless links clash. */
  lemma UnusedPort(links: Links, s: int, p: int)
    requires Proper(links) && IsSwitch(s)
    ensures Remote(links, s, p).1 != 0 ==> Used(links, s, p)
    ensures NoClash(links) && Used(links, s, p) ==> Remote(links, s, p).1 != 0
  {
    var i := Seek(links, s, p, 0);
    if Remote(links, s, p).1 != 0 {
      SeekIsFirst(links, s, p, 0, i);
      BothWays(links, s, i);
      var k := PortIsEnd(links, s, i);
    }
    if NoClash(links) && Used(links, s, p) {
      AllLinksAreFound(links);
      var k :| 0 <= k < |links| && links[k] != NO_LINK && HasEnd(links[k], s, p);
      assert Found(links, links[k]);
    }
  }

  lemma EmptyLineTouchesNothing(links: Links, a: Link)
    requires Proper(links) && a in links
    ensures Touch(a, NO_LINK) || Touch(NO_LINK, a) ==> a == NO_LINK
  {
  }

  lemma EmptyLineClashesWithNothing(links: Links)
    requires Proper(links)
    ensures Proper(links + [NO_LINK]) && (NoClash(links + [NO_LINK]) <==> NoClash(links))
  {
    hide Touch;
    var longer := links + [NO_LINK];
    forall k | 0 <= k < |links|
      ensures longer[k] == links[k]
      ensures Touch(links[k], NO_LINK) || Touch(NO_LINK, links[k]) ==> links[k] == NO_LINK
    {
      EmptyLineTouchesNothing(links, links[k]);
    }
    assert longer[|links|] == NO_LINK;
  }

  /** The laws hold for a topology that was loaded from a file. */
  lemma LoadedTopology(links: Links)
    requires Proper(links) && (forall k :: 0 <= k < |links| ==> Fits(links[k]))
    ensures Proper(LinksOf(FileOf(links))) && (AllFound(LinksOf(FileOf(links))) <==> NoClash(links))
  {
    hide *;
    LinksOfFile(links);
    EmptyLineClashesWithNothing(links);
    AllLinksAreFound(links + [NO_LINK]);
  }
}
