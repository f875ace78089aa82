/**
 * The framing of the controller connection: a message is as long as bytes 2 and 3 of its header say
 * (OpenFlow Switch Specification 1.0.0, section 5.1).
 */
module Framing {
  type Byte = b: int | 0 <= b < 256
  type Bytes = seq<Byte>

  const HEADER: nat := 8  // sizeof(struct ofp_header)
  const MAX_MESSAGE: nat := 0xffff

  /** `ntohs(header->length)` */
  function LengthField(s: Bytes): (n: nat)
    requires |s| >= 4
    ensures n <= MAX_MESSAGE
  {
    (s[2] as int) * 256 + s[3] as int
  }

  predicate Message(m: Bytes) { |m| >= HEADER && LengthField(m) == |m| }

  predicate AllMessages(ms: seq<Bytes>) { forall i :: 0 <= i < |ms| ==> Message(ms[i]) }

  function Join(ms: seq<Bytes>): Bytes { if ms == [] then [] else ms[0] + Join(ms[1..]) }

  /** The complete messages a stream begins with. */
  function Frames(s: Bytes): (ms: seq<Bytes>)
    decreases |s|
  {
    if |s| < 4 || LengthField(s) < HEADER || LengthField(s) > |s| then []
    else [s[..LengthField(s)]] + Frames(s[LengthField(s)..])
  }

  /** What is behind them. */
  function Tail(s: Bytes): (t: Bytes)
    ensures |t| <= |s|
    decreases |s|
  {
    if |s| < 4 || LengthField(s) < HEADER || LengthField(s) > |s| then s else Tail(s[LengthField(s)..])
  }

  /** No length field that is met while the stream is cut is smaller than a header. */
  predicate Legal(s: Bytes)
    decreases |s|
  {
    |s| >= 4 ==> LengthField(s) >= HEADER && (LengthField(s) <= |s| ==> Legal(s[LengthField(s)..]))
  }

  lemma {:induction false} JoinAppend(a: seq<Bytes>, b: seq<Bytes>)
    ensures Join(a + b) == Join(a) + Join(b)
  {
    if a == [] {
      assert a + b == b;
    } else {
      JoinAppend(a[1..], b);
      assert (a + b)[1..] == a[1..] + b && (a + b)[0] == a[0];
      assert (a[0] + Join(a[1..])) + Join(b) == a[0] + (Join(a[1..]) + Join(b));
    }
  }

  lemma JoinSnoc(a: seq<Bytes>, m: Bytes)
    ensures Join(a + [m]) == Join(a) + m
  {
    JoinAppend(a, [m]);
    JoinOne(m);
  }

  lemma JoinOne(m: Bytes)
    ensures Join([m]) == m
  {
    assert m + Join([]) == m;
  }

  /** One message in front of a stream. */
  lemma FramesCons(m: Bytes, s: Bytes)
    requires Message(m)
    ensures Frames(m + s) == [m] + Frames(s)
    ensures Legal(m + s) == Legal(s)
    ensures Tail(m + s) == Tail(s)
  {
    assert (m + s)[..|m|] == m && (m + s)[|m|..] == s;
    assert LengthField(m + s) == LengthField(m);
  }

  /** Messages in front of a stream are its first frames, wherever they were cut. */
  lemma {:induction false} FramesAppend(ms: seq<Bytes>, s: Bytes)
    requires AllMessages(ms)
    ensures Frames(Join(ms) + s) == ms + Frames(s)
    ensures Legal(Join(ms) + s) == Legal(s)
    ensures Tail(Join(ms) + s) == Tail(s)
  {
    if ms == [] {
      assert Join(ms) + s == s;
    } else {
      var rest := ms[1..];
      assert ms == [ms[0]] + rest;
      FramesAppend(rest, s);
      FramesCons(ms[0], Join(rest) + s);
      assert Join(ms) + s == ms[0] + (Join(rest) + s);
      assert [ms[0]] + (rest + Frames(s)) == ms + Frames(s);
    }
  }

  /** A stream is its frames and a remainder that is too short for another one. */
  lemma {:induction false} FramesSplit(s: Bytes)
    ensures AllMessages(Frames(s)) && s == Join(Frames(s)) + Tail(s) && Frames(Tail(s)) == []
    decreases |s|
  {
    if Frames(s) == [] {
      assert Tail(s) == s;
    } else {
      var n := LengthField(s);
      FramesSplit(s[n..]);
      var m := s[..n];
      assert Frames(s) == [m] + Frames(s[n..]);
      assert s == m + s[n..];
      assert Frames(s)[1..] == Frames(s[n..]);
      assert m + (Join(Frames(s[n..])) + Tail(s)) == (m + Join(Frames(s[n..]))) + Tail(s);
    }
  }

  /** The list of messages that a stream consists of is determined by the stream. */
  lemma FramesOfJoin(ms: seq<Bytes>)
    requires AllMessages(ms)
    ensures Frames(Join(ms)) == ms
  {
    FramesAppend(ms, []);
    assert Join(ms) + [] == Join(ms);
  }

  lemma Assoc(a: Bytes, b: Bytes, c: Bytes)
    ensures a + b + c == a + (b + c)
  {
  }

  /** More bytes only add frames. */
  lemma FramesGrow(s: Bytes, more: Bytes)
    ensures Frames(s) <= Frames(s + more)
  {
    hide Frames, Join, Tail;
    FramesSplit(s);
    FramesAppend(Frames(s), Tail(s) + more);
    Assoc(Join(Frames(s)), Tail(s), more);
  }

  /** The first `n` frames are what the stream begins with. */
  lemma FramesPrefix(s: Bytes, n: nat) returns (k: nat)
    requires n <= |Frames(s)|
    ensures k == |Join(Frames(s)[..n])| <= |s|
    ensures s == Join(Frames(s)[..n]) + s[k..]
  {
    var frames := Frames(s);
    FramesSplit(s);
    var front, tail := frames[..n], Join(frames[n..]) + Tail(s);
    k := |Join(front)|;
    assert frames == front + frames[n..];
    JoinAppend(front, frames[n..]);
    assert s == Join(front) + tail;
  }
}
