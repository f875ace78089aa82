/** The receiving thread: `process_buffer_in` and the recovery loop of `controller_communication`. */
module Communication {
  import opened Framing

  const MAXBUFSIZE: nat := 1024 * 1024

  /** Behind the first `i` messages there is not less left than the last of them was long. */
  predicate GoesOn(frames: seq<Bytes>, size: nat, i: nat)
    requires 0 < i <= |frames|
  {
    size - |Join(frames[..i])| >= |frames[i - 1]|
  }

  ghost predicate GoesUpTo(frames: seq<Bytes>, size: nat, n: nat)
    requires n <= |frames|
  {
    forall i :: 0 < i < n ==> GoesOn(frames, size, i)
  }

  /** The loop stops behind the first `n` messages: not earlier, and if there are more then for lack of bytes. */
  ghost predicate StopsAt(frames: seq<Bytes>, size: nat, n: nat) {
    n <= |frames| && GoesUpTo(frames, size, n) && (n < |frames| ==> n > 0 && !GoesOn(frames, size, n))
  }

  /** Behind no message there is less left than it was long. */
  ghost predicate GoesThrough(frames: seq<Bytes>, size: nat) { GoesUpTo(frames, size, |frames|) }

  lemma StepGoes(frames: seq<Bytes>, size: nat, n: nat)
    requires n < |frames| && GoesUpTo(frames, size, n)
    requires n > 0 ==> size - |Join(frames[..n])| >= |frames[n - 1]|
    ensures GoesUpTo(frames, size, n + 1)
  {
  }

  lemma Stopped(frames: seq<Bytes>, size: nat, n: nat)
    requires n <= |frames| && GoesUpTo(frames, size, n)
    requires n == |frames| || (n > 0 && size - |Join(frames[..n])| < |frames[n - 1]|)
    ensures StopsAt(frames, size, n) && (n == |frames| <==> GoesThrough(frames, size))
  {
  }

  /** A message behind another one waits for the next turn exactly if it is shorter ... */
  lemma ShorterWaits(a: Bytes, b: Bytes)
    requires Message(a) && Message(b)
    ensures Frames(a + b) == [a, b]
    ensures GoesThrough([a, b], |a + b|) <==> |b| >= |a|
  {
    hide Frames, Join;
    var frames := [a, b];
    FramesOfJoin(frames);
    JoinSnoc([a], b);
    JoinOne(a);
    assert [a] + [b] == frames && [a] == frames[..1];
    assert GoesOn(frames, |a + b|, 1) <==> |b| >= |a|;
  }

  const BARRIER: Bytes := [1, 18, 0, 8, 0, 0, 0, 2]
  const ECHO: Bytes := [1, 2, 0, 12, 0, 0, 0, 1, 9, 9, 9, 9]

  /** ... as a barrier request does behind an echo request with four bytes of payload. */
  lemma BarrierWaits()
    ensures Frames(ECHO + BARRIER) == [ECHO, BARRIER]
    ensures !GoesThrough(Frames(ECHO + BARRIER), |ECHO + BARRIER|)
  {
    ShorterWaits(ECHO, BARRIER);
  }

  /**
   * The thread's buffer.  `buf[..end]` are the bytes that were received and not yet dispatched;
   * `dispatched` lists what was handed to `process_packet`; `received` is all that `recv` ever gave.
   */
  class Receiver {
    const buf: array<Byte>
    var end: nat
    var dispatched: seq<Bytes>
    ghost var received: Bytes

    /** Nothing is lost, duplicated or reordered, and whatever was dispatched is a whole message. */
    ghost predicate Valid()
      reads this, buf
    {
      buf.Length == MAXBUFSIZE && end < MAX_MESSAGE &&
      received == Join(dispatched) + buf[..end] &&
      AllMessages(dispatched)
    }

    constructor ()
      ensures Valid() && fresh(buf) && end == 0 && dispatched == [] && received == []
    {
      buf := new Byte[MAXBUFSIZE];
      end, dispatched, received := 0, [], [];
      new;
      assert buf[..0] == [];
    }

    /** The first `n` frames of the buffered bytes have been dispatched, and the rest begins at `paBuf`. */
    ghost predicate Dispatched(before: seq<Bytes>, size: nat, paBuf: nat, n: nat)
      requires paBuf <= size <= buf.Length
      reads this, buf
    {
      var frames := Frames(buf[..size]);
      n <= |frames| && dispatched == before + frames[..n] && paBuf == |Join(frames[..n])| &&
      frames[n..] == Frames(buf[paBuf..size]) && Legal(buf[paBuf..size])
    }

    /** Fewer than four bytes, and what lies behind them in the buffer makes them look complete. */
    ghost predicate Short(size: nat)
      requires buf.Length == MAXBUFSIZE
      reads this, buf
    {
      0 < size < 4 && LengthField(buf[..4]) <= size
    }

    /**
     * packets.hpp `process_buffer_in` for the first `size` bytes of the buffer; its result is the new `paBuf`.
     * The header is read even when fewer than four bytes are there.  If the bytes behind them then give a
     * small length, what is dispatched is no message; in every other case only messages are dispatched.
     */
    method ProcessBufferIn(size: nat) returns (paBuf: nat, ghost n: nat)
      requires buf.Length == MAXBUFSIZE && size <= MAXBUFSIZE && Legal(buf[..size])
      modifies this`dispatched
      ensures paBuf <= size
      ensures Short(size) ==>
                |dispatched| > |old(dispatched)| && dispatched[..|old(dispatched)|] == old(dispatched) &&
                !Message(dispatched[|old(dispatched)|])
      ensures !Short(size) ==> Dispatched(old(dispatched), size, paBuf, n) && size - paBuf < MAX_MESSAGE
      // the loop stops at the first place where less is left than the message just dispatched was long, and only there
      ensures !Short(size) ==> StopsAt(Frames(buf[..size]), size, n)
      ensures !Short(size) ==> (n == |Frames(buf[..size])| <==> GoesThrough(Frames(buf[..size]), size))
    {
      hide Frames, Join, Legal, GoesUpTo, StopsAt, GoesThrough;
      var paIntSize: int := size;
      var ofpSize: int := 1;
      paBuf, n := 0, 0;
      ghost var frames := Frames(buf[..size]);
      ghost var short := Short(size);
      NoFrameYet(frames, size);
      assert buf[0..size] == buf[..size];
      while paIntSize > 0 && ofpSize > 0 && paIntSize >= ofpSize
        invariant 0 <= paIntSize && paBuf + paIntSize == size && 0 <= ofpSize <= MAX_MESSAGE
        invariant !short ==> Dispatched(old(dispatched), size, paBuf, n)
        invariant !short && n == 0 ==> ofpSize == 1 && paBuf == 0
        invariant !short && n > 0 ==> ofpSize == |frames[n - 1]| && ofpSize >= HEADER
        invariant !short ==> GoesUpTo(frames, size, n)
        invariant short && paBuf == 0 && ofpSize == 1 ==> dispatched == old(dispatched)
        invariant short && !(paBuf == 0 && ofpSize == 1) ==>
                    |dispatched| > |old(dispatched)| && dispatched[..|old(dispatched)|] == old(dispatched) &&
                    |dispatched[|old(dispatched)|]| < 4
        decreases paIntSize, ofpSize
      {
        ghost var rest := buf[paBuf..size];
        ofpSize := (buf[paBuf + 2] as int) * 256 + buf[paBuf + 3] as int;
        if ofpSize > paIntSize { break; }
        ghost var m := buf[paBuf..paBuf + ofpSize];
        if !short {
          StepFrames(frames, n, rest, ofpSize);
          StepGoes(frames, size, n);
          Slices(buf, paBuf, size, ofpSize);
          assert old(dispatched) + frames[..n] + [m] == old(dispatched) + frames[..n + 1];
        }
        dispatched := dispatched + [buf[paBuf..paBuf + ofpSize]];
        paBuf := paBuf + ofpSize;
        paIntSize := paIntSize - ofpSize;
        n := n + 1;
      }
      if !short {
        NoFrameLeft(frames, n, buf[paBuf..size]);
        Stopped(frames, size, n);
      }
    }

    /** Room for the next `recv`. */
    function Room(): nat
      requires end <= MAXBUFSIZE
      reads this
    {
      MAXBUFSIZE - end
    }

    /** `recv` puts a chunk behind what was left. */
    method Recv(chunk: Bytes) returns (size: nat)
      requires buf.Length == MAXBUFSIZE && end <= MAXBUFSIZE && |chunk| <= Room()
      modifies this`received, buf
      ensures size == end + |chunk| && buf[..size] == old(buf[..end]) + chunk && buf[size..] == old(buf[size..])
      ensures received == old(received) + chunk
    {
      size := end + |chunk|;
      forall i | 0 <= i < |chunk| {
        buf[end + i] := chunk[i];
      }
      received := received + chunk;
    }

    /** switch.hpp:544-558: the bytes from `processingEnd` up to `size` are moved to the front. */
    method Recover(size: nat, processingEnd: nat)
      requires processingEnd <= size <= buf.Length
      modifies this`end, buf
      ensures end == size - processingEnd && buf[..end] == old(buf[processingEnd..size])
      ensures buf[end..] == old(buf[size - processingEnd..])
    {
      if size != processingEnd {
        if size > processingEnd {
          var left := size - processingEnd;
          forall i | 0 <= i < left {
            buf[i] := buf[processingEnd + i];
          }
          end := left;
        } else {
          assert false;
        }
      } else {
        end := 0;
      }
    }

    /** The length that is read when `chunk` arrives, also if some of its bytes are left over from earlier turns. */
    ghost function StaleLength(chunk: Bytes): nat
      requires buf.Length == MAXBUFSIZE && end + |chunk| < 4
      reads this, buf
    {
      LengthField(buf[..end] + chunk + buf[end + |chunk|..4])
    }

    /**
     * One turn of the loop of switch.hpp `controller_communication`: `recv` gives `chunk`, the messages in the
     * buffer are dispatched, and what is left is moved to the front.  The turn keeps the invariant unless there
     * are one to three bytes and the bytes behind them in the buffer make them look complete.
     */
    method Turn(chunk: Bytes) returns (good: bool)
      requires Valid() && |chunk| <= Room() && Legal(buf[..end] + chunk)
      modifies this, buf
      ensures good <==> !(0 < old(end) + |chunk| < 4 && old(StaleLength(chunk)) <= old(end) + |chunk|)
      ensures good <==> Valid()
      ensures received == old(received) + chunk
      ensures !good ==> 0 < |Tail(received)| < 4
      ensures good ==> old(dispatched) <= dispatched && Legal(buf[..end])
      ensures end <= buf.Length && buf[end..] == (old(buf[..end]) + chunk + old(buf[end + |chunk|..]))[end..]
      // a buffer that begins with a whole message loses at least one ...
      ensures good && Frames(old(buf[..end]) + chunk) != [] ==> |dispatched| > |old(dispatched)|
      // ... and keeps one only if all that is left is shorter than the message dispatched last
      ensures good && Frames(buf[..end]) != [] ==> dispatched != [] && end < |dispatched[|dispatched| - 1]|
      // ... which it does exactly if somewhere less was left than the message before was long
      ensures good ==>
                (Frames(buf[..end]) == [] <==> GoesThrough(Frames(old(buf[..end]) + chunk), old(end) + |chunk|))
    {
      hide Frames, Join, Legal, Tail, GoesOn, GoesUpTo, GoesThrough;
      ghost var front, before := buf[..end], dispatched;
      ghost var behind := buf[end + |chunk|..];
      good := true;
      var size := Recv(chunk);
      ghost var data := buf[..size];
      if size < 4 {
        assert buf[size..4] == buf[size..][..4 - size];
        assert buf[..4] == front + chunk + behind[..4 - size];
        assert behind[..4 - size] == old(buf[end + |chunk|..4]);
      }
      good := !(0 < size < 4 && (buf[2] as int) * 256 + buf[3] as int <= size);
      var processingEnd;
      ghost var n;
      processingEnd, n := ProcessBufferIn(size);
      ghost var rest, all := buf[processingEnd..size], buf[..];
      assert all == front + chunk + behind;
      Recover(size, processingEnd);
      assert buf[end..] == all[end..];
      if good {
        TurnKeeps(before, front, chunk, data, dispatched, n, rest);
        LastDispatched(before, Frames(data), size, n);
      } else {
        NotAllMessages(dispatched, |before|);
        ShortTail(before, front, chunk);
      }
    }

    /** What an observer of the connection sees: the messages of the stream in order, none left out. */
    lemma DispatchedIsPrefix()
      requires Valid()
      ensures Frames(received) == dispatched + Frames(buf[..end])
      ensures Legal(received) == Legal(buf[..end])
    {
      FramesAppend(dispatched, buf[..end]);
    }

    /**
     * When nothing more comes, as many turns as there are whole messages left dispatch all of them, unless one to
     * three bytes are left over behind the last one and a stale length is read with them.
     */
    method Drain(turns: nat) returns (good: bool)
      requires Valid() && Legal(buf[..end]) && turns >= |Frames(buf[..end])|
      modifies this, buf
      ensures received == old(received)
      ensures !(0 < |Tail(old(received))| < 4) ==> good
      ensures good ==> Valid() && dispatched == Frames(received)
    {
      hide Frames, Join, Legal, Tail;
      good := true;
      DispatchedIsPrefix();
      for i := 0 to turns
        invariant Valid() && received == old(received) && Legal(buf[..end])
        invariant Frames(received) == dispatched + Frames(buf[..end])
        invariant turns - i >= |Frames(buf[..end])|
      {
        assert buf[..end] + [] == buf[..end];
        good := Turn([]);
        assert received == old(received) + [] == old(received);
        if !good { return; }
        DispatchedIsPrefix();
      }
    }
  }

  lemma {:induction false} LegalPrefix(s: Bytes, t: Bytes)
    requires Legal(s + t)
    ensures Legal(s)
    decreases |s|
  {
    if |s| >= 4 {
      var n := LengthField(s);
      assert n == LengthField(s + t);
      if n <= |s| && n >= HEADER {
        assert (s + t)[n..] == s[n..] + t;
        LegalPrefix(s[n..], t);
      }
    }
  }

  function Min(a: nat, b: nat): nat { if a < b then a else b }

  /**
   * What `recv` may do when it is willing to give `n` bytes: the position in the stream goes from `from` to `to`, less
   * far only at the end of the stream or of the buffer, which always has room for more than this constant.
   */
  predicate Gives(stream: Bytes, n: nat, from: nat, to: nat) {
    from <= to <= |stream| && to - from <= n &&
    (to - from < n ==> to == |stream| || to - from > MAXBUFSIZE - MAX_MESSAGE)
  }

  /** One to three bytes are behind the last whole message. */
  predicate Stub(s: Bytes) { 0 < |Tail(s)| < 4 }

  /**
   * The whole thread.  The controller sends `stream`; turn `k` receives up to `gives[k]` bytes of it, so that
   * `at[k]` have come before it.  Every behaviour of `recv` is one choice of `gives`.
   */
  method ControllerCommunication(stream: Bytes, gives: seq<nat>) returns (r: Receiver, good: bool, at: seq<nat>)
    requires Legal(stream)
    ensures 0 < |at| <= |gives| + 1 && at[0] == 0 && (forall k :: 0 <= k < |at| ==> at[k] <= |stream|)
    ensures r.received == stream[..at[|at| - 1]]
    ensures forall k :: 0 < k < |at| ==> Gives(stream, gives[k - 1], at[k - 1], at[k])
    // it goes wrong only if it was ever left with one to three bytes
    ensures (forall k :: 0 < k < |at| ==> !Stub(stream[..at[k]])) ==> good
    ensures good ==> |at| == |gives| + 1 && r.Valid() && fresh(r) && fresh(r.buf)
    // what was dispatched is a prefix of the messages of the stream, up to those that the buffer still holds
    ensures good ==> r.dispatched <= Frames(stream) && Frames(r.received) == r.dispatched + Frames(r.buf[..r.end])
    // after everything came, every turn dispatches a message until all are
    ensures good ==>
              forall k :: 0 <= k < |at| && at[k] == |stream| ==>
                |r.dispatched| >= Min(|gives| - k, |Frames(stream)|)
    ensures good && |gives| >= |Frames(stream)| && at[|gives| - |Frames(stream)|] == |stream| ==>
              r.dispatched == Frames(stream)
  {
    hide Frames, Join, Legal, Tail, Stub, Gives;
    r := new Receiver();
    good := true;
    at := [0];
    var pos: nat := 0;
    assert stream[..0] == [];
    for k := 0 to |gives|
      invariant r.Valid() && fresh(r) && fresh(r.buf) && pos <= |stream| && r.received == stream[..pos]
      invariant |at| == k + 1 && at[0] == 0 && at[k] == pos && (forall j :: 0 <= j <= k ==> at[j] <= pos)
      invariant forall j :: 0 < j <= k ==> Gives(stream, gives[j - 1], at[j - 1], at[j])
      invariant forall j :: 0 <= j <= k && at[j] == |stream| ==> |r.dispatched| >= Min(k - j, |Frames(stream)|)
    {
      good, pos := NextTurn(r, stream, pos, gives[k]);
      at := at + [pos];
      if !good {
        assert Stub(stream[..at[k + 1]]);
        return;
      }
    }
    Observed(r, stream, pos);
  }

  /** One turn of the loop, at a position in the stream. */
  method NextTurn(r: Receiver, stream: Bytes, pos: nat, give: nat) returns (good: bool, pos': nat)
    requires r.Valid() && Legal(stream) && pos <= |stream| && r.received == stream[..pos]
    modifies r, r.buf
    ensures pos <= pos' <= |stream| && Gives(stream, give, pos, pos') && r.received == stream[..pos']
    ensures if good then r.Valid() && old(r.dispatched) <= r.dispatched else Stub(stream[..pos'])
    ensures good && pos' == |stream| ==> |r.dispatched| >= Min(|old(r.dispatched)| + 1, |Frames(stream)|)
  {
    hide Frames, Join, Legal, Tail;
    var n := Min(give, Min(r.Room(), |stream| - pos));
    var chunk := stream[pos..pos + n];
    pos' := pos + n;
    ghost var front := r.buf[..r.end];
    assert stream == (r.received + chunk) + stream[pos'..];
    LegalPrefix(r.received + chunk, stream[pos'..]);
    LegalRest(r.dispatched, front, chunk);
    AllCome(stream, pos, r.dispatched, front, chunk);
    assert stream[..pos'] == stream[..pos] + chunk;
    good := r.Turn(chunk);
  }

  /** What has been dispatched is a prefix of the messages of the stream. */
  lemma Observed(r: Receiver, stream: Bytes, pos: nat)
    requires r.Valid() && pos <= |stream| && r.received == stream[..pos]
    ensures r.dispatched <= Frames(stream) && Frames(r.received) == r.dispatched + Frames(r.buf[..r.end])
  {
    hide Frames, Join, Legal, Tail;
    r.DispatchedIsPrefix();
    FramesGrow(r.received, stream[pos..]);
    assert stream == r.received + stream[pos..];
  }

  /** If the whole stream has come and not all of it was dispatched, the buffer begins with a message. */
  lemma AllCome(stream: Bytes, pos: nat, dispatched: seq<Bytes>, front: Bytes, chunk: Bytes)
    requires pos + |chunk| <= |stream| && chunk == stream[pos..pos + |chunk|]
    requires AllMessages(dispatched) && stream[..pos] == Join(dispatched) + front
    ensures pos + |chunk| == |stream| && |dispatched| < |Frames(stream)| ==> Frames(front + chunk) != []
  {
    if pos + |chunk| == |stream| {
      assert stream == Join(dispatched) + front + chunk;
      Assoc(Join(dispatched), front, chunk);
      FramesAppend(dispatched, front + chunk);
    }
  }

  lemma LegalRest(dispatched: seq<Bytes>, front: Bytes, chunk: Bytes)
    requires AllMessages(dispatched) && Legal(Join(dispatched) + front + chunk)
    ensures Legal(front + chunk)
  {
    assert Join(dispatched) + front + chunk == Join(dispatched) + (front + chunk);
    FramesAppend(dispatched, front + chunk);
  }

  /** What the first frames of the buffer being dispatched means for the whole connection. */
  lemma TurnKeeps(before: seq<Bytes>, front: Bytes, chunk: Bytes, data: Bytes, dispatched: seq<Bytes>, n: nat,
                  rest: Bytes)
    requires data == front + chunk && AllMessages(before)
    requires n <= |Frames(data)| && dispatched == before + Frames(data)[..n]
    requires |Join(Frames(data)[..n])| <= |data| && rest == data[|Join(Frames(data)[..n])|..]
    ensures AllMessages(dispatched)
    ensures Join(before) + front + chunk == Join(dispatched) + rest
  {
    FramesSplit(data);
    var k := FramesPrefix(data, n);
    var whole := Frames(data)[..n];
    JoinAppend(before, whole);
    Assoc(Join(before), front, chunk);
    Assoc(Join(before), Join(whole), rest);
  }

  /** If there are messages left, less is left than the last one dispatched was long. */
  lemma LastDispatched(before: seq<Bytes>, frames: seq<Bytes>, size: nat, n: nat)
    requires StopsAt(frames, size, n)
    ensures frames[n..] == [] <==> n == |frames|
    ensures n < |frames| ==>
              var dispatched := before + frames[..n];
              dispatched != [] && size - |Join(frames[..n])| < |dispatched[|dispatched| - 1]|
  {
  }

  lemma ShortTail(dispatched: seq<Bytes>, front: Bytes, chunk: Bytes)
    requires AllMessages(dispatched) && |front + chunk| < 4
    ensures Tail(Join(dispatched) + front + chunk) == front + chunk
  {
    Assoc(Join(dispatched), front, chunk);
    FramesAppend(dispatched, front + chunk);
  }

  lemma NotAllMessages(ms: seq<Bytes>, i: nat)
    requires i < |ms| && !Message(ms[i])
    ensures !AllMessages(ms)
  {
  }

  /** The loop ended although no message was cut off: nothing is left that could be one. */
  lemma NoFrameLeft(frames: seq<Bytes>, n: nat, rest: Bytes)
    requires n <= |frames| && frames[n..] == Frames(rest)
    ensures |rest| < 4 || LengthField(rest) > |rest| ==> n == |frames|
  {
  }

  lemma Slices(a: array<Byte>, lo: nat, hi: nat, k: nat)
    requires lo + k <= hi <= a.Length
    ensures a[lo..hi][..k] == a[lo..lo + k] && a[lo..hi][k..] == a[lo + k..hi]
  {
  }

  lemma NoFrameYet(frames: seq<Bytes>, size: nat)
    ensures GoesUpTo(frames, size, 0)
    ensures frames[..0] == [] && frames[0..] == frames && Join(frames[..0]) == []
  {
  }

  lemma StepFrames(frames: seq<Bytes>, n: nat, rest: Bytes, size: nat)
    requires n <= |frames| && frames[n..] == Frames(rest)
    requires |rest| >= 4 && size == LengthField(rest) && Legal(rest) && size <= |rest|
    ensures size >= HEADER && Legal(rest[size..])
    ensures n < |frames| && frames[n] == rest[..size] && frames[..n + 1] == frames[..n] + [rest[..size]]
    ensures frames[n + 1..] == Frames(rest[size..])
    ensures |Join(frames[..n + 1])| == |Join(frames[..n])| + size
  {
    assert frames[n..][0] == frames[n] && frames[n..][1..] == frames[n + 1..];
    assert frames[..n + 1] == frames[..n] + [frames[n]];
    JoinSnoc(frames[..n], frames[n]);
  }

  // ---- a stale length

  /** A message of 256 bytes: the low byte of its length is 0. */
  function Long(): Bytes { [1, 2, 1, 0] + seq(252, _ => 0) }

  /**
   * The case that `Turn` excludes does occur: a message of 256 bytes, and then three bytes of a next one.  With the
   * byte that the first message left behind them they look like a message of length 0.
   */
  method StaleLengthIsRead() returns (good: bool)
    ensures !good
  {
    var r := new Receiver();
    var m, part: Bytes := Long(), [1, 2, 0];
    LongIsMessage();
    assert r.buf[..r.end] + m == m && [] + m == m;
    good := r.Turn(m);
    r.DispatchedIsPrefix();
    assert r.dispatched == [m];
    JoinOne(m);
    assert r.end == 0 && r.buf[..r.end] + part == part;
    assert r.buf[3] == m[3] by { assert r.buf[3] == r.buf[r.end..][3]; }
    assert LengthField(r.buf[..r.end] + part + r.buf[r.end + 3..4]) == 0;
    good := r.Turn(part);
  }

  lemma LongIsMessage()
    ensures Message(Long()) && |Long()| == 256 && Long()[3] == 0
    ensures Frames(Long()) == [Long()] && Legal(Long())
  {
    var m := Long();
    assert LengthField(m) == 256;
    assert m[..256] == m && m[256..] == [];
    assert Frames([]) == [];
  }
}
