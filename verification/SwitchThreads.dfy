/**
 * The threads of one switch as interleaved steps: the batch thread, the operator who calls `start_` and `stop_`,
 * and any number of threads that send through the controller socket (the communication thread, and those of
 * other switches that relay packets).  `mutxBatchRun` is locked and unlocked by different threads, so it is a
 * binary semaphore: the gate.
 */
module SwitchThreads {
  import opened Wrappers
  import opened Framing

  /** A thread at the socket: without a message, waiting for the lock, or with `done` bytes of it written. */
  datatype Sender = Quiet | Waiting(m: Bytes) | Sending(m: Bytes, done: nat)

  /** The batch thread (switch.hpp:615-673). */
  datatype BatchPc =
    | Starting              // before its first lock
    | AtGate                // about to lock the gate
    | InGate                // it holds the gate
    | Passed                // it has unlocked the gate again
    | AtSocket(s: Sender)   // it has a packet to send

  /** The operator (switch.hpp:1318-1352): the gate is his, he has given it away, or he wants it back. */
  datatype OperatorPc = Stopped | Running | Stopping

  datatype Thread = Batch | Other(id: nat)

  datatype State = State(
    gate: bool,                // locked
    batch: BatchPc,
    operator: OperatorPc,
    others: map<nat, Sender>,
    holder: Option<Thread>,    // of mutxSemaphoreControllerSocket
    wire: Bytes,               // what went over the connection
    sent: seq<Bytes>           // the messages whose sending is finished, in the order of the lock
  )

  datatype Action =
    | FirstLock | LockGate | UnlockGate | Skip       // the batch thread
    | Start | CallStop | ReturnFromStop              // the operator
    | Prepare(t: Thread, m: Bytes) | LockSocket(t: Thread) | SendByte(t: Thread) | UnlockSocket(t: Thread)

  function Init(ids: set<nat>): State {
    State(false, Starting, Stopped, map i | i in ids :: Quiet, None, [], [])
  }

  /** The thread's place at the socket. */
  function SenderOf(s: State, t: Thread): Sender {
    match t
    case Batch => if s.batch.AtSocket? then s.batch.s else Quiet
    case Other(id) => if id in s.others then s.others[id] else Quiet
  }

  /** The thread exists and is where it prepares a message. */
  predicate CanPrepare(s: State, t: Thread) {
    match t
    case Batch => s.batch.Passed?
    case Other(id) => id in s.others && s.others[id].Quiet?
  }

  function Put(s: State, t: Thread, to: Sender): State {
    match t
    case Batch => s.(batch := if to.Quiet? then AtGate else AtSocket(to))
    case Other(id) => s.(others := s.others[id := to])
  }

  /** A step can be taken: the thread is there, and a lock it takes is free. */
  predicate Enabled(s: State, a: Action) {
    match a
    case FirstLock => s.batch.Starting? && !s.gate
    case LockGate => s.batch.AtGate? && !s.gate
    case UnlockGate => s.batch.InGate?
    case Skip => s.batch.Passed?
    case Start => s.operator.Stopped? && !s.batch.Starting?
    case CallStop => s.operator.Running?
    case ReturnFromStop => s.operator.Stopping? && !s.gate
    case Prepare(t, m) => CanPrepare(s, t) && Message(m)
    case LockSocket(t) => SenderOf(s, t).Waiting? && s.holder.None?
    case SendByte(t) => SenderOf(s, t).Sending? && SenderOf(s, t).done < |SenderOf(s, t).m|
    case UnlockSocket(t) => SenderOf(s, t).Sending? && SenderOf(s, t).done == |SenderOf(s, t).m|
  }

  function Apply(s: State, a: Action): State
    requires Enabled(s, a)
  {
    match a
    case FirstLock => s.(gate := true, batch := AtGate)
    case LockGate => s.(gate := true, batch := InGate)
    case UnlockGate => s.(gate := false, batch := Passed)
    case Skip => s.(batch := AtGate)
    case Start => s.(gate := false, operator := Running)
    case CallStop => s.(operator := Stopping)
    case ReturnFromStop => s.(gate := true, operator := Stopped)
    case Prepare(t, m) => Put(s, t, Waiting(m))
    case LockSocket(t) => Put(s, t, Sending(SenderOf(s, t).m, 0)).(holder := Some(t))
    case SendByte(t) =>
      var x := SenderOf(s, t);
      Put(s, t, Sending(x.m, x.done + 1)).(wire := s.wire + [x.m[x.done]])
    case UnlockSocket(t) =>
      Put(s, t, Quiet).(holder := None, sent := s.sent + [SenderOf(s, t).m])
  }

  // ---- the invariant

  /** The gate is locked by the operator while he has stopped the batch, or by the batch thread passing it. */
  predicate GateInv(s: State) {
    s.gate == (s.batch.InGate? || (s.operator.Stopped? && !s.batch.Starting?)) &&
    (s.batch.InGate? ==> !s.operator.Stopped?) && (s.batch.Starting? ==> s.operator.Stopped?)
  }

  ghost predicate Whole(x: Sender) { !x.Quiet? ==> Message(x.m) && (x.Sending? ==> x.done <= |x.m|) }

  /** What the holder of the socket lock has written of its message. */
  function Part(s: State): Bytes {
    if s.holder.None? then [] else
      var x := SenderOf(s, s.holder.value);
      if x.Sending? && x.done <= |x.m| then x.m[..x.done] else []
  }

  /** The holder of the socket lock, and nobody else, has a message half written. */
  ghost predicate SocketInv(s: State) {
    (forall t: Thread :: Whole(SenderOf(s, t)) && (SenderOf(s, t).Sending? <==> s.holder == Some(t))) &&
    (s.batch.AtSocket? ==> !s.batch.s.Quiet?) &&
    AllMessages(s.sent) && s.wire == Join(s.sent) + Part(s)
  }

  ghost predicate Inv(s: State) { GateInv(s) && SocketInv(s) }

  lemma InitInv(ids: set<nat>)
    ensures Inv(Init(ids))
  {
    assert Join([]) + [] == [];
  }

  lemma GateStep(s: State, a: Action)
    requires GateInv(s) && Enabled(s, a)
    ensures GateInv(Apply(s, a))
  {
  }

  lemma SenderOfPut(s: State, t: Thread, to: Sender)
    requires SenderOf(s, t) != Quiet || CanPrepare(s, t)
    ensures forall u: Thread :: SenderOf(Put(s, t, to), u) == if u == t then to else SenderOf(s, u)
  {
  }

  lemma SendByteStep(s: State, t: Thread)
    requires SocketInv(s) && Enabled(s, SendByte(t))
    ensures SocketInv(Apply(s, SendByte(t)))
  {
    var x := SenderOf(s, t);
    SenderOfPut(s, t, Sending(x.m, x.done + 1));
    assert x.m[..x.done + 1] == x.m[..x.done] + [x.m[x.done]];
    assert Join(s.sent) + (x.m[..x.done] + [x.m[x.done]]) == (Join(s.sent) + x.m[..x.done]) + [x.m[x.done]];
    assert forall u: Thread ::
        SenderOf(Apply(s, SendByte(t)), u) == SenderOf(Put(s, t, Sending(x.m, x.done + 1)), u);
  }

  lemma UnlockSocketStep(s: State, t: Thread)
    requires SocketInv(s) && Enabled(s, UnlockSocket(t))
    ensures SocketInv(Apply(s, UnlockSocket(t)))
  {
    var x := SenderOf(s, t);
    SenderOfPut(s, t, Quiet);
    JoinSnoc(s.sent, x.m);
    assert x.m[..x.done] == x.m;
    assert Join(s.sent + [x.m]) + [] == Join(s.sent + [x.m]);
    assert forall u: Thread :: SenderOf(Apply(s, UnlockSocket(t)), u) == SenderOf(Put(s, t, Quiet), u);
  }

  lemma LockSocketStep(s: State, t: Thread)
    requires SocketInv(s) && Enabled(s, LockSocket(t))
    ensures SocketInv(Apply(s, LockSocket(t)))
  {
    var to := Sending(SenderOf(s, t).m, 0);
    SenderOfPut(s, t, to);
    assert SenderOf(s, t).m[..0] == [];
    assert forall u: Thread :: SenderOf(Apply(s, LockSocket(t)), u) == SenderOf(Put(s, t, to), u);
  }

  lemma SocketStep(s: State, a: Action)
    requires SocketInv(s) && Enabled(s, a)
    ensures SocketInv(Apply(s, a))
  {
    match a
    case Prepare(t, m) => SenderOfPut(s, t, Waiting(m));
    case LockSocket(t) => LockSocketStep(s, t);
    case SendByte(t) => SendByteStep(s, t);
    case UnlockSocket(t) => UnlockSocketStep(s, t);
    case FirstLock | LockGate | UnlockGate | Skip | Start | CallStop | ReturnFromStop =>
      assert forall t: Thread :: SenderOf(Apply(s, a), t) == SenderOf(s, t);
  }

  // ---- runs

  /** The state after a sequence of steps; None if one of them cannot be taken. */
  function After(s: State, steps: seq<Action>): Option<State>
    decreases |steps|
  {
    if steps == [] then Some(s)
    else if Enabled(s, steps[0]) then After(Apply(s, steps[0]), steps[1..])
    else None
  }

  lemma {:induction false} InvAfter(s: State, steps: seq<Action>)
    requires Inv(s) && After(s, steps).Some?
    ensures Inv(After(s, steps).value)
    decreases |steps|
  {
    if steps == [] {
    } else {
      GateStep(s, steps[0]);
      SocketStep(s, steps[0]);
      InvAfter(Apply(s, steps[0]), steps[1..]);
    }
  }

  /** The invariant holds in every run. */
  lemma InvAlways(ids: set<nat>, steps: seq<Action>)
    requires After(Init(ids), steps).Some?
    ensures Inv(After(Init(ids), steps).value)
  {
    InitInv(ids);
    InvAfter(Init(ids), steps);
  }

  // ---- the wire

  /**
   * In every run, cutting the bytes on the connection into messages gives the messages that were sent, whole and in
   * the order in which their senders held the lock, whatever the interleaving.
   */
  lemma WireIsFramed(ids: set<nat>, steps: seq<Action>)
    requires After(Init(ids), steps).Some?
    ensures var s := After(Init(ids), steps).value;
            Frames(s.wire) == s.sent + if Message(Part(s)) then [Part(s)] else []
  {
    InvAlways(ids, steps);
    var s := After(Init(ids), steps).value;
    FramesAppend(s.sent, Part(s));
    if s.holder.Some? {
      var t := s.holder.value;
      var x := SenderOf(s, t);
      assert Whole(x) && x.Sending?;
      PartOfMessage(x.m, x.done);
      assert Part(s) == x.m[..x.done];
    } else {
      assert Part(s) == [];
    }
    assert s.sent + [] == s.sent;
  }

  /** A message cut short has no frame. */
  lemma PartOfMessage(m: Bytes, n: nat)
    requires Message(m) && n <= |m|
    ensures Message(m[..n]) <==> n == |m|
    ensures Frames(m[..n]) == if n == |m| then [m[..n]] else []
  {
    if n == |m| {
      assert m[..n] == m && m[|m|..] == [];
    } else if n >= 4 {
      assert LengthField(m[..n]) == LengthField(m);
    }
  }

  // ---- the gate

  /** The packets the batch thread finishes in a run. */
  function BatchPackets(steps: seq<Action>): nat {
    if steps == [] then 0 else (if steps[0] == UnlockSocket(Batch) then 1 else 0) + BatchPackets(steps[1..])
  }

  /** A packet that the batch thread was let through for. */
  function UnderWay(s: State): nat { if s.batch.Passed? || s.batch.AtSocket? then 1 else 0 }

  /**
   * From when `stop_` has returned until `start_` is called again the batch thread sends at most one packet, and
   * none if it was not past the gate when `stop_` got the lock.
   */
  lemma {:induction false} StoppedBatch(s: State, steps: seq<Action>)
    requires GateInv(s) && s.operator.Stopped? && Start !in steps && After(s, steps).Some?
    ensures BatchPackets(steps) + UnderWay(After(s, steps).value) <= UnderWay(s) <= 1
    ensures After(s, steps).value.operator.Stopped?
    decreases |steps|
  {
    if steps == [] {
    } else {
      var next := Apply(s, steps[0]);
      GateStep(s, steps[0]);
      assert steps[0] in steps && (forall a :: a in steps[1..] ==> a in steps);
      assert next.operator.Stopped?;
      StoppedBatch(next, steps[1..]);
    }
  }

  /** The batch thread can pass the gate exactly if the operator has not stopped it. */
  lemma GateOpens(s: State)
    requires GateInv(s) && s.batch.AtGate?
    ensures Enabled(s, LockGate) <==> !s.operator.Stopped?
  {
  }

  /** The thread whose step it is. */
  function Actor(a: Action): Option<Thread> {
    match a
    case FirstLock | LockGate | UnlockGate | Skip => Some(Batch)
    case Start | CallStop | ReturnFromStop => None
    case Prepare(t, _) => Some(t)
    case LockSocket(t) => Some(t)
    case SendByte(t) => Some(t)
    case UnlockSocket(t) => Some(t)
  }

  /**
   * Nothing but a stopped gate keeps the batch thread: it can take a step, or the one that holds the socket can.
   */
  lemma BatchGoesOn(s: State) returns (a: Action)
    requires Inv(s) && !(s.operator.Stopped? && s.batch.AtGate?)
    ensures Enabled(s, a) && Actor(a).Some?
    ensures Actor(a) == Some(Batch) || (SenderOf(s, Batch).Waiting? && Actor(a) == s.holder)
  {
    match s.batch
    case Starting => a := FirstLock;
    case AtGate => a := LockGate;
    case InGate => a := UnlockGate;
    case Passed => a := Skip;
    case AtSocket(x) =>
      assert Whole(SenderOf(s, Batch));
      if x.Waiting? && s.holder.None? {
        a := LockSocket(Batch);
      } else {
        var t := if x.Waiting? then s.holder.value else Batch;
        var y := SenderOf(s, t);
        assert Whole(y) && y.Sending?;
        a := if y.done < |y.m| then SendByte(t) else UnlockSocket(t);
      }
  }

  /** A `stop_` that has been called returns: the gate is free, or the batch thread frees it with its next step. */
  lemma StopReturns(s: State)
    requires GateInv(s) && s.operator.Stopping?
    ensures !Enabled(s, ReturnFromStop) ==>
              Enabled(s, UnlockGate) && Enabled(Apply(s, UnlockGate), ReturnFromStop)
  {
  }

  /** The steps that are left to the thread in the socket. */
  function Rest(t: Thread, bytes: nat): seq<Action> {
    if bytes == 0 then [UnlockSocket(t)] else [SendByte(t)] + Rest(t, bytes - 1)
  }

  /** Whoever holds the socket lock can go on, and gives it back after the rest of its message. */
  lemma {:induction false} SocketIsFreed(s: State, t: Thread)
    requires SocketInv(s) && s.holder == Some(t)
    ensures SenderOf(s, t).Sending? && SenderOf(s, t).done <= |SenderOf(s, t).m|
    ensures var end := After(s, Rest(t, |SenderOf(s, t).m| - SenderOf(s, t).done)); end.Some? && end.value.holder.None?
    decreases |SenderOf(s, t).m| - SenderOf(s, t).done
  {
    var x := SenderOf(s, t);
    assert Whole(x) && x.Sending?;
    if x.done < |x.m| {
      var next := Apply(s, SendByte(t));
      SendByteStep(s, t);
      SenderOfPut(s, t, Sending(x.m, x.done + 1));
      SocketIsFreed(next, t);
      assert Rest(t, |x.m| - x.done)[1..] == Rest(t, |x.m| - x.done - 1);
    } else {
      assert [UnlockSocket(t)][1..] == [];
    }
  }
}
