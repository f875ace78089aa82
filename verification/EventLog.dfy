/**
 * What the statistics of config.hpp are statistics of: the log of packets sent and answers received.
 * Everything here is a function of that log.
 */
module EventLog {
  import opened Samples

  const TIMESTAMP_COUNT: nat := 200000
  const USPS: real := 1000000.0  // microseconds per second

  /** An answer carries the id the packet was given, between 1 and TIMESTAMP_COUNT. */
  datatype Event = Sent(at: real) | Received(id: nat, at: real)

  type Log = seq<Event>

  function Before(log: Log): Log requires log != [] { log[..|log| - 1] }

  function Last(log: Log): Event requires log != [] { log[|log| - 1] }

  function LastTime(log: Log, start: real): real { if log == [] then start else Last(log).at }

  /** The clock does not run backwards, is positive, and ids are in range. */
  predicate Possible(log: Log, start: real) {
    if log == [] then start > 0.0
    else Possible(Before(log), start) && Last(log).at >= LastTime(Before(log), start) &&
         (Last(log).Received? ==> 1 <= Last(log).id <= TIMESTAMP_COUNT)
  }

  function SentCount(log: Log): nat {
    if log == [] then 0 else SentCount(Before(log)) + if Last(log).Sent? then 1 else 0
  }

  function ReceivedCount(log: Log): nat {
    if log == [] then 0 else ReceivedCount(Before(log)) + if Last(log).Received? then 1 else 0
  }

  /** The counters count the events of their kind. */
  lemma {:induction false} EventsAreCounted(log: Log)
    ensures SentCount(log) == |set i: nat | i < |log| && log[i].Sent?|
    ensures SentCount(log) + ReceivedCount(log) == |log|
  {
    var sent := set i: nat | i < |log| && log[i].Sent?;
    if log == [] {
      assert sent == {};
    } else {
      var n, before := |log| - 1, Before(log);
      EventsAreCounted(before);
      assert sent == (set i: nat | i < n && before[i].Sent?) + if Last(log).Sent? then {n} else {};
    }
  }

  // ---- the ring of timestamps

  /** The place in the ring for packet number `s`; the id on the wire is one more. */
  function Place(s: nat): nat { s % TIMESTAMP_COUNT }

  /** What place `i` holds: the time of the last packet sent there, or 0 after its answer. */
  function Slot(log: Log, i: nat): real {
    if log == [] then 0.0
    else if Last(log).Sent? then (if Place(SentCount(log)) == i then Last(log).at else Slot(Before(log), i))
    else if Last(log).id == i + 1 then 0.0
    else Slot(Before(log), i)
  }

  /** An answer with this id finds a time stamp. */
  predicate Matches(log: Log, id: nat) { id > 0 && Slot(log, id - 1) != 0.0 }

  /** The next packet overwrites the time stamp of one that was not answered. */
  predicate Overruns(log: Log) { Slot(log, Place(SentCount(log) + 1)) != 0.0 }

  /** The round trip times of the answers that found a time stamp. */
  function Rtts(log: Log): seq<real> {
    if log == [] then []
    else
      var l := Last(log);
      if l.Received? && Matches(Before(log), l.id) then Rtts(Before(log)) + [l.at - Slot(Before(log), l.id - 1)]
      else Rtts(Before(log))
  }

  function Missed(log: Log): nat {
    if log == [] then 0
    else Missed(Before(log)) + if Last(log).Received? && !Matches(Before(log), Last(log).id) then 1 else 0
  }

  function Overwritten(log: Log): nat {
    if log == [] then 0 else Overwritten(Before(log)) + if Last(log).Sent? && Overruns(Before(log)) then 1 else 0
  }

  /** What one more packet does. */
  lemma AfterSent(log: Log, at: real, start: real)
    requires Possible(log, start) && at >= LastTime(log, start)
    ensures var next := log + [Sent(at)];
            Possible(next, start) && SentCount(next) == SentCount(log) + 1 &&
            ReceivedCount(next) == ReceivedCount(log) && Rtts(next) == Rtts(log) &&
            forall i :: Slot(next, i) == if i == Place(SentCount(log) + 1) then at else Slot(log, i)
  {
    assert Before(log + [Sent(at)]) == log;
  }

  /** What one more answer does. */
  lemma AfterReceived(log: Log, id: nat, at: real, start: real)
    requires Possible(log, start) && at >= LastTime(log, start) && 1 <= id <= TIMESTAMP_COUNT
    ensures var next := log + [Received(id, at)];
            Possible(next, start) && SentCount(next) == SentCount(log) &&
            ReceivedCount(next) == ReceivedCount(log) + 1 &&
            Rtts(next) == (if Matches(log, id) then Rtts(log) + [at - Slot(log, id - 1)] else Rtts(log)) &&
            forall i :: Slot(next, i) == if i == id - 1 then 0.0 else Slot(log, i)
  {
    hide Slot, Rtts, Matches;
    SlotsAfterAnswer(log, id, at);
    RttsAfterAnswer(log, id, at);
    assert Before(log + [Received(id, at)]) == log;
  }

  lemma RttsAfterAnswer(log: Log, id: nat, at: real)
    requires id > 0
    ensures Rtts(log + [Received(id, at)]) ==
            if Matches(log, id) then Rtts(log) + [at - Slot(log, id - 1)] else Rtts(log)
  {
    hide Slot, Rtts, Matches;
    var next := log + [Received(id, at)];
    assert Before(next) == log && Last(next) == Received(id, at);
    LastRtt(next);
  }

  lemma LastRtt(log: Log)
    requires log != [] && Last(log).Received? && Last(log).id > 0
    ensures Rtts(log) ==
            if Matches(Before(log), Last(log).id)
            then Rtts(Before(log)) + [Last(log).at - Slot(Before(log), Last(log).id - 1)] else Rtts(Before(log))
  {
    hide Slot;
  }

  lemma SlotsAfterAnswer(log: Log, id: nat, at: real)
    requires id > 0
    ensures forall i :: Slot(log + [Received(id, at)], i) == if i == id - 1 then 0.0 else Slot(log, i)
  {
    hide SentCount, Place;
    assert Before(log + [Received(id, at)]) == log;
  }

  // ---- the packets that are out

  /**
   * The packets that wait for an answer, with the time they were sent at.  A packet is given up when the one
   * TIMESTAMP_COUNT behind it is sent; an answer belongs to the packet on the road with its id.
   */
  function OnTheRoad(log: Log): map<nat, real> {
    if log == [] then map[]
    else
      var m := OnTheRoad(Before(log));
      if Last(log).Sent? then
        var s := SentCount(log);
        (map p | p in m && p + TIMESTAMP_COUNT != s :: m[p])[s := Last(log).at]
      else map p | p in m && Place(p) + 1 != Last(log).id :: m[p]
  }

  lemma {:induction false} RoadIsRecent(log: Log, p: nat)
    requires p in OnTheRoad(log)
    ensures 0 < p <= SentCount(log) < p + TIMESTAMP_COUNT
  {
    if p in OnTheRoad(Before(log)) { RoadIsRecent(Before(log), p); }
  }

  /** Two packets on the road have different places. */
  lemma PlacesDiffer(log: Log, p: nat, q: nat)
    requires p in OnTheRoad(log) && q in OnTheRoad(log) && Place(p) == Place(q)
    ensures p == q
  {
    RoadIsRecent(log, p);
    RoadIsRecent(log, q);
    SamePlace(p, q);
  }

  lemma SamePlace(p: nat, q: nat)
    requires Place(p) == Place(q) && p < q + TIMESTAMP_COUNT && q < p + TIMESTAMP_COUNT
    ensures p == q
  {
  }

  /** Of the packets sent at one place only the last one can be on the road. */
  lemma SameOrGivenUp(p: nat, s: nat)
    requires Place(p) == Place(s) && p < s <= p + TIMESTAMP_COUNT
    ensures p + TIMESTAMP_COUNT == s
  {
  }

  lemma {:induction false} TimesArePositive(log: Log, start: real)
    requires Possible(log, start)
    ensures LastTime(log, start) > 0.0
  {
    if log == [] {
    } else {
      TimesArePositive(Before(log), start);
    }
  }

  /** The ring refines the map: a packet on the road has its time at its place. */
  lemma {:induction false} RoadIsInRing(log: Log, start: real, p: nat)
    requires Possible(log, start) && p in OnTheRoad(log)
    ensures Slot(log, Place(p)) == OnTheRoad(log)[p] && OnTheRoad(log)[p] > 0.0
  {
    var before := Before(log);
    TimesArePositive(log, start);
    if Last(log).Sent? {
      var s := SentCount(log);
      if p != s {
        RoadIsRecent(before, p);
        if Place(p) == Place(s) { SameOrGivenUp(p, s); }
        RoadIsInRing(before, start, p);
      }
    } else {
      RoadIsInRing(before, start, p);
    }
  }

  /** And every time in the ring is that of a packet on the road with that place. */
  lemma {:induction false} RingIsOnTheRoad(log: Log, start: real, i: nat) returns (p: nat)
    requires Possible(log, start) && Slot(log, i) != 0.0
    ensures p in OnTheRoad(log) && Place(p) == i
  {
    var before := Before(log);
    if Last(log).Sent? && Place(SentCount(log)) == i {
      p := SentCount(log);
    } else {
      p := RingIsOnTheRoad(before, start, i);
      if Last(log).Sent? && p + TIMESTAMP_COUNT == SentCount(log) { assert false; }
    }
  }

  /** The time of the `p`-th packet. */
  function SendTime(log: Log, p: nat): real
    requires 0 < p <= SentCount(log)
  {
    if Last(log).Sent? && p == SentCount(log) then Last(log).at else SendTime(Before(log), p)
  }

  lemma {:induction false} RoadHasSendTimes(log: Log, p: nat)
    requires p in OnTheRoad(log)
    ensures 0 < p <= SentCount(log) && OnTheRoad(log)[p] == SendTime(log, p)
  {
    RoadIsRecent(log, p);
    if !(Last(log).Sent? && p == SentCount(log)) { RoadHasSendTimes(Before(log), p); }
  }

  /**
   * An answer is matched exactly if a packet with its id is on the road; there is only one, and the round
   * trip time is taken from when that packet was sent.
   */
  lemma MatchedRoundTrip(log: Log, start: real, id: nat, at: real)
    requires Possible(log + [Received(id, at)], start)
    ensures Matches(log, id) <==> exists p :: p in OnTheRoad(log) && Place(p) + 1 == id
    ensures forall p, q ::
              p in OnTheRoad(log) && Place(p) + 1 == id && q in OnTheRoad(log) && Place(q) + 1 == id ==> p == q
    ensures forall p :: p in OnTheRoad(log) && Place(p) + 1 == id ==>
              0 < p <= SentCount(log) &&
              Rtts(log + [Received(id, at)]) == Rtts(log) + [at - SendTime(log, p)]
  {
    hide OnTheRoad, Slot, SentCount, SendTime, Place;
    assert Before(log + [Received(id, at)]) == log;
    if Matches(log, id) {
      var p := RingIsOnTheRoad(log, start, id - 1);
    }
    forall p | p in OnTheRoad(log) && Place(p) + 1 == id
      ensures Matches(log, id) && 0 < p <= SentCount(log)
      ensures Rtts(log + [Received(id, at)]) == Rtts(log) + [at - SendTime(log, p)]
    {
      RoadIsInRing(log, start, p);
      RoadHasSendTimes(log, p);
    }
    forall p, q | p in OnTheRoad(log) && Place(p) + 1 == id && q in OnTheRoad(log) && Place(q) + 1 == id
      ensures p == q
    {
      PlacesDiffer(log, p, q);
    }
  }

  /** None of the events is an answer with this id. */
  predicate NoAnswer(events: Log, id: nat) {
    forall k :: 0 <= k < |events| ==> events[k].Received? ==> events[k].id != id
  }

  /** A packet stays on the road while it is not answered and the ring has not gone round. */
  lemma {:induction false} StaysOnTheRoad(log: Log, between: Log, p: nat)
    requires p in OnTheRoad(log) && NoAnswer(between, Place(p) + 1)
    requires SentCount(log + between) < p + TIMESTAMP_COUNT
    ensures p in OnTheRoad(log + between) && OnTheRoad(log + between)[p] == OnTheRoad(log)[p]
  {
    if between == [] {
      assert log + between == log;
    } else {
      var front := Before(between);
      assert Before(log + between) == log + front;
      assert Last(log + between) == between[|between| - 1];
      StaysOnTheRoad(log, front, p);
      RoadIsRecent(log + front, p);
    }
  }

  /**
   * A packet is sent, other things happen, but no answer to it and less than TIMESTAMP_COUNT packets, and then its
   * answer comes: that adds one round trip time, which is the time from the one to the other.
   */
  lemma RoundTripIsMeasured(log: Log, sentAt: real, between: Log, at: real, start: real)
    requires var p := SentCount(log + [Sent(sentAt)]);
             NoAnswer(between, Place(p) + 1) && SentCount(log + [Sent(sentAt)] + between) < p + TIMESTAMP_COUNT
    requires Possible(log + [Sent(sentAt)] + between + [Received(Place(SentCount(log) + 1) + 1, at)], start)
    ensures var all := log + [Sent(sentAt)] + between;
            Rtts(all + [Received(Place(SentCount(log) + 1) + 1, at)]) == Rtts(all) + [at - sentAt]
  {
    var sent, all := log + [Sent(sentAt)], log + [Sent(sentAt)] + between;
    assert Before(sent) == log;
    var p := SentCount(log) + 1;
    assert p in OnTheRoad(sent) && OnTheRoad(sent)[p] == sentAt;
    hide OnTheRoad, SentCount, Slot, Place, Possible, SendTime, Rtts;
    StaysOnTheRoad(sent, between, p);
    RoadHasSendTimes(all, p);
    MatchedRoundTrip(all, start, Place(p) + 1, at);
  }

  /** The next packet overruns exactly if the one TIMESTAMP_COUNT before it is still on the road. */
  lemma OverrunIsGivingUp(log: Log, start: real)
    requires Possible(log, start)
    ensures Overruns(log) <==>
            exists p :: p in OnTheRoad(log) && p + TIMESTAMP_COUNT == SentCount(log) + 1
  {
    hide Slot, OnTheRoad, Possible, SentCount;
    var s := SentCount(log) + 1;
    if Overruns(log) {
      var p := RingIsOnTheRoad(log, start, Place(s));
      RoadIsRecent(log, p);
      SameOrGivenUp(p, s);
    }
    forall p | p in OnTheRoad(log) && p + TIMESTAMP_COUNT == s ensures Overruns(log) {
      NextLap(p, s);
      RoadIsInRing(log, start, p);
    }
  }

  lemma NextLap(p: nat, s: nat)
    requires p + TIMESTAMP_COUNT == s
    ensures Place(p) == Place(s)
  {
  }

  /** The same bookkeeping without a ring: no packet is ever given up. */
  function Unlimited(log: Log): map<nat, real> {
    if log == [] then map[]
    else
      var m := Unlimited(Before(log));
      if Last(log).Sent? then m[SentCount(log) := Last(log).at]
      else map p | p in m && Place(p) + 1 != Last(log).id :: m[p]
  }

  /** As long as nothing was overwritten the ring does what an unlimited table would do. */
  lemma {:induction false} RingIsUnlimited(log: Log, start: real)
    requires Possible(log, start) && Overwritten(log) == 0
    ensures OnTheRoad(log) == Unlimited(log)
  {
    if log == [] {
    } else {
      RingIsUnlimited(Before(log), start);
      if Last(log).Sent? {
        var m, s := OnTheRoad(Before(log)), SentCount(log);
        OverrunIsGivingUp(Before(log), start);
        assert (map p | p in m && p + TIMESTAMP_COUNT != s :: m[p]) == m;
      }
    }
  }

  // ---- conservation

  function NonZeroSlots(log: Log): set<nat> { set i: nat | i < TIMESTAMP_COUNT && Slot(log, i) != 0.0 }

  /** Every packet was answered, or its time stamp is in the ring, or it was overwritten. */
  lemma {:induction false} PacketsAreConserved(log: Log, start: real)
    requires Possible(log, start)
    ensures SentCount(log) == |Rtts(log)| + |NonZeroSlots(log)| + Overwritten(log)
  {
    if log == [] {
      assert NonZeroSlots(log) == {};
    } else {
      hide NonZeroSlots, Possible, Slot, Matches, Overruns;
      PacketsAreConserved(Before(log), start);
      TimesArePositive(log, start);
      if Last(log).Sent? { SlotIsFilled(log, start); } else { SlotIsCleared(log, start); }
    }
  }

  lemma SlotIsFilled(log: Log, start: real)
    requires Possible(log, start) && log != [] && Last(log).Sent? && Last(log).at > 0.0
    ensures NonZeroSlots(log) == NonZeroSlots(Before(log)) + {Place(SentCount(log))}
    ensures Place(SentCount(log)) in NonZeroSlots(Before(log)) <==> Overruns(Before(log))
  {
    assert Place(SentCount(log)) < TIMESTAMP_COUNT;
  }

  lemma SlotIsCleared(log: Log, start: real)
    requires Possible(log, start) && log != [] && Last(log).Received?
    ensures NonZeroSlots(log) == NonZeroSlots(Before(log)) - {Last(log).id - 1}
    ensures Last(log).id - 1 in NonZeroSlots(Before(log)) <==> Matches(Before(log), Last(log).id)
  {
  }

  /** Every answer was matched or missed. */
  lemma {:induction false} AnswersAreConserved(log: Log)
    ensures ReceivedCount(log) == |Rtts(log)| + Missed(log)
  {
    if log == [] {
    } else {
      AnswersAreConserved(Before(log));
    }
  }
}
