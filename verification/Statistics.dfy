/**
 * The statistics part of the class `config` of config.hpp.  `long double` is `real`, counters are `nat`, and the
 * clock is a parameter: one reading per call.  The four fields of a series of samples and the counters of the
 * current window are records.
 */
module Statistics {
  import opened Samples
  import opened EventLog
  import opened TimeWindows

  class Config {
    const deltaT: real
    const stamps: array<real>  // sent_packets_timestamp2

    var tsStart: real
    var tsLastSent: real
    var tsLastReceived: real
    var sentCount: nat
    var receivedCount: nat
    var rtt: Running           // RTT_sum, RTT_sum_square, RTT_min, RTT_max
    var cur: Current           // tsCur_delta_*, PPS_cur_delta_*, RTT_in_delta_*
    var deltas: seq<DeltaStat> // vec_deltas
    var deltaCounter: nat
    var ppsSent: Running       // PPS_delta_*_sent
    var ppsReceived: Running   // PPS_delta_*_received

    ghost var log: Log         // all that happened since the reset
    ghost var start: real      // the start of the first window

    ghost function W(): Windows
      reads this`start
    {
      Windows(start, deltaT)
    }

    /** The counters and the ring of time stamps. */
    ghost predicate RingValid(log: Log)
      reads this`sentCount, this`receivedCount, stamps
    {
      stamps.Length == TIMESTAMP_COUNT && (forall i :: 0 <= i < TIMESTAMP_COUNT ==> stamps[i] == Slot(log, i)) &&
      sentCount == SentCount(log) && receivedCount == ReceivedCount(log)
    }

    /** What is kept of the first `n` windows. */
    ghost predicate SavedValid(log: Log, n: nat)
      requires deltaT > 0.0
      reads this`start, this`deltas, this`deltaCounter, this`ppsSent, this`ppsReceived
    {
      deltaCounter == n + 1 && deltas == Stats(log, W(), n) &&
      ppsSent == Of(SentRates(log, W(), n)) && ppsReceived == Of(ReceivedRates(log, W(), n))
    }

    ghost predicate WindowsValid(log: Log)
      requires deltaT > 0.0
      reads this
    {
      Possible(log, start) && CountedUntil(log, start) <= cur.until &&
      SavedValid(log, |deltas|) && cur == CurrentOf(log, W(), |deltas|)
    }

    /** Every field is what the log says it is. */
    ghost predicate Valid()
      reads this, stamps
    {
      deltaT > 0.0 && RingValid(log) && rtt == Of(Rtts(log)) && WindowsValid(log) &&
      (deltas != [] ==> cur.from < CountedUntil(log, start))
    }

    constructor (deltaT: real, now: real, now': real)
      requires deltaT > 0.0 && 0.0 < now <= now'
      ensures Valid() && log == [] && start == now' && fresh(stamps) && this.deltaT == deltaT
    {
      this.deltaT := deltaT;
      stamps := new real[TIMESTAMP_COUNT];
      new;
      ResetStatistic(now, now');
    }

    /** config.hpp `reset_statistic`; it reads the clock twice. */
    method ResetStatistic(now: real, now': real)
      requires deltaT > 0.0 && stamps.Length == TIMESTAMP_COUNT && 0.0 < now <= now'
      modifies this, stamps
      ensures Valid() && log == [] && start == now' && tsStart == now
      ensures tsLastSent == 0.0 && tsLastReceived == 0.0
    {
      hide Slot, SentCount, ReceivedCount, Rtts, Of, Stats, SentRates, ReceivedRates, Possible, CountedUntil, CurrentOf;
      ClearStamps();
      tsStart := now;
      tsLastSent, tsLastReceived := 0.0, 0.0;
      sentCount, receivedCount := 0, 0;
      rtt := RESET;
      cur := Current(now', now' + deltaT, 0, 0, 0, 0.0);
      deltaCounter := 1;
      ppsReceived := RESET;
      ppsSent := RESET;
      deltas := [];
      log, start := [], now';
      NothingYet(W());
    }

    method ClearStamps()
      requires stamps.Length == TIMESTAMP_COUNT
      modifies stamps
      ensures forall k :: 0 <= k < TIMESTAMP_COUNT ==> stamps[k] == 0.0
    {
      for i := 0 to TIMESTAMP_COUNT
        invariant forall k :: 0 <= k < i ==> stamps[k] == 0.0
      {
        stamps[i] := 0.0;
      }
    }

    /** config.hpp `PPS_cur_delta_sent` and `PPS_cur_delta_received` */
    function CurRate(count: nat): real
      requires cur.until > cur.from
      reads this`cur
    {
      Rate(count, cur.until - cur.from)
    }

    /** config.hpp `SaveDelta` */
    method SaveDelta(ghost log: Log, ghost n: nat)
      requires deltaT > 0.0 && SavedValid(log, n) && cur == CurrentOf(log, W(), n)
      modifies this`deltas, this`deltaCounter, this`ppsSent, this`ppsReceived, this`cur
      ensures SavedValid(log, n + 1) && cur == old(cur).(sent := 0, received := 0, rttCount := 0, rttSum := 0.0)
    {
      hide Of, Rate, SentIn, ReceivedIn, RttSumIn, Windows.From, Mean;
      Next(W(), n);
      Snoc(SentRates(log, W(), n), Rate(SentIn(log, W(), n), deltaT));
      Snoc(ReceivedRates(log, W(), n), Rate(ReceivedIn(log, W(), n), deltaT));
      deltaCounter := deltaCounter + 1;
      ppsReceived := ppsReceived.Add(CurRate(cur.received));
      var packetReceived := CurRate(cur.received).Floor;
      cur := cur.(received := 0);
      ppsSent := ppsSent.Add(CurRate(cur.sent));
      var packetSent := CurRate(cur.sent).Floor;
      cur := cur.(sent := 0);
      deltas := deltas + [DeltaStat(Mean(cur.rttSum, cur.rttCount), packetSent, packetReceived)];
      cur := cur.(rttSum := 0.0, rttCount := 0);
    }

    /** How many windows end before `now`. */
    ghost function Behind(now: real): nat
      requires deltaT > 0.0
      reads this`cur
    {
      if cur.until < now then NonNegative((now - cur.until) / deltaT); ((now - cur.until) / deltaT).Floor + 1 else 0
    }

    /** config.hpp `ChangeDelta`: saves windows until the current one reaches up to `now`. */
    method ChangeDelta(now: real, ghost log: Log)
      requires deltaT > 0.0 && WindowsValid(log)
      modifies this`cur, this`deltas, this`deltaCounter, this`ppsSent, this`ppsReceived
      ensures WindowsValid(log) && now <= cur.until
      ensures |old(deltas)| <= |deltas|
      ensures if |deltas| > |old(deltas)| then cur.from < now else cur == old(cur)
    {
      hide Of, Rate, SentIn, ReceivedIn, RttSumIn, Windows.From, Stats, SentRates, ReceivedRates;
      hide Possible, CountedUntil;
      while cur.until < now
        invariant WindowsValid(log)
        invariant |old(deltas)| <= |deltas|
        invariant if |deltas| > |old(deltas)| then cur.from < now else cur == old(cur)
        decreases Behind(now)
      {
        ghost var n := |deltas|;
        Next(W(), n);
        Next(W(), n + 1);
        LaterWindow(log, W(), n + 1);
        Closer(now, cur.until, deltaT);
        SaveDelta(log, n);
        cur := cur.(from := cur.until);
        cur := cur.(until := cur.from + deltaT);
      }
    }

    /** The next event is in the current window once that reaches up to it. */
    lemma InCurrentWindow(event: Event, n: nat, log: Log)
      requires deltaT > 0.0 && Possible(log + [event], start) && WindowsValid(log) && n == |deltas|
      requires event.at <= cur.until
      requires n > 0 ==> cur.from < event.at
      ensures W().Contains(n, event.at)
      ensures SavedValid(log + [event], n)
    {
      assert Before(log + [event]) == log;
      EarlierWindows(log + [event], W(), n);
    }

    /** config.hpp `SendPacketID`; `overrun` stands for its error message. */
    method SendPacketID(now: real) returns (id: nat, overrun: bool)
      requires Valid() && now >= LastTime(log, start) && SentCount(log) + 1 < 0x8000_0000
      modifies this, stamps
      ensures Valid() && log == old(log) + [Sent(now)] && start == old(start)
      ensures id == Place(SentCount(log)) + 1 && 1 <= id <= TIMESTAMP_COUNT
      ensures id == SentCount(log) % 200000 + 1
      ensures overrun == Overruns(old(log))
      ensures tsLastSent == now && tsLastReceived == old(tsLastReceived) && tsStart == old(tsStart)
    {
      hide Of, SentIn, ReceivedIn, RttSumIn, Windows.From, Stats, SentRates, ReceivedRates, CurrentOf;
      hide Slot, Rtts, Possible, SentCount, ReceivedCount;
      AfterSent(log, now, start);
      ghost var event := Sent(now);
      ghost var next := log + [event];
      assert Before(next) == log;
      CountedInTime(log, start);
      tsLastSent := now;
      sentCount := sentCount + 1;
      var packetId := sentCount % TIMESTAMP_COUNT;
      overrun := stamps[packetId] != 0.0;
      stamps[packetId] := now;
      ChangeDelta(now, log);
      InCurrentWindow(event, |deltas|, log);
      PacketCounts(next, W(), |deltas|);
      cur := cur.(sent := cur.sent + 1);
      log := next;
      id := packetId + 1;
    }

    /** The second half of `ReceivePacketID` (config.hpp:383-393): a round trip time that was measured. */
    method CountRoundTrip(time: real, now: real, ghost log: Log, ghost event: Event)
      requires deltaT > 0.0 && WindowsValid(log) && rtt == Of(Rtts(log))
      requires deltas != [] ==> cur.from < CountedUntil(log, start)
      requires Possible(log + [event], start) && CountsReceived(log + [event]) && event.at == now
      requires time == now - Slot(log, event.id - 1) && Rtts(log + [event]) == Rtts(log) + [time]
      modifies this`rtt, this`cur, this`deltas, this`deltaCounter, this`ppsSent, this`ppsReceived
      ensures WindowsValid(log + [event]) && rtt == Of(Rtts(log + [event]))
      ensures deltas != [] ==> cur.from < now
    {
      hide Of, SentIn, ReceivedIn, RttSumIn, Windows.From, Stats, SentRates, ReceivedRates, CurrentOf;
      hide Slot, Rtts, Possible, Matches;
      ghost var next := log + [event];
      assert Before(next) == log && Last(next) == event;
      PossibleBefore(next, start);
      CountedInTime(log, start);
      Snoc(Rtts(log), time);
      rtt := rtt.Add(time);
      ChangeDelta(now, log);
      InCurrentWindow(event, |deltas|, log);
      AnswerCounts(next, W(), |deltas|);
      cur := cur.(received := cur.received + 1);
      cur := cur.(rttSum := cur.rttSum + time, rttCount := cur.rttCount + 1);
    }

    /** config.hpp `ReceivePacketID`; a packet that finds no time stamp gets an error message. */
    method ReceivePacketID(packetID: nat, now: real) returns (matched: bool)
      requires Valid() && now >= LastTime(log, start) && 1 <= packetID <= TIMESTAMP_COUNT
      modifies this, stamps
      ensures Valid() && log == old(log) + [Received(packetID, now)] && start == old(start)
      ensures matched == Matches(old(log), packetID)
      ensures tsLastReceived == now && tsLastSent == old(tsLastSent) && tsStart == old(tsStart)
    {
      hide Of, SentIn, ReceivedIn, RttSumIn, Windows.From, Stats, SentRates, ReceivedRates, CurrentOf;
      hide Slot, Rtts, Possible, SentCount, ReceivedCount;
      AfterReceived(log, packetID, now, start);
      ghost var event := Received(packetID, now);
      ghost var next := log + [event];
      assert Before(next) == log && Last(next) == event;
      CountedInTime(log, start);
      var place := packetID - 1;
      tsLastReceived := now;
      receivedCount := receivedCount + 1;
      matched := stamps[place] != 0.0;
      if !matched {
        UncountedEvent(next, W(), |deltas|);
        MissCountsNothing(next, W(), |deltas|);
      } else {
        var time := now - stamps[place];
        stamps[place] := 0.0;
        CountRoundTrip(time, now, log, event);
      }
      log := next;
    }

    // ---- what is reported

    /** config.hpp `RTT_mean` */
    function RttMean(): real
      requires receivedCount > 0
      reads this`rtt, this`receivedCount
    {
      rtt.sum / receivedCount as real
    }

    /** config.hpp `RTT_VAR` */
    function RttVar(): real
      requires receivedCount > 0
      reads this`rtt, this`receivedCount
    {
      Variance(rtt.sum, rtt.sumSquare, receivedCount)
    }

    /** config.hpp `PPS_delta_mean_sent` */
    function PpsMeanSent(): real
      reads this`ppsSent, this`deltaCounter
    {
      if deltaCounter == 0 then 0.0 else ppsSent.sum / deltaCounter as real
    }

    /** config.hpp `PPS_delta_mean_received` */
    function PpsMeanReceived(): real
      reads this`ppsReceived, this`deltaCounter
    {
      if deltaCounter == 0 then 0.0 else ppsReceived.sum / deltaCounter as real
    }

    /** config.hpp `PPS_delta_VAR_sent` and `PPS_delta_VAR_received` */
    function PpsVarSent(): real
      requires deltaCounter > 0
      reads this`ppsSent, this`deltaCounter
    {
      Variance(ppsSent.sum, ppsSent.sumSquare, deltaCounter)
    }

    function PpsVarReceived(): real
      requires deltaCounter > 0
      reads this`ppsReceived, this`deltaCounter
    {
      Variance(ppsReceived.sum, ppsReceived.sumSquare, deltaCounter)
    }

    /** The variances are not negative, although more answers and windows are counted than samples are summed. */
    lemma VariancesNonNegative()
      requires Valid()
      ensures deltaCounter > 0 && PpsVarSent() >= 0.0 && PpsVarReceived() >= 0.0
      ensures receivedCount > 0 ==> RttVar() >= 0.0
    {
      AnswersAreConserved(log);
      VarianceNonNegative(SentRates(log, W(), |deltas|), deltaCounter);
      VarianceNonNegative(ReceivedRates(log, W(), |deltas|), deltaCounter);
      if receivedCount > 0 { VarianceNonNegative(Rtts(log), receivedCount); }
    }

    /** Where the packets are: answered, with a time stamp in the ring, or overwritten. */
    lemma Conservation()
      requires Valid()
      ensures var waiting := set i: nat | i < TIMESTAMP_COUNT && stamps[i] != 0.0;
              sentCount == |Rtts(log)| + |waiting| + Overwritten(log)
      ensures receivedCount == |Rtts(log)| + Missed(log)
    {
      PacketsAreConserved(log, start);
      AnswersAreConserved(log);
      assert (set i: nat | i < TIMESTAMP_COUNT && stamps[i] != 0.0) == NonZeroSlots(log);
    }

    /** The rates account for every packet and every matched answer. */
    lemma RateConservation()
      requires Valid()
      ensures ppsSent.sum * deltaT + cur.sent as real * USPS == sentCount as real * USPS
      ensures ppsReceived.sum * deltaT + cur.received as real * USPS == |Rtts(log)| as real * USPS
      ensures cur.rttCount == cur.received && deltaCounter == |deltas| + 1
    {
      hide Sum, SumSquare, Least, Greatest, Slot, Rtts, Possible, SentCount, ReceivedCount, CountedUntil;
      hide SentIn, ReceivedIn, RttSumIn, Stats, SentRates, ReceivedRates;
      RatesAreConserved(log, W(), |deltas|);
    }

    /**
     * RTT_mean divides by all answers: it is the mean of the round trips exactly if none was missed, or all took no
     * time.
     */
    lemma MeanIsExact()
      requires Valid() && Rtts(log) != []
      ensures receivedCount > 0
      ensures RttMean() == Sum(Rtts(log)) / |Rtts(log)| as real <==> Missed(log) == 0 || Sum(Rtts(log)) == 0.0
    {
      AnswersAreConserved(log);
      SameQuotient(Sum(Rtts(log)), receivedCount as real, |Rtts(log)| as real);
    }

    /**
     * PPS_delta_mean divides by the saved windows and the open one, although only the saved ones are summed: it is
     * the mean of their rates exactly if nothing was sent in them, or received.
     */
    lemma MeanRateIsExact()
      requires Valid() && deltas != []
      ensures PpsMeanSent() == ppsSent.sum / |deltas| as real <==> sentCount == cur.sent
      ensures PpsMeanReceived() == ppsReceived.sum / |deltas| as real <==> |Rtts(log)| == cur.received
    {
      hide RingValid, WindowsValid, Rtts, Of;
      RateConservation();
      OneTooMany(ppsSent.sum, deltaT, cur.sent, sentCount, |deltas|);
      OneTooMany(ppsReceived.sum, deltaT, cur.received, |Rtts(log)|, |deltas|);
    }

    /**
     * What is kept of a window: the numbers of packets and of matched answers in it, per second and rounded down, and
     * the mean of the round trip times, if there are any.
     */
    lemma SavedWindow(k: nat)
      requires Valid() && k < |deltas|
      ensures var sent, received := |Packets(log, W(), k)|, |Answers(log, W(), k)|;
              deltas[k].packetSent as real <= sent as real * 1000000.0 / deltaT < deltas[k].packetSent as real + 1.0 &&
              deltas[k].packetReceived as real <= received as real * 1000000.0 / deltaT
                < deltas[k].packetReceived as real + 1.0 &&
              (deltas[k].rttMean.None? <==> received == 0) &&
              (received > 0 ==> deltas[k].rttMean.value * received as real == RttSumIn(log, W(), k))
    {
      hide Slot, RingValid, Of, Rtts, RttSumIn, SentIn, ReceivedIn, Packets, Answers, Possible, CountedUntil;
      StatsAt(log, W(), |deltas|, k);
      WindowCounts(log, W(), k);
      var received := ReceivedIn(log, W(), k);
      if received > 0 { TimesCount(RttSumIn(log, W(), k), received as real); }
    }

    /** Without a matched answer no window reports one. */
    lemma NothingReceived(k: nat)
      requires Valid() && k < |deltas| && Rtts(log) == []
      ensures deltas[k].packetReceived == 0 && deltas[k].rttMean.None?
    {
      hide Slot, RingValid, Of, RttSumIn, SentIn, ReceivedIn, Possible, CountedUntil;
      SavedWindow(k);
      if Answers(log, W(), k) != {} {
        var i :| i in Answers(log, W(), k);
        MatchedIsMeasured(log, i);
      }
      assert |Answers(log, W(), k)| == 0;
      assert 0.0 * 1000000.0 / deltaT == 0.0;
    }

    /** The round trip times of the saved windows and of the open one are all there are. */
    lemma RttsAreKept()
      requires Valid()
      ensures RttSumUpTo(log, W(), |deltas|) == Sum(Rtts(log)) && cur.rttSum == RttSumIn(log, W(), |deltas|)
    {
      RttHistogram(log, W(), |deltas|);
    }

    /**
     * The three variances are those of the round trip times and of the rates of the saved windows, padded with a zero
     * for every missed answer and for the open window.
     */
    lemma VariancesAreVariances()
      requires Valid()
      ensures receivedCount > 0 ==> IsVarianceOf(RttVar(), Rtts(log), receivedCount)
      ensures IsVarianceOf(PpsVarSent(), SentRates(log, W(), |deltas|), |deltas| + 1)
      ensures IsVarianceOf(PpsVarReceived(), ReceivedRates(log, W(), |deltas|), |deltas| + 1)
    {
      Divisors();
      hide *;
      var sent, received := SentRates(log, W(), |deltas|), ReceivedRates(log, W(), |deltas|);
      VarianceIsDeviation(sent, deltaCounter);
      VarianceIsDeviation(received, deltaCounter);
      if receivedCount > 0 { VarianceIsDeviation(Rtts(log), receivedCount); }
    }

    /** The fields for the extremes bound the round trip times and the rates, and are among them once they can be. */
    lemma ExtremesAreKept(i: nat)
      requires Valid()
      ensures i < |Rtts(log)| ==>
                rtt.least <= Rtts(log)[i] <= rtt.greatest &&
                (rtt.least == 9999999.0 || rtt.least in Rtts(log)) && (rtt.greatest == 0.0 || rtt.greatest in Rtts(log))
      ensures i < |deltas| ==>
                var sent, received := SentRates(log, W(), |deltas|), ReceivedRates(log, W(), |deltas|);
                ppsSent.least <= sent[i] <= ppsSent.greatest &&
                (ppsSent.least == 9999999.0 || ppsSent.least in sent) &&
                (ppsSent.greatest == 0.0 || ppsSent.greatest in sent) &&
                ppsReceived.least <= received[i] <= ppsReceived.greatest &&
                (ppsReceived.least == 9999999.0 || ppsReceived.least in received) &&
                (ppsReceived.greatest == 0.0 || ppsReceived.greatest in received)
    {
      hide Sum, SumSquare, Least, Greatest, Slot, Rtts, SentRates, ReceivedRates, Possible, CountedUntil, RingValid;
      if i < |Rtts(log)| { Extremes(Rtts(log), i); }
      if i < |deltas| {
        Extremes(SentRates(log, W(), |deltas|), i);
        Extremes(ReceivedRates(log, W(), |deltas|), i);
      }
    }

    /** What is summed, and what is counted. */
    lemma Divisors()
      requires Valid()
      ensures receivedCount >= |Rtts(log)| && deltaCounter == |deltas| + 1
      ensures |SentRates(log, W(), |deltas|)| == |ReceivedRates(log, W(), |deltas|)| == |deltas|
      ensures receivedCount > 0 ==> RttVar() == Variance(Sum(Rtts(log)), SumSquare(Rtts(log)), receivedCount)
      ensures PpsVarSent() ==
              var xs := SentRates(log, W(), |deltas|);
              Variance(Sum(xs), SumSquare(xs), deltaCounter)
      ensures PpsVarReceived() ==
              var xs := ReceivedRates(log, W(), |deltas|);
              Variance(Sum(xs), SumSquare(xs), deltaCounter)
    {
      hide Sum, SumSquare, Least, Greatest, Slot, Rtts, SentRates, ReceivedRates, Possible, CountedUntil, Variance;
      AnswersAreConserved(log);
    }
  }

  lemma TimesCount(sum: real, n: real)
    requires n > 0.0
    ensures sum / n * n == sum
  {
  }

  /** An answer that was matched left a round trip time. */
  lemma {:induction false} MatchedIsMeasured(log: Log, i: nat)
    requires i < |log| && log[i].Received? && Matches(log[..i], log[i].id)
    ensures Rtts(log) != []
  {
    if i == |log| - 1 {
    } else {
      assert Before(log)[..i] == log[..i];
      MatchedIsMeasured(Before(log), i);
    }
  }

  lemma OneTooMany(sum: real, delta: real, now: nat, all: nat, n: nat)
    requires delta > 0.0 && n > 0 && sum * delta + now as real * USPS == all as real * USPS
    ensures sum / (n + 1) as real == sum / n as real <==> all == now
  {
    NoRate(sum, delta, now, all);
    SameQuotient(sum, (n + 1) as real, n as real);
  }

  lemma NoRate(sum: real, delta: real, now: nat, all: nat)
    requires delta > 0.0 && sum * delta + now as real * USPS == all as real * USPS
    ensures sum == 0.0 <==> all == now
  {
    assert sum * delta == (all as real - now as real) * USPS;
  }

  lemma PossibleBefore(log: Log, start: real)
    requires Possible(log, start) && log != []
    ensures Possible(Before(log), start) && LastTime(Before(log), start) <= Last(log).at
  {
  }

  lemma SameQuotient(s: real, a: real, b: real)
    requires a > 0.0 && b > 0.0
    ensures s / a == s / b <==> a == b || s == 0.0
  {
    assert (s / a) * a == s && (s / b) * b == s;
    if s / a == s / b { assert (s / a) * (a - b) == 0.0; }
  }

  lemma NonNegative(x: real)
    ensures x >= 0.0 ==> x.Floor >= 0
  {
  }

  lemma Closer(now: real, stop: real, delta: real)
    requires delta > 0.0 && stop < now
    ensures (now - stop) / delta > 0.0
    ensures (now - (stop + delta)) / delta == (now - stop) / delta - 1.0
    ensures ((now - (stop + delta)) / delta).Floor == ((now - stop) / delta).Floor - 1
  {
    var x := (now - stop) / delta;
    Quotient(now - (stop + delta), x - 1.0, delta);
  }

  lemma Quotient(y: real, z: real, d: real)
    requires d > 0.0 && y == z * d
    ensures y / d == z
  {
    var q := y / d;
    assert q * d == y;
    assert (q - z) * d == 0.0;
  }
}
