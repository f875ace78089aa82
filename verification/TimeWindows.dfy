/** The time windows ("deltas") into which config.hpp divides the log of packets and answers. */
module TimeWindows {
  import opened Wrappers
  import opened Samples
  import opened EventLog

  /** Window `k` ends at `start + (k + 1) * delta`, that moment included; the first includes its start, too. */
  datatype Windows = Windows(start: real, delta: real) {
    function From(k: nat): real { start + k as real * delta }

    predicate Contains(k: nat, t: real) { (k == 0 || From(k) < t) && t <= From(k + 1) }
  }

  lemma Next(w: Windows, k: nat)
    ensures w.From(k + 1) == w.From(k) + w.delta
  {
    assert (k + 1) as real * w.delta == k as real * w.delta + w.delta;
  }

  lemma {:induction false} FromGrows(w: Windows, j: nat, k: nat)
    requires w.delta > 0.0 && j <= k
    ensures w.From(j) <= w.From(k)
  {
    if j < k {
      FromGrows(w, j, k - 1);
      Next(w, k - 1);
    }
  }

  /** An event that is counted: every packet, and every answer that finds its time stamp. */
  predicate CountsSent(log: Log) { log != [] && Last(log).Sent? }

  predicate CountsReceived(log: Log) { log != [] && Last(log).Received? && Matches(Before(log), Last(log).id) }

  function SentIn(log: Log, w: Windows, k: nat): nat {
    if log == [] then 0
    else SentIn(Before(log), w, k) + if CountsSent(log) && w.Contains(k, Last(log).at) then 1 else 0
  }

  function ReceivedIn(log: Log, w: Windows, k: nat): nat {
    if log == [] then 0
    else ReceivedIn(Before(log), w, k) + if CountsReceived(log) && w.Contains(k, Last(log).at) then 1 else 0
  }

  function RttSumIn(log: Log, w: Windows, k: nat): real {
    if log == [] then 0.0
    else
      RttSumIn(Before(log), w, k) +
      if CountsReceived(log) && w.Contains(k, Last(log).at) then Last(log).at - Slot(Before(log), Last(log).id - 1)
      else 0.0
  }

  /** Packets per second. */
  function Rate(n: nat, delta: real): real requires delta > 0.0 { n as real * USPS / delta }

  function SentRates(log: Log, w: Windows, n: nat): (r: seq<real>)
    requires w.delta > 0.0
    ensures |r| == n
  {
    if n == 0 then [] else SentRates(log, w, n - 1) + [Rate(SentIn(log, w, n - 1), w.delta)]
  }

  function ReceivedRates(log: Log, w: Windows, n: nat): (r: seq<real>)
    requires w.delta > 0.0
    ensures |r| == n
  {
    if n == 0 then [] else ReceivedRates(log, w, n - 1) + [Rate(ReceivedIn(log, w, n - 1), w.delta)]
  }

  /** What is kept of a window: the rates without their fractions, and the mean round trip time (NaN without any). */
  datatype DeltaStat = DeltaStat(rttMean: Option<real>, packetSent: int, packetReceived: int)

  function Mean(sum: real, count: nat): Option<real> { if count == 0 then None else Some(sum / count as real) }

  function StatOf(sent: nat, received: nat, rttSum: real, delta: real): DeltaStat
    requires delta > 0.0
  {
    DeltaStat(Mean(rttSum, received), Rate(sent, delta).Floor, Rate(received, delta).Floor)
  }

  function Stats(log: Log, w: Windows, n: nat): (r: seq<DeltaStat>)
    requires w.delta > 0.0
    ensures |r| == n
  {
    if n == 0 then []
    else Stats(log, w, n - 1) +
         [StatOf(SentIn(log, w, n - 1), ReceivedIn(log, w, n - 1), RttSumIn(log, w, n - 1), w.delta)]
  }

  /** The counters of the window that is still open. */
  datatype Current = Current(from: real, until: real, sent: nat, received: nat, rttCount: nat, rttSum: real)

  function CurrentOf(log: Log, w: Windows, n: nat): Current {
    var received := ReceivedIn(log, w, n);
    Current(w.From(n), w.From(n + 1), SentIn(log, w, n), received, received, RttSumIn(log, w, n))
  }

  // ---- one event more

  /** It does not change the counts of windows it is not in. */
  lemma OtherWindow(log: Log, w: Windows, k: nat)
    requires log != [] && !w.Contains(k, Last(log).at)
    ensures SentIn(log, w, k) == SentIn(Before(log), w, k)
    ensures ReceivedIn(log, w, k) == ReceivedIn(Before(log), w, k)
    ensures RttSumIn(log, w, k) == RttSumIn(Before(log), w, k)
  {
  }

  /** An event in window `n` changes nothing that is kept of the windows before it. */
  lemma {:induction false} EarlierWindows(log: Log, w: Windows, n: nat)
    requires log != [] && w.delta > 0.0 && (n == 0 || w.From(n) < Last(log).at)
    ensures SentRates(log, w, n) == SentRates(Before(log), w, n)
    ensures ReceivedRates(log, w, n) == ReceivedRates(Before(log), w, n)
    ensures Stats(log, w, n) == Stats(Before(log), w, n)
  {
    if n == 0 {
    } else {
      FromGrows(w, n - 1, n);
      EarlierWindows(log, w, n - 1);
      OtherWindow(log, w, n - 1);
    }
  }

  /** A packet in window `n` is counted there. */
  lemma PacketCounts(log: Log, w: Windows, n: nat)
    requires CountsSent(log) && w.Contains(n, Last(log).at)
    ensures CurrentOf(log, w, n) ==
            var c := CurrentOf(Before(log), w, n);
            c.(sent := c.sent + 1)
  {
  }

  /** A matched answer in window `n` is counted there, with its round trip time. */
  lemma AnswerCounts(log: Log, w: Windows, n: nat)
    requires CountsReceived(log) && w.Contains(n, Last(log).at)
    ensures CurrentOf(log, w, n) ==
            var c, rtt := CurrentOf(Before(log), w, n), Last(log).at - Slot(Before(log), Last(log).id - 1);
            c.(received := c.received + 1, rttCount := c.rttCount + 1, rttSum := c.rttSum + rtt)
  {
  }

  lemma MissCountsNothing(log: Log, w: Windows, n: nat)
    requires log != [] && !CountsSent(log) && !CountsReceived(log)
    ensures CurrentOf(log, w, n) == CurrentOf(Before(log), w, n)
  {
  }

  /** A missed answer is counted in no window. */
  lemma {:induction false} UncountedEvent(log: Log, w: Windows, n: nat)
    requires log != [] && w.delta > 0.0 && !CountsSent(log) && !CountsReceived(log)
    ensures SentRates(log, w, n) == SentRates(Before(log), w, n)
    ensures ReceivedRates(log, w, n) == ReceivedRates(Before(log), w, n)
    ensures Stats(log, w, n) == Stats(Before(log), w, n)
  {
    if n == 0 {
    } else {
      UncountedEvent(log, w, n - 1);
    }
  }

  /** The time of the last event that is counted in a window. */
  function CountedUntil(log: Log, start: real): real {
    if log == [] then start
    else if CountsSent(log) || CountsReceived(log) then Last(log).at
    else CountedUntil(Before(log), start)
  }

  lemma {:induction false} CountedInTime(log: Log, start: real)
    requires Possible(log, start)
    ensures start <= CountedUntil(log, start) <= LastTime(log, start)
  {
    if log == [] {
    } else {
      CountedInTime(Before(log), start);
    }
  }

  /** Windows that begin after the last counted event are empty. */
  lemma {:induction false} LaterWindow(log: Log, w: Windows, k: nat)
    requires Possible(log, w.start) && k > 0 && CountedUntil(log, w.start) <= w.From(k)
    ensures SentIn(log, w, k) == 0 && ReceivedIn(log, w, k) == 0 && RttSumIn(log, w, k) == 0.0
  {
    if log == [] {
    } else {
      CountedInTime(Before(log), w.start);
      LaterWindow(Before(log), w, k);
    }
  }

  // ---- the histogram

  /** All that is counted in the windows up to `k`. */
  function SentUpTo(log: Log, w: Windows, k: nat): nat {
    SentIn(log, w, k) + if k == 0 then 0 else SentUpTo(log, w, k - 1)
  }

  function ReceivedUpTo(log: Log, w: Windows, k: nat): nat {
    ReceivedIn(log, w, k) + if k == 0 then 0 else ReceivedUpTo(log, w, k - 1)
  }

  /** An event is in exactly one window. */
  lemma {:induction false} OneWindow(log: Log, w: Windows, k: nat)
    requires log != [] && w.delta > 0.0 && w.start <= Last(log).at
    ensures Last(log).at <= w.From(k + 1) ==>
              SentUpTo(log, w, k) == SentUpTo(Before(log), w, k) + (if CountsSent(log) then 1 else 0) &&
              ReceivedUpTo(log, w, k) == ReceivedUpTo(Before(log), w, k) + if CountsReceived(log) then 1 else 0
    ensures Last(log).at > w.From(k + 1) ==>
              SentUpTo(log, w, k) == SentUpTo(Before(log), w, k) &&
              ReceivedUpTo(log, w, k) == ReceivedUpTo(Before(log), w, k)
  {
    if k == 0 {
    } else {
      FromGrows(w, k, k + 1);
      OneWindow(log, w, k - 1);
    }
  }

  lemma {:induction false} Uncounted(log: Log, w: Windows, k: nat)
    requires log != [] && !CountsSent(log) && !CountsReceived(log)
    ensures SentUpTo(log, w, k) == SentUpTo(Before(log), w, k)
    ensures ReceivedUpTo(log, w, k) == ReceivedUpTo(Before(log), w, k)
  {
    if k == 0 {
    } else {
      Uncounted(log, w, k - 1);
    }
  }

  lemma {:induction false} EmptyLog(w: Windows, k: nat)
    ensures SentUpTo([], w, k) == 0 && ReceivedUpTo([], w, k) == 0
  {
    if k == 0 {
    } else {
      EmptyLog(w, k - 1);
    }
  }

  /** The windows together count every packet and every matched answer once. */
  lemma {:induction false} Histogram(log: Log, w: Windows, k: nat)
    requires Possible(log, w.start) && w.delta > 0.0 && CountedUntil(log, w.start) <= w.From(k + 1)
    ensures SentUpTo(log, w, k) == SentCount(log) && ReceivedUpTo(log, w, k) == |Rtts(log)|
  {
    if log == [] {
      EmptyLog(w, k);
    } else {
      var before := Before(log);
      CountedInTime(before, w.start);
      Histogram(before, w, k);
      if CountsSent(log) || CountsReceived(log) { OneWindow(log, w, k); } else { Uncounted(log, w, k); }
    }
  }

  /** The events counted in window `k`: packets, and answers that found their time stamp. */
  function Packets(log: Log, w: Windows, k: nat): set<nat> {
    set i: nat | i < |log| && log[i].Sent? && (k == 0 || w.start + k as real * w.delta < log[i].at) &&
                 log[i].at <= w.start + (k + 1) as real * w.delta
  }

  function Answers(log: Log, w: Windows, k: nat): set<nat> {
    set i: nat | i < |log| && log[i].Received? && Matches(log[..i], log[i].id) &&
                 (k == 0 || w.start + k as real * w.delta < log[i].at) &&
                 log[i].at <= w.start + (k + 1) as real * w.delta
  }

  /** The counts of a window are the numbers of its events. */
  lemma {:induction false} WindowCounts(log: Log, w: Windows, k: nat)
    ensures SentIn(log, w, k) == |Packets(log, w, k)|
    ensures ReceivedIn(log, w, k) == |Answers(log, w, k)|
  {
    if log == [] {
      assert Packets(log, w, k) == {} && Answers(log, w, k) == {};
    } else {
      hide Packets, Answers, Slot;
      WindowCounts(Before(log), w, k);
      OnePacketMore(log, w, k);
      OneAnswerMore(log, w, k);
    }
  }

  lemma OnePacketMore(log: Log, w: Windows, k: nat)
    requires log != []
    ensures var n := |log| - 1;
            n !in Packets(Before(log), w, k) &&
            Packets(log, w, k) ==
            Packets(Before(log), w, k) + if CountsSent(log) && w.Contains(k, Last(log).at) then {n} else {}
  {
  }

  lemma OneAnswerMore(log: Log, w: Windows, k: nat)
    requires log != []
    ensures var n := |log| - 1;
            n !in Answers(Before(log), w, k) &&
            Answers(log, w, k) ==
            Answers(Before(log), w, k) + if CountsReceived(log) && w.Contains(k, Last(log).at) then {n} else {}
  {
    hide Matches;
    assert forall i: nat :: i < |log| - 1 ==> Before(log)[..i] == log[..i];
  }

  /** All that is measured in the windows up to `k`. */
  function RttSumUpTo(log: Log, w: Windows, k: nat): real {
    RttSumIn(log, w, k) + if k == 0 then 0.0 else RttSumUpTo(log, w, k - 1)
  }

  lemma {:induction false} OneRtt(log: Log, w: Windows, k: nat)
    requires log != [] && w.delta > 0.0 && w.start <= Last(log).at
    ensures RttSumUpTo(log, w, k) ==
            RttSumUpTo(Before(log), w, k) +
            if CountsReceived(log) && Last(log).at <= w.From(k + 1)
            then Last(log).at - Slot(Before(log), Last(log).id - 1) else 0.0
  {
    hide Slot;
    if k == 0 {
    } else {
      FromGrows(w, k, k + 1);
      OneRtt(log, w, k - 1);
    }
  }

  /** The windows together hold every round trip time. */
  lemma {:induction false} RttHistogram(log: Log, w: Windows, k: nat)
    requires Possible(log, w.start) && w.delta > 0.0 && CountedUntil(log, w.start) <= w.From(k + 1)
    ensures RttSumUpTo(log, w, k) == Sum(Rtts(log))
  {
    if log == [] {
      NoRtt(w, k);
    } else {
      var before := Before(log);
      CountedInTime(before, w.start);
      RttHistogram(before, w, k);
      OneRtt(log, w, k);
      if CountsReceived(log) {
        LastRtt(log);
        hide Rtts, Slot;
        Snoc(Rtts(before), Last(log).at - Slot(before, Last(log).id - 1));
      }
    }
  }

  lemma {:induction false} NoRtt(w: Windows, k: nat)
    ensures RttSumUpTo([], w, k) == 0.0
  {
    if k == 0 {
    } else {
      NoRtt(w, k - 1);
    }
  }

  /** What is kept of each window. */
  lemma {:induction false} StatsAt(log: Log, w: Windows, n: nat, k: nat)
    requires w.delta > 0.0 && k < n
    ensures Stats(log, w, n)[k] == StatOf(SentIn(log, w, k), ReceivedIn(log, w, k), RttSumIn(log, w, k), w.delta)
  {
    if k == n - 1 {
    } else {
      StatsAt(log, w, n - 1, k);
    }
  }

  /** Rates that add up to `sum` are those of `n` packets. */
  predicate AccountsFor(sum: real, delta: real, n: nat) { sum * delta == n as real * USPS }

  lemma NoRates(delta: real)
    ensures AccountsFor(Sum([]), delta, 0)
  {
  }

  lemma OneMoreRate(sum: real, n: nat, delta: real, upTo: nat)
    requires delta > 0.0 && AccountsFor(sum, delta, upTo)
    ensures AccountsFor(sum + Rate(n, delta), delta, n + upTo)
  {
    var rate := Rate(n, delta);
    assert rate * delta == n as real * USPS;
    assert (sum + rate) * delta == sum * delta + rate * delta;
  }

  lemma {:induction false} SentRatesAddUp(log: Log, w: Windows, n: nat)
    requires w.delta > 0.0
    ensures AccountsFor(Sum(SentRates(log, w, n)), w.delta, if n == 0 then 0 else SentUpTo(log, w, n - 1))
  {
    hide AccountsFor, Rate, SentIn;
    if n == 0 {
      NoRates(w.delta);
    } else {
      var before := SentRates(log, w, n - 1);
      SentRatesAddUp(log, w, n - 1);
      Snoc(before, Rate(SentIn(log, w, n - 1), w.delta));
      OneMoreRate(Sum(before), SentIn(log, w, n - 1), w.delta, if n == 1 then 0 else SentUpTo(log, w, n - 2));
    }
  }

  lemma {:induction false} ReceivedRatesAddUp(log: Log, w: Windows, n: nat)
    requires w.delta > 0.0
    ensures AccountsFor(Sum(ReceivedRates(log, w, n)), w.delta, if n == 0 then 0 else ReceivedUpTo(log, w, n - 1))
  {
    hide AccountsFor, Rate, ReceivedIn;
    if n == 0 {
      NoRates(w.delta);
    } else {
      var before := ReceivedRates(log, w, n - 1);
      ReceivedRatesAddUp(log, w, n - 1);
      Snoc(before, Rate(ReceivedIn(log, w, n - 1), w.delta));
      OneMoreRate(Sum(before), ReceivedIn(log, w, n - 1), w.delta, if n == 1 then 0 else ReceivedUpTo(log, w, n - 2));
    }
  }

  /** What the saved rates account for and what the current window counts is all there is. */
  lemma RatesAreConserved(log: Log, w: Windows, n: nat)
    requires Possible(log, w.start) && w.delta > 0.0 && CountedUntil(log, w.start) <= w.From(n + 1)
    ensures Sum(SentRates(log, w, n)) * w.delta + SentIn(log, w, n) as real * USPS == SentCount(log) as real * USPS
    ensures Sum(ReceivedRates(log, w, n)) * w.delta + ReceivedIn(log, w, n) as real * USPS == |Rtts(log)| as real * USPS
  {
    hide Sum, SentIn, ReceivedIn, SentCount, Rtts, SentRates, ReceivedRates;
    Histogram(log, w, n);
    SentRatesAddUp(log, w, n);
    ReceivedRatesAddUp(log, w, n);
  }

  /** After a reset. */
  lemma NothingYet(w: Windows)
    requires w.delta > 0.0 && w.start > 0.0
    ensures (forall i :: Slot([], i) == 0.0) && SentCount([]) == 0 && ReceivedCount([]) == 0 && Rtts([]) == []
    ensures Of([]) == RESET
    ensures Possible([], w.start) && CountedUntil([], w.start) == w.start
    ensures SentRates([], w, 0) == [] && ReceivedRates([], w, 0) == [] && Stats([], w, 0) == []
    ensures CurrentOf([], w, 0) == Current(w.start, w.start + w.delta, 0, 0, 0, 0.0)
  {
  }
}
