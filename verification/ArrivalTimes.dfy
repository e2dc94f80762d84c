/**
 * Clock arithmetic of the two listeners: the queue of arrival times from which
 * inter-arrival times are computed, and the round-trip time.
 */
module ArrivalTimes {
  import opened Common
  import opened Cdr
  import opened MessengerTypes

  const NANOS: int := 1_000_000_000
  const NANOS_PER_MILLI: int := 1_000_000

  /** A reading of the monotonic clock. */
  datatype Instant = Instant(sec: nat, nsec: nat)

  /** The reading after `t` nanoseconds. */
  function ClockTime(t: nat): Instant {
    Instant(t / NANOS, t % NANOS)
  }

  /** Integer division as the original language does it, towards zero. */
  function TruncDiv(x: int, y: int): int
    requires y > 0
  {
    if x >= 0 then x / y else -(-x / y)
  }

  function Millis(secDiff: int, nsecDiff: int): int {
    TruncDiv(NANOS * secDiff + nsecDiff, NANOS_PER_MILLI)
  }

  function MillisBetween(from: Instant, to: Instant): int {
    Millis(to.sec - from.sec, to.nsec - from.nsec)
  }

  /** A reading is whole seconds and the nanoseconds left over. */
  lemma ClockReading(t: nat)
    ensures 1_000_000_000 * ClockTime(t).sec + ClockTime(t).nsec == t && ClockTime(t).nsec < 1_000_000_000
  {
  }

  /** The milliseconds between two readings are the exact nanoseconds cut towards zero. */
  lemma MillisBetweenExact(from: nat, to: nat)
    ensures MillisBetween(ClockTime(from), ClockTime(to)) == TruncDiv(to - from, 1_000_000)
    ensures var ms, ns := MillisBetween(ClockTime(from), ClockTime(to)), to - from;
            if ns >= 0 then 1_000_000 * ms <= ns < 1_000_000 * (ms + 1)
            else 1_000_000 * (ms - 1) < ns <= 1_000_000 * ms
  {
    assert NANOS * (to / NANOS) + to % NANOS == to;
    assert NANOS * (from / NANOS) + from % NANOS == from;
  }

  // ---------------------------------------------------- the sliding queue

  /** A logged line; `None` stands for the front of an empty queue, which is undefined in the original. */
  datatype Interval = Interval(count: Long, millis: Option<int>)

  datatype Sliding = Sliding(queue: seq<Instant>, log: seq<Interval>)

  /** One sample: push its arrival time; from count 2 on also pop, and log the time since the front. */
  function Slide(s: Sliding, count: Long, now: Instant): Sliding {
    var pushed := s.queue + [now];
    if count > 1 then
      var popped := pushed[1..];
      Sliding(popped, s.log + [Interval(count, if popped == [] then None else Some(MillisBetween(popped[0], now)))])
    else s.(queue := pushed)
  }

  datatype Arrival = Arrival(count: Long, at: nat)

  function SlideAll(s: Sliding, arrivals: seq<Arrival>): Sliding
    decreases |arrivals|
  {
    if arrivals == [] then s
    else
      var last := arrivals[|arrivals| - 1];
      Slide(SlideAll(s, arrivals[..|arrivals| - 1]), last.count, ClockTime(last.at))
  }

  const NOTHING := Sliding([], [])

  lemma SlideOneMore(arrivals: seq<Arrival>, a: Arrival)
    ensures SlideAll(NOTHING, arrivals + [a]) == Slide(SlideAll(NOTHING, arrivals), a.count, ClockTime(a.at))
  {
    assert (arrivals + [a])[..|arrivals|] == arrivals;
  }

  /** How many of the samples did not pop. */
  function Grown(arrivals: seq<Arrival>): (q: nat)
    ensures q <= |arrivals|
  {
    if arrivals == [] then 0
    else Grown(arrivals[..|arrivals| - 1]) + if arrivals[|arrivals| - 1].count > 1 then 0 else 1
  }

  function Times(arrivals: seq<Arrival>): (t: seq<Instant>)
    ensures |t| == |arrivals|
    ensures forall i :: 0 <= i < |arrivals| ==> t[i] == ClockTime(arrivals[i].at)
  {
    if arrivals == [] then []
    else Times(arrivals[..|arrivals| - 1]) + [ClockTime(arrivals[|arrivals| - 1].at)]
  }

  /**
   * After any run of samples the queue holds the last q arrival times in order, q being how
   * many had count at most 1.
   */
  lemma {:induction false} QueueLaw(arrivals: seq<Arrival>)
    ensures SlideAll(NOTHING, arrivals).queue == Times(arrivals)[|arrivals| - Grown(arrivals)..]
    decreases |arrivals|
  {
    if arrivals == [] {
    } else {
      var before, last := arrivals[..|arrivals| - 1], arrivals[|arrivals| - 1];
      QueueLaw(before);
      var q := Grown(before);
      var all := Times(before) + [ClockTime(last.at)];
      assert Times(before)[|before| - q..] + [ClockTime(last.at)] == all[|before| - q..];
      assert all[|before| - q..][1..] == all[|before| - q + 1..];
    }
  }

  /** The arrival time a logged interval is measured from: q - 1 samples back, q being the queue's length law. */
  lemma {:induction false} IntervalLaw(arrivals: seq<Arrival>)
    requires arrivals != [] && arrivals[|arrivals| - 1].count > 1
    ensures var n, q, last := |arrivals|, Grown(arrivals), arrivals[|arrivals| - 1];
            var before := SlideAll(NOTHING, arrivals[..n - 1]);
            SlideAll(NOTHING, arrivals).log == before.log
              + [Interval(last.count, if q == 0 then None
                                      else Some(TruncDiv(last.at - arrivals[n - q].at, 1_000_000)))]
  {
    var n, q, last := |arrivals|, Grown(arrivals), arrivals[|arrivals| - 1];
    QueueLaw(arrivals);
    var queue := SlideAll(NOTHING, arrivals).queue;
    assert queue == (SlideAll(NOTHING, arrivals[..n - 1]).queue + [ClockTime(last.at)])[1..];
    if q > 0 {
      assert queue[0] == ClockTime(arrivals[n - q].at);
      MillisBetweenExact(arrivals[n - q].at, last.at);
    }
  }

  /** The places of the samples with count above 1, in order. */
  function LoggedAt(arrivals: seq<Arrival>): (places: seq<nat>)
    ensures forall k :: 0 <= k < |places| ==> places[k] < |arrivals|
  {
    if arrivals == [] then []
    else
      var i := |arrivals| - 1;
      LoggedAt(arrivals[..i]) + if arrivals[i].count > 1 then [i] else []
  }

  lemma {:induction false} LoggedAtExactly(arrivals: seq<Arrival>)
    ensures var places := LoggedAt(arrivals);
            && (forall j, k :: 0 <= j < k < |places| ==> places[j] < places[k])
            && (forall i: nat :: i in places <==> i < |arrivals| && arrivals[i].count > 1)
            && Grown(arrivals) + |places| == |arrivals|
    decreases |arrivals|
  {
    if arrivals == [] {
    } else {
      LoggedAtExactly(arrivals[..|arrivals| - 1]);
    }
  }

  /** The interval of sample `i`: from q - 1 samples back, q being how many up to it had count at most 1. */
  function IntervalAt(arrivals: seq<Arrival>, i: nat): Interval
    requires i < |arrivals| && arrivals[i].count > 1
  {
    var q := Grown(arrivals[..i + 1]);
    Interval(arrivals[i].count,
             if q == 0 then None else Some(TruncDiv(arrivals[i].at - arrivals[i + 1 - q].at, 1_000_000)))
  }

  /**
   * The whole log of any run of samples: one row for each sample with count above 1, in order
   * and under its count, and none for the others.
   */
  lemma {:induction false} LogLaw(arrivals: seq<Arrival>)
    ensures var log, places := SlideAll(NOTHING, arrivals).log, LoggedAt(arrivals);
            && |log| == |places|
            && forall k :: 0 <= k < |places| ==>
                 arrivals[places[k]].count > 1 && log[k] == IntervalAt(arrivals, places[k])
    decreases |arrivals|
  {
    if arrivals == [] {
    } else {
      var last := |arrivals| - 1;
      var before := arrivals[..last];
      LogLaw(before);
      LogGrows(arrivals);
      hide SlideAll, Grown, TruncDiv, IntervalAt;
      var places := LoggedAt(before);
      forall k | 0 <= k < |places|
        ensures arrivals[places[k]].count > 1 && IntervalAt(before, places[k]) == IntervalAt(arrivals, places[k])
      {
        IntervalStays(arrivals, places[k]);
      }
    }
  }

  /** A sample with count at most 1 leaves the log as it was; any other adds its interval. */
  lemma LogGrows(arrivals: seq<Arrival>)
    requires arrivals != []
    ensures var last := |arrivals| - 1; var before := SlideAll(NOTHING, arrivals[..last]).log;
            SlideAll(NOTHING, arrivals).log
            == if arrivals[last].count > 1 then before + [IntervalAt(arrivals, last)] else before
  {
    hide SlideAll, IntervalAt;
    var last := |arrivals| - 1;
    if arrivals[last].count > 1 {
      IntervalLaw(arrivals);
      IntervalOfLast(arrivals);
    } else {
      SlideOneMore(arrivals[..last], arrivals[last]);
      assert arrivals == arrivals[..last] + [arrivals[last]];
    }
  }

  lemma IntervalOfLast(arrivals: seq<Arrival>)
    requires arrivals != [] && arrivals[|arrivals| - 1].count > 1
    ensures var n, q, last := |arrivals|, Grown(arrivals), arrivals[|arrivals| - 1];
            IntervalAt(arrivals, n - 1)
            == Interval(last.count, if q == 0 then None else Some(TruncDiv(last.at - arrivals[n - q].at, 1_000_000)))
  {
    hide Grown, TruncDiv;
    assert arrivals[..|arrivals| - 1 + 1] == arrivals;
  }

  lemma IntervalStays(arrivals: seq<Arrival>, i: nat)
    requires i < |arrivals| - 1 && arrivals[i].count > 1
    ensures IntervalAt(arrivals[..|arrivals| - 1], i) == IntervalAt(arrivals, i)
  {
    hide Grown;
    assert arrivals[..|arrivals| - 1][..i + 1] == arrivals[..i + 1];
  }

  /** Arrival times are all different. */
  ghost predicate Distinct(arrivals: seq<Arrival>) {
    forall i, j :: 0 <= i < j < |arrivals| ==> arrivals[i].at != arrivals[j].at
  }

  /** A logged interval is measured from the previous arrival exactly when two samples had count at most 1. */
  lemma {:induction false} TrueIntervalIff(arrivals: seq<Arrival>)
    requires arrivals != [] && arrivals[|arrivals| - 1].count > 1
    requires Grown(arrivals) >= 1 && Distinct(arrivals)
    ensures |arrivals| >= 2
    ensures var queue := SlideAll(NOTHING, arrivals).queue;
            && queue != []
            && (queue[0] == ClockTime(arrivals[|arrivals| - 2].at) <==> Grown(arrivals) == 2)
  {
    var n, q := |arrivals|, Grown(arrivals);
    QueueLaw(arrivals);
    assert q <= n - 1;
    ClockTimeInjective(arrivals[n - q].at, arrivals[n - 2].at);
  }

  lemma ClockTimeInjective(a: nat, b: nat)
    ensures ClockTime(a) == ClockTime(b) <==> a == b
  {
    assert NANOS * (a / NANOS) + a % NANOS == a;
    assert NANOS * (b / NANOS) + b % NANOS == b;
  }

  // ---------------------------------------------------- truncation drift

  function SumMillis(log: seq<Interval>): int {
    if log == [] then 0
    else SumMillis(log[..|log| - 1]) + log[|log| - 1].millis.GetOr(0)
  }

  /** From here on every sample pops, and time does not run backwards. */
  ghost predicate Steady(before: seq<Arrival>, more: seq<Arrival>) {
    && before != []
    && (forall i :: 0 <= i < |more| ==> more[i].count > 1)
    && (forall i, j :: 0 <= i < j < |before + more| ==> (before + more)[i].at <= (before + more)[j].at)
  }

  /**
   * Truncation drift: once exactly two samples have had count at most 1, the logged
   * milliseconds of the next n samples add up to at most the whole milliseconds elapsed,
   * and to less than n milliseconds below the exact time elapsed.
   */
  lemma {:induction false} DriftBound(before: seq<Arrival>, more: seq<Arrival>)
    requires Grown(before) == 2 && Steady(before, more)
    ensures var s, t := SlideAll(NOTHING, before), SlideAll(NOTHING, before + more);
            var elapsed := (before + more)[|before + more| - 1].at - before[|before| - 1].at;
            && s.log <= t.log && |t.log| == |s.log| + |more|
            && SumMillis(t.log) - SumMillis(s.log) <= elapsed / 1_000_000
            && elapsed - 1_000_000 * (SumMillis(t.log) - SumMillis(s.log)) <= |more| * 999_999
            && Grown(before + more) == 2
    decreases |more|
  {
    hide SlideAll, Grown, SumMillis, Steady;
    if more == [] {
      assert before + more == before;
    } else {
      var init := more[..|more| - 1];
      DriftBoundStep(before, more);
      DriftBound(before, init);
      DriftOne(before, more);
      var all, last := before + more, |before + more| - 1;
      assert all[last - 1] == (before + init)[last - 1];
      FloorSum(all[last - 1].at - before[|before| - 1].at, all[last].at - all[last - 1].at);
    }
  }

  /** Floors add up to at most the floor of the sum, and each loses less than one unit. */
  lemma FloorSum(a: int, d: int)
    ensures a / NANOS_PER_MILLI + d / NANOS_PER_MILLI <= (a + d) / NANOS_PER_MILLI
    ensures d - NANOS_PER_MILLI * (d / NANOS_PER_MILLI) <= NANOS_PER_MILLI - 1
  {
  }

  lemma {:induction false} DriftBoundStep(before: seq<Arrival>, more: seq<Arrival>)
    requires more != [] && Steady(before, more)
    ensures Steady(before, more[..|more| - 1])
  {
    var all, part := before + more, before + more[..|more| - 1];
    assert forall i :: 0 <= i < |part| ==> part[i] == all[i];
  }

  /** One more sample: its interval is the floor of the time since the one before. */
  lemma {:induction false} DriftOne(before: seq<Arrival>, more: seq<Arrival>)
    requires more != [] && Steady(before, more) && Grown(before + more[..|more| - 1]) == 2
    ensures var all := before + more;
            var d := all[|all| - 1].at - all[|all| - 2].at;
            var s, t := SlideAll(NOTHING, before + more[..|more| - 1]), SlideAll(NOTHING, all);
            && Grown(all) == 2 && s.log <= t.log && |t.log| == |s.log| + 1
            && d >= 0 && SumMillis(t.log) == SumMillis(s.log) + d / NANOS_PER_MILLI
  {
    hide SlideAll, SumMillis, Grown;
    var all := before + more;
    var n := |all|;
    var last, previous := all[n - 1], all[n - 2];
    assert all[..n - 1] == before + more[..|more| - 1];
    assert last == more[|more| - 1] && previous.at <= last.at;
    GrownKept(all);
    IntervalLaw(all);
    SumOneMore(SlideAll(NOTHING, all[..n - 1]).log,
               Interval(last.count, Some(TruncDiv(last.at - previous.at, NANOS_PER_MILLI))));
  }

  lemma GrownKept(arrivals: seq<Arrival>)
    requires arrivals != [] && arrivals[|arrivals| - 1].count > 1
    ensures Grown(arrivals) == Grown(arrivals[..|arrivals| - 1])
  {
  }

  lemma SumOneMore(log: seq<Interval>, x: Interval)
    ensures SumMillis(log + [x]) == SumMillis(log) + x.millis.GetOr(0)
  {
    assert (log + [x])[..|log|] == log;
  }

  // ------------------------------------------------------ round-trip time

  /** The send time as it travels in a message: both parts cut to 32 signed bits. */
  function Stamp(sent: nat): TimeSpec {
    TimeSpec(ToLong(ClockTime(sent).sec), ToLong(ClockTime(sent).nsec))
  }

  function Rtt(stamp: TimeSpec, now: Instant): int {
    Millis(now.sec - stamp.sec, now.nsec - stamp.nsec)
  }

  /** For any stamp at all it is the difference in nanoseconds, negative or not, cut towards zero. */
  lemma RttOfStamp(stamp: TimeSpec, now: Instant)
    ensures var ms := Rtt(stamp, now);
            var ns := 1_000_000_000 * (now.sec - stamp.sec) + (now.nsec - stamp.nsec);
            if ns >= 0 then 1_000_000 * ms <= ns < 1_000_000 * (ms + 1)
            else 1_000_000 * (ms - 1) < ns <= 1_000_000 * ms
  {
  }

  /** The seconds of a clock reading fit the 32-bit field of a message. */
  predicate FitsStamp(t: nat) {
    t / NANOS < 0x8000_0000
  }

  /**
   * The round-trip time computed from a message's stamp is the whole milliseconds since it
   * was sent, and so not negative, exactly when the send time's seconds fit 32 signed bits.
   */
  lemma RttExactIff(sent: nat, now: nat)
    requires sent <= now
    ensures Rtt(Stamp(sent), ClockTime(now)) == (now - sent) / 1_000_000 <==> FitsStamp(sent)
    ensures FitsStamp(sent) <==> sent < 0x8000_0000 * 1_000_000_000
  {
    var s, k := sent / NANOS, WrapCount(sent / NANOS);
    assert NANOS * s + sent % NANOS == sent;
    assert NANOS * (now / NANOS) + now % NANOS == now;
    assert ToLong(sent % NANOS) == sent % NANOS;
    var x := now - sent + k * 0x1_0000_0000 * NANOS;
    assert NANOS * (now / NANOS - ToLong(s)) + (now % NANOS - sent % NANOS) == x;
    assert x == now - sent + NANOS_PER_MILLI * (k * 0x1_0000_0000 * 1000);
    assert x / NANOS_PER_MILLI == (now - sent) / NANOS_PER_MILLI + k * 0x1_0000_0000 * 1000;
  }

  /** By how many times 2^32 truncation lowers a second count. */
  function WrapCount(s: nat): (k: nat)
    ensures ToLong(s) == s - k * 0x1_0000_0000
    ensures k == 0 <==> s < 0x8000_0000
  {
    if s % 0x1_0000_0000 < 0x8000_0000 then s / 0x1_0000_0000 else s / 0x1_0000_0000 + 1
  }

  /** No intermediate value of the computation leaves 64 signed bits, whatever stamp arrives. */
  lemma RttFits64(stamp: TimeSpec, now: nat)
    requires now < 0x8000_0000 * 1_000_000_000
    ensures var c := ClockTime(now); var seconds := 1_000_000_000 * (c.sec - stamp.sec);
            && -0x8000_0000_0000_0000 <= seconds < 0x8000_0000_0000_0000
            && -0x8000_0000_0000_0000 <= seconds + (c.nsec - stamp.nsec) < 0x8000_0000_0000_0000
  {
  }
}
