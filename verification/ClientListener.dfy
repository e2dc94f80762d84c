/** The client's listener: it logs round-trip and inter-arrival times and audits the counts. */
module ClientListener {
  import opened Common
  import opened Cdr
  import opened ArrivalTimes
  import opened DeliveryAudit
  import opened Callbacks

  /** One logged round trip, and the number of the file it went to. */
  datatype RttRow = RttRow(file: nat, count: Long, millis: int)

  const ROWS_PER_FILE: int := 10000

  datatype ClientState = ClientState(
    numReads: nat, counts: seq<int>, valid: bool, sliding: Sliding, fileCount: nat, rtts: seq<RttRow>)

  const CLIENT_START := ClientState(0, [], true, NOTHING, 0, [])

  function ClientStep(s: ClientState, cb: Callback): ClientState {
    match cb
    case Sample(m, at) =>
      var file := if m.count % ROWS_PER_FILE == 0 then s.fileCount + 1 else s.fileCount;
      ClientState(
        s.numReads + 1,
        Insert(s.counts, m.count),
        s.valid,
        Slide(s.sliding, m.count, ClockTime(at)),
        file,
        s.rtts + [RttRow(file, m.count, Rtt(m.timeStamp, ClockTime(at)))])
    case Disposed => s.(numReads := s.numReads + 1)
    case NoWriters => s.(numReads := s.numReads + 1)
    case BadStatus => s.(numReads := s.numReads + 1, valid := false)
    case UnknownState => s.(numReads := s.numReads + 1, valid := false)
  }

  function ClientRun(cbs: seq<Callback>): ClientState
    decreases |cbs|
  {
    if cbs == [] then CLIENT_START
    else ClientStep(ClientRun(cbs[..|cbs| - 1]), cbs[|cbs| - 1])
  }

  class RespDataReaderListener {
    const reliable: bool
    var numReads: nat
    var counts: seq<int>
    var valid: bool
    var arrivals: seq<Instant>
    var log: seq<Interval>
    var rttFileCount: nat
    var rtts: seq<RttRow>

    ghost predicate Valid()
      reads this
    {
      Ascending(counts)
    }

    ghost function State(): ClientState
      reads this
    {
      ClientState(numReads, counts, valid, Sliding(arrivals, log), rttFileCount, rtts)
    }

    constructor (reliable: bool)
      ensures Valid() && this.reliable == reliable && State() == CLIENT_START
    {
      this.reliable := reliable;
      numReads, counts, valid, arrivals, log, rttFileCount, rtts := 0, [], true, [], [], 0, [];
    }

    method OnDataAvailable(cb: Callback)
      requires Valid()
      modifies this
      ensures Valid() && State() == ClientStep(old(State()), cb)
    {
      numReads := numReads + 1;
      match cb
      case Sample(m, at) =>
        var end := ClockTime(at);
        var rtt := Rtt(m.timeStamp, end);
        arrivals := arrivals + [end];
        if m.count > 1 {
          arrivals := arrivals[1..];
          log := log + [Interval(m.count, if arrivals == [] then None else Some(MillisBetween(arrivals[0], end)))];
        }
        if m.count % 10000 == 0 {
          rttFileCount := rttFileCount + 1;
        }
        rtts := rtts + [RttRow(rttFileCount, m.count, rtt)];
        InsertAscending(counts, m.count);
        counts := Insert(counts, m.count);
      case Disposed =>
      case NoWriters =>
      case BadStatus =>
        valid := false;
      case UnknownState =>
        valid := false;
    }

    method IsValid() returns (ok: bool)
      requires Valid()
      ensures ok <==> valid && Passes(counts, reliable, 40)
    {
      var countsOk, reports, reached := Audit(counts, reliable, NUM_MESSAGES);
      ok := valid && countsOk;
    }
  }

  // ------------------------------------------------------------- whole runs

  /** How many of the counts start a new file. */
  function Rotations(counts: seq<int>): nat {
    if counts == [] then 0
    else Rotations(counts[..|counts| - 1]) + if counts[|counts| - 1] % ROWS_PER_FILE == 0 then 1 else 0
  }

  /**
   * One row for each sample, in order: its count, its round-trip time, and as file the number
   * of counts received so far, its own included, that are multiples of the rows of a file.
   */
  ghost predicate LogsEach(rtts: seq<RttRow>, samples: seq<Callback>, received: seq<int>)
    requires OnlySamples(samples)
  {
    && |rtts| == |samples| == |received|
    && forall j :: 0 <= j < |rtts| ==> rtts[j] == RowOf(samples[j], Rotations(received[..j + 1]))
  }

  function RowOf(sample: Callback, file: nat): RttRow
    requires sample.Sample?
  {
    RttRow(file, sample.message.count, Rtt(sample.message.timeStamp, ClockTime(sample.at)))
  }

  lemma LogsOneMore(rtts: seq<RttRow>, samples: seq<Callback>, received: seq<int>, cb: Callback)
    requires OnlySamples(samples) && LogsEach(rtts, samples, received) && cb.Sample?
    ensures var now := received + [cb.message.count];
            && OnlySamples(samples + [cb])
            && Rotations(now)
                 == Rotations(received) + (if cb.message.count % 10_000 == 0 then 1 else 0)
            && LogsEach(rtts + [RowOf(cb, Rotations(now))], samples + [cb], now)
  {
    hide RowOf;
    var now := received + [cb.message.count];
    assert now[..|received|] == received && now[..|received| + 1] == now;
    var row := RowOf(cb, Rotations(now));
    forall j | 0 <= j < |now|
      ensures (rtts + [row])[j] == RowOf((samples + [cb])[j], Rotations(now[..j + 1]))
    {
      if j < |received| {
        assert now[..j + 1] == received[..j + 1];
      }
    }
  }

  /** Each part of the listener's state is the corresponding history of the run. */
  ghost predicate IsHistory(s: ClientState, cbs: seq<Callback>) {
    && s.numReads == |cbs|
    && Collects(s.counts, Received(cbs))
    && (s.valid <==> AllKnown(cbs))
    && s.sliding == SlideAll(NOTHING, Arrivals(cbs))
    && s.fileCount == Rotations(Received(cbs))
    && LogsEach(s.rtts, Samples(cbs), Received(cbs))
  }

  lemma HistoryStep(s: ClientState, before: seq<Callback>, last: Callback)
    requires IsHistory(s, before)
    ensures IsHistory(ClientStep(s, last), before + [last])
  {
    hide Collects, Insert, Slide, SlideAll, AllKnown, Rotations, LogsEach, OnlySamples, Rtt;
    hide Samples, Arrivals, Received;
    HistoriesPush(before, last);
    AllKnownPush(before, last);
    if last.Sample? {
      CollectsPush(s.counts, Received(before), last.message.count);
      SlideOneMore(Arrivals(before), Arrival(last.message.count, last.at));
      LogsOneMore(s.rtts, Samples(before), Received(before), last);
    }
  }

  lemma {:induction false} ClientRunLaw(cbs: seq<Callback>)
    ensures IsHistory(ClientRun(cbs), cbs)
    decreases |cbs|
  {
    if cbs == [] {
    } else {
      var before, last := cbs[..|cbs| - 1], cbs[|cbs| - 1];
      assert cbs == before + [last];
      ClientRunLaw(before);
      hide IsHistory, ClientStep;
      HistoryStep(ClientRun(before), before, last);
    }
  }

  /**
   * The client's audit over whole runs: like the server's, except that a repeated count is
   * not held against the run. In unreliable mode the distinct counts number between a
   * quarter of `n` and `n`, and none is negative.
   */
  lemma ClientAuditLaw(cbs: seq<Callback>, n: nat)
    ensures var s := ClientRun(cbs);
            s.valid && Passes(s.counts, true, n)
            <==> AllKnown(cbs) && forall x :: x in Received(cbs) <==> 0 <= x < n
    ensures var s := ClientRun(cbs); var distinct := set x | x in Received(cbs);
            s.valid && Passes(s.counts, false, n)
            <==> AllKnown(cbs) && (forall x :: x in distinct ==> 0 <= x) && |distinct| <= n <= 4 * |distinct|
  {
    hide LogsEach, Rotations, Passes, Collects, AllKnown, ClientRun, Received;
    ClientRunLaw(cbs);
    var counts, received := ClientRun(cbs).counts, Received(cbs);
    CollectedPasses(counts, received, n);
    if Passes(counts, true, n) {
      forall x
        ensures x in received <==> 0 <= x < n
      {
      }
    } else {
      var x :| !(x in received <==> 0 <= x < n);
      assert x in Received(cbs) <==> !(0 <= x < n);
    }
  }

  lemma CollectedPasses(counts: seq<int>, received: seq<int>, n: nat)
    requires Collects(counts, received)
    ensures Passes(counts, true, n) <==> forall x :: x in received <==> 0 <= x < n
    ensures var distinct := set x | x in received;
            Passes(counts, false, n)
            <==> (forall x :: x in distinct ==> 0 <= x) && |distinct| <= n <= 4 * |distinct|
  {
    assert forall x :: x in counts <==> x in received;
    AscendingSize(counts);
    var distinct := set x | x in received;
    assert (set x | x in counts) == distinct;
    assert forall x :: x in counts <==> x in distinct;
  }

  /** Samples and only samples, with counts 0, 1, 2, ... */
  ghost predicate Lossless(cbs: seq<Callback>) {
    forall i :: 0 <= i < |cbs| ==> cbs[i].Sample? && cbs[i].message.count == i
  }

  /** Without loss, the row of count c goes to file c / 10000 + 1, so each file holds one block of counts. */
  lemma {:induction false} FileOfCount(cbs: seq<Callback>)
    requires Lossless(cbs)
    ensures var s := ClientRun(cbs);
            && |s.rtts| == |cbs|
            && s.fileCount == (|cbs| + 9_999) / 10_000
            && forall c :: 0 <= c < |cbs| ==> s.rtts[c].count == c && s.rtts[c].file == c / 10_000 + 1
    decreases |cbs|
  {
    if cbs == [] {
    } else {
      var before, last := cbs[..|cbs| - 1], cbs[|cbs| - 1];
      FileOfCount(before);
      assert last.message.count == |before|;
      assert if |before| % ROWS_PER_FILE == 0
        then (|before| + ROWS_PER_FILE - 1) / ROWS_PER_FILE == |before| / ROWS_PER_FILE
        else (|before| + ROWS_PER_FILE - 1) / ROWS_PER_FILE == |before| / ROWS_PER_FILE + 1;
    }
  }
}
