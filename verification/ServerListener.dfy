/** The server's listener: it audits counts, fills the request table and forwards each request. */
module ServerListener {
  import opened Common
  import opened Cdr
  import opened MessengerTypes
  import opened ArrivalTimes
  import opened DeliveryAudit
  import opened Xml
  import opened StringTables
  import opened Callbacks

  /** What is put into the message queue for the responder. */
  datatype Signal = Signal(command: string, sent: TimeSpec, count: Long)

  const REQUEST: string := "request"

  datatype ServerState = ServerState(
    numReads: nat, counts: seq<int>, valid: bool, sliding: Sliding, rows: seq<string>, signals: seq<Signal>)

  /** The document has the element searched for, and what it lists fits the table. */
  predicate CanServe(cb: Callback) {
    cb.Sample? ==>
      var values := Requested(cb.message.text);
      values.Some? && FitTable(values.value)
  }

  ghost predicate CanServeAll(cbs: seq<Callback>) {
    forall i :: 0 <= i < |cbs| ==> CanServe(cbs[i])
  }

  function ServerStart(): ServerState {
    ServerState(0, [], true, NOTHING, EmptyRows(), [])
  }

  function ServerStep(s: ServerState, cb: Callback): (r: ServerState)
    requires CanServe(cb) && |s.rows| == ROWS
    ensures |r.rows| == ROWS
  {
    match cb
    case Sample(m, at) =>
      ServerState(
        s.numReads + 1,
        Insert(s.counts, m.count),
        s.valid && m.count !in s.counts,
        Slide(s.sliding, m.count, ClockTime(at)),
        Stored(s.rows, Requested(m.text).value),
        s.signals + [Signal(REQUEST, m.timeStamp, m.count)])
    case Disposed => s.(numReads := s.numReads + 1)
    case NoWriters => s.(numReads := s.numReads + 1)
    case BadStatus => s.(numReads := s.numReads + 1, valid := false)
    case UnknownState => s.(numReads := s.numReads + 1, valid := false)
  }

  function ServerRun(cbs: seq<Callback>): (r: ServerState)
    requires CanServeAll(cbs)
    ensures |r.rows| == ROWS
    decreases |cbs|
  {
    if cbs == [] then ServerStart()
    else
      assert CanServe(cbs[|cbs| - 1]);
      ServerStep(ServerRun(cbs[..|cbs| - 1]), cbs[|cbs| - 1])
  }

  class DataReaderListener {
    const reliable: bool
    const requestData: array<char>
    var numReads: nat
    var counts: seq<int>
    var valid: bool
    var arrivals: seq<Instant>
    var log: seq<Interval>
    var signals: seq<Signal>

    ghost predicate Valid()
      reads this
    {
      requestData.Length == CELLS && Ascending(counts)
    }

    ghost function State(): ServerState
      reads this, requestData
      requires Valid()
    {
      ServerState(numReads, counts, valid, Sliding(arrivals, log), Rows(requestData[..]), signals)
    }

    constructor (reliable: bool)
      ensures Valid() && fresh(requestData) && this.reliable == reliable
      ensures State() == ServerStart()
    {
      this.reliable := reliable;
      numReads, counts, valid, arrivals, log, signals := 0, [], true, [], [], [];
      requestData := new char[CELLS];
      new;
      Clear(requestData);
    }

    method OnDataAvailable(cb: Callback)
      requires Valid() && CanServe(cb)
      modifies this, requestData
      ensures Valid() && State() == ServerStep(old(State()), cb)
    {
      hide Insert, Rows, Requested, FitTable, MillisBetween, ClockTime, Stored;
      numReads := numReads + 1;
      match cb
      case Sample(m, at) =>
        InsertAscending(counts, m.count);
        if m.count in counts {
          valid := false;
        }
        counts := Insert(counts, m.count);
        StoreRequest(m.text);
        signals := signals + [Signal("request", m.timeStamp, m.count)];
        var now := ClockTime(at);
        arrivals := arrivals + [now];
        if m.count > 1 {
          arrivals := arrivals[1..];
          log := log + [Interval(m.count, if arrivals == [] then None else Some(MillisBetween(arrivals[0], now)))];
        }
      case Disposed =>
      case NoWriters =>
      case BadStatus =>
        valid := false;
      case UnknownState =>
        valid := false;
    }

    /** Searches the document and copies what it lists into the first rows of the table. */
    method StoreRequest(doc: Forest)
      requires Valid() && Requested(doc).Some? && FitTable(Requested(doc).value)
      modifies requestData
      ensures Rows(requestData[..]) == Stored(old(Rows(requestData[..])), Requested(doc).value)
    {
      hide Rows, Row, Find, IsFirst, Content;
      ghost var values := Requested(doc).value;
      ghost var rows := Rows(requestData[..]);
      var found := FindNodeByName(doc, "DOMAIN-SPECIFIC");
      var node := Children(found.head);
      var i := 0;
      while node != Nil
        invariant 0 <= i <= |values| && Contents(node, ITEM) == values[i..]
        invariant Rows(requestData[..]) == values[..i] + rows[i..]
        decreases node
      {
        if Name(node.head) == "DOMAINID" {
          var value := Content(node.head);
          NextValue(values, i, value, Contents(node.next, ITEM));
          StoredNext(rows, values, i);
          CopyString(requestData, i, value);
          i := i + 1;
        }
        node := node.next;
      }
      assert values[..i] == values;
    }

    static lemma NextValue(values: seq<string>, i: nat, value: string, rest: seq<string>)
      requires i <= |values| && values[i..] == [value] + rest
      ensures i < |values| && values[i] == value && values[i + 1..] == rest
    {
      assert values[i..][0] == values[i] && values[i..][1..] == values[i + 1..];
    }

    static lemma StoredNext(rows: seq<string>, values: seq<string>, i: nat)
      requires i < |values| <= |rows|
      ensures (values[..i] + rows[i..])[i := values[i]] == values[..i + 1] + rows[i + 1..]
    {
    }

    method IsValid() returns (ok: bool)
      requires Valid()
      ensures ok <==> valid && Passes(counts, reliable, 40)
    {
      var countsOk, reports, reached := Audit(counts, reliable, NUM_MESSAGES);
      ok := valid && countsOk;
    }
  }

  // ------------------------------------------------------------- whole runs

  /** The requests of a run, as the lists of values extracted from them. */
  function Requests(cbs: seq<Callback>): (r: seq<seq<string>>)
    requires CanServeAll(cbs)
    ensures forall k :: 0 <= k < |r| ==> FitTable(r[k])
    decreases |cbs|
  {
    if cbs == [] then []
    else
      var last := cbs[|cbs| - 1];
      assert CanServe(last);
      var before := Requests(cbs[..|cbs| - 1]);
      if last.Sample? then before + [Requested(last.message.text).value] else before
  }

  function Forwarded(cbs: seq<Callback>): seq<Signal>
    decreases |cbs|
  {
    if cbs == [] then []
    else
      var last := cbs[|cbs| - 1];
      var before := Forwarded(cbs[..|cbs| - 1]);
      if last.Sample? then before + [Signal(REQUEST, last.message.timeStamp, last.message.count)] else before
  }

  /** One forwarded signal and one extracted list for each sample, in order. */
  lemma {:induction false} ForwardedLaw(cbs: seq<Callback>)
    requires CanServeAll(cbs)
    ensures var samples, forwarded, requests := Samples(cbs), Forwarded(cbs), Requests(cbs);
            && |forwarded| == |requests| == |samples|
            && forall i :: 0 <= i < |samples| ==>
                 && forwarded[i] == Signal("request", samples[i].message.timeStamp, samples[i].message.count)
                 && Requested(samples[i].message.text) == Some(requests[i])
    decreases |cbs|
  {
    if cbs == [] {
    } else {
      hide Requested, FitTable;
      assert CanServe(cbs[|cbs| - 1]);
      ForwardedLaw(cbs[..|cbs| - 1]);
    }
  }

  /** Each part of the listener's state is the corresponding history of the run. */
  ghost predicate IsHistory(s: ServerState, cbs: seq<Callback>)
    requires CanServeAll(cbs)
  {
    && s.numReads == |cbs|
    && Collects(s.counts, Received(cbs))
    && (s.valid <==> AllKnown(cbs) && NoRepeats(Received(cbs)))
    && s.sliding == SlideAll(NOTHING, Arrivals(cbs))
    && s.rows == StoredAll(Requests(cbs))
    && s.signals == Forwarded(cbs)
  }

  lemma {:induction false} ServerRunLaw(cbs: seq<Callback>)
    requires CanServeAll(cbs)
    ensures IsHistory(ServerRun(cbs), cbs)
    decreases |cbs|
  {
    if cbs == [] {
    } else {
      var before, last := cbs[..|cbs| - 1], cbs[|cbs| - 1];
      assert cbs == before + [last];
      ServerRunLaw(before);
      assert CanServe(last);
      HistoryStep(ServerRun(before), before, last);
    }
  }

  lemma HistoryStep(s: ServerState, before: seq<Callback>, last: Callback)
    requires CanServeAll(before) && CanServe(last) && CanServeAll(before + [last])
    requires |s.rows| == ROWS && IsHistory(s, before)
    ensures IsHistory(ServerStep(s, last), before + [last])
  {
    var cbs := before + [last];
    assert cbs[..|cbs| - 1] == before;
    AllKnownPush(before, last);
    if last.Sample? {
      CollectsPush(s.counts, Received(before), last.message.count);
      CollectsSame(s.counts, Received(before), last.message.count);
      NoRepeatsPush(Received(before), last.message.count);
      SlideOneMore(Arrivals(before), Arrival(last.message.count, last.at));
      StoreOneMore(Requests(before), Requested(last.message.text).value);
    }
    hide Collects, NoRepeats, Insert, Slide, Stored, SlideAll, StoredAll, AllKnown, Requested;
  }

  lemma CollectsSame(counts: seq<int>, received: seq<int>, x: int)
    requires Collects(counts, received)
    ensures x in counts <==> x in received
  {
  }

  lemma StoreOneMore(requests: seq<seq<string>>, values: seq<string>)
    requires (forall k :: 0 <= k < |requests| ==> FitTable(requests[k])) && FitTable(values)
    ensures StoredAll(requests + [values]) == Stored(StoredAll(requests), values)
  {
    assert (requests + [values])[..|requests|] == requests;
  }

  /**
   * The audit over whole runs. In reliable mode it passes exactly when every callback had an
   * OK status and a known state and each count below `n` was received exactly once and no
   * other count was; in unreliable mode, when no count repeated or was negative and the
   * number received is between a quarter of `n` and `n`.
   */
  lemma ServerAuditLaw(cbs: seq<Callback>, n: nat)
    requires CanServeAll(cbs)
    ensures var s := ServerRun(cbs);
            s.valid && Passes(s.counts, true, n) <==> AllKnown(cbs) && EachOnce(Received(cbs), n)
    ensures var s := ServerRun(cbs); var received := Received(cbs);
            s.valid && Passes(s.counts, false, n)
            <==> && AllKnown(cbs) && NoRepeats(received)
                 && (forall x :: x in received ==> 0 <= x)
                 && |received| <= n <= 4 * |received|
  {
    ServerRunLaw(cbs);
    EachOnceIff(ServerRun(cbs).counts, Received(cbs), n);
  }
}
