/** What the server makes of the requests it receives: its table, what it forwards, and its audit. */
module PipelineRequests {
  import opened Common
  import opened MessengerTypes
  import opened DeliveryAudit
  import opened Xml
  import opened StringTables
  import opened Callbacks
  import opened ServerListener
  import opened ClientListener
  import opened Sender
  import opened Pipeline
  import opened PipelineTimes

  /** A request under way carries the document of its count. */
  ghost predicate CarriesRequest(m: Message<Forest>) {
    && 0 <= m.count < SEND_LIMIT
    && m.text == RequestDoc(ServiceOf(m.count), ItemsOf(m.count))
  }

  /** A request received parsed to something that lists the domain and the items of its count. */
  ghost predicate ReadsAsRequest(cb: Callback) {
    cb.Sample? ==>
      && 0 <= cb.message.count < SEND_LIMIT
      && Requested(cb.message.text) == Some([DOMAIN] + ItemsOf(cb.message.count))
  }

  ghost predicate RequestsWell(s: System) {
    && (forall k :: 0 <= k < |s.requests| ==> CarriesRequest(s.requests[k]))
    && (forall k :: 0 <= k < |s.serverEvents| ==> ReadsAsRequest(s.serverEvents[k]))
  }

  lemma RequestsWellStep(s: System, a: Action)
    requires RequestsWell(s) && Faithful(s, a)
    ensures RequestsWell(Step(s, a))
  {
    hide Padded, RequestDoc, Requested, ServiceOf, ItemsOf, Subseq;
    var t := Step(s, a);
    match a
    case Send(ok) =>
      if s.nextCount < SEND_LIMIT {
        SentCarries(s.nextCount, s.now);
      }
    case LoseRequest(k) =>
      assert forall m :: m in t.requests ==> m in s.requests;
    case DeliverRequest(parsed, at) =>
      if s.requests != [] {
        var m := s.requests[0];
        assert CarriesRequest(m);
        RequestRoundTrip(ServiceOf(m.count), ItemsOf(m.count), parsed);
        assert ReadsAsRequest(Sample(m.(text := parsed), at));
      }
    case _ =>
  }

  lemma SentCarries(count: nat, at: nat)
    requires count < SEND_LIMIT
    ensures CarriesRequest(RequestFor(count, at))
  {
  }

  lemma {:induction false} AlwaysRequestsWell(actions: seq<Action>)
    requires FaithfulRun(actions)
    ensures RequestsWell(Run(actions))
    decreases |actions|
  {
    if actions == [] {
    } else {
      AlwaysRequestsWell(actions[..|actions| - 1]);
      hide Step, RequestsWell;
      RequestsWellStep(Run(actions[..|actions| - 1]), actions[|actions| - 1]);
    }
  }

  /** The listener can handle everything the writer can cause. */
  lemma ServableRun(cbs: seq<Callback>)
    requires forall k :: 0 <= k < |cbs| ==> ReadsAsRequest(cbs[k])
    ensures CanServeAll(cbs)
  {
    forall i | 0 <= i < |cbs|
      ensures CanServe(cbs[i])
    {
      if cbs[i].Sample? {
        assert ReadsAsRequest(cbs[i]);
        ItemsFit(cbs[i].message.count);
      }
    }
  }

  lemma ItemsFit(count: nat)
    ensures FitTable([DOMAIN] + ItemsOf(count)) && |ItemsOf(count)| == 1
  {
    assert '\0' !in DOMAIN && '\0' !in GET_ITEMS[0] && '\0' !in SET_ITEMS[0];
  }

  /** The table after a request with a given count: its domain, its item, and nothing else. */
  function TableFor(count: nat): seq<string> {
    Stored(EmptyRows(), [DOMAIN] + ItemsOf(count))
  }

  /** The count of the last sample, if there was one. */
  function LastCount(cbs: seq<Callback>): Option<int>
    decreases |cbs|
  {
    if cbs == [] then None
    else
      var last := cbs[|cbs| - 1];
      if last.Sample? then Some(last.message.count) else LastCount(cbs[..|cbs| - 1])
  }

  lemma {:induction false} TableOfRun(cbs: seq<Callback>)
    requires CanServeAll(cbs) && forall k :: 0 <= k < |cbs| ==> ReadsAsRequest(cbs[k])
    ensures match LastCount(cbs)
            case None => ServerRun(cbs).rows == EmptyRows()
            case Some(c) => 0 <= c && ServerRun(cbs).rows == TableFor(c)
    decreases |cbs|
  {
    if cbs == [] {
    } else {
      var before, last := cbs[..|cbs| - 1], cbs[|cbs| - 1];
      TableOfRun(before);
      assert ReadsAsRequest(last) && CanServe(last);
      if last.Sample? {
        hide EmptyRows, ItemsOf, RequestDoc;
        var rows := ServerRun(before).rows;
        match LastCount(before)
        case None =>
        case Some(c) =>
          ItemsFit(c);
          ItemsFit(last.message.count);
          StoredTwice(EmptyRows(), [DOMAIN] + ItemsOf(c), [DOMAIN] + ItemsOf(last.message.count));
      }
    }
  }

  lemma StoredTwice(rows: seq<string>, a: seq<string>, b: seq<string>)
    requires |a| == |b| <= |rows|
    ensures Stored(Stored(rows, a), b) == Stored(rows, b)
  {
  }

  /** What the listener forwarded is what it received. */
  lemma {:induction false} ForwardedMarks(cbs: seq<Callback>)
    ensures SignalMarks(Forwarded(cbs)) == SampleMarks(cbs)
    ensures forall k :: 0 <= k < |Forwarded(cbs)| ==> Forwarded(cbs)[k].command == "request"
    decreases |cbs|
  {
    if cbs == [] {
    } else {
      var before, last := cbs[..|cbs| - 1], cbs[|cbs| - 1];
      ForwardedMarks(before);
      if last.Sample? {
        SignalMarksPush(Forwarded(before), Signal(REQUEST, last.message.timeStamp, last.message.count));
      }
    }
  }

  /**
   * The server's side of every reachable state: each document it parses has what it searches
   * for and fits its table; the table holds the domain and the item of the request received
   * last and nothing older; what it forwards is what it received, in order; and its audit
   * flag is lowered by bad events only, because no count can come twice.
   */
  lemma ServerInPipeline(actions: seq<Action>)
    requires FaithfulRun(actions)
    ensures var cbs := Run(actions).serverEvents;
            && CanServeAll(cbs)
            && (match LastCount(cbs)
                case None => ServerRun(cbs).rows == EmptyRows()
                case Some(c) => 0 <= c && ServerRun(cbs).rows == TableFor(c))
            && SignalMarks(ServerRun(cbs).signals) == SampleMarks(cbs)
            && NoRepeats(Received(cbs))
            && (ServerRun(cbs).valid <==> AllKnown(cbs))
  {
    hide Run, RequestDoc, TableFor, SampleMarks, Subseq, ReadsAsRequest;
    var cbs := Run(actions).serverEvents;
    AlwaysRequestsWell(actions);
    ServableRun(cbs);
    TableOfRun(cbs);
    ServerRunLaw(cbs);
    ForwardedMarks(cbs);
    PipelineOrder(actions);
    SampleCounts(cbs);
  }

  /** What either side received in the pipeline is increasing and not negative. */
  lemma ReceivedAscends(actions: seq<Action>, server: bool)
    ensures var received := Received(EventsOf(Run(actions), server));
            Ascending(received) && forall x :: x in received ==> 0 <= x
  {
    hide Run, SampleMarks, Subseq;
    PipelineOrder(actions);
    CountsInPipeline(actions, server);
    SampleCounts(EventsOf(Run(actions), server));
  }

  /** An increasing list of exactly the numbers below `n` has number `i` in place `i`. */
  lemma {:induction false} InItsPlace(received: seq<int>, n: nat, i: nat)
    requires Ascending(received) && i < n && forall x :: x in received <==> 0 <= x < n
    ensures i < |received| && received[i] == i
    decreases i
  {
    assert i in received;
    var k :| 0 <= k < |received| && received[k] == i;
    if i == 0 {
      assert received[0] in received;
    } else {
      InItsPlace(received, n, i - 1);
    }
  }

  /** Of an increasing list, each of 0 .. n-1 once and no other means `n` of them, the last being n-1. */
  lemma EachOnceAscending(received: seq<int>, n: nat)
    requires n > 0 && Ascending(received) && forall x :: x in received ==> 0 <= x
    ensures EachOnce(received, n) <==> |received| == n && received[n - 1] == n - 1
  {
    EachOnceIff(received, received, n);
    if forall x :: x in received <==> 0 <= x < n {
      InItsPlace(received, n, n - 1);
      assert received[0] in received && received[|received| - 1] in received;
      Climbs(received, 0, |received| - 1);
    }
    if |received| == n && received[n - 1] == n - 1 {
      forall i | 0 <= i < n
        ensures received[i] == i
      {
        assert received[0] in received;
        Climbs(received, 0, i);
        Climbs(received, i, n - 1);
      }
      forall x
        ensures x in received <==> 0 <= x < n
      {
        if 0 <= x < n {
          assert received[x] == x;
        }
      }
    }
  }

  /**
   * The server's audit in every reachable state, exactly. In reliable mode it passes when only
   * good events came and the requests received so far are forty, the last of them number 39;
   * in unreliable mode, when only good events came and ten to forty requests did.
   */
  lemma AuditInPipeline(actions: seq<Action>)
    requires FaithfulRun(actions)
    ensures var cbs := Run(actions).serverEvents; var received := Received(cbs);
            && CanServeAll(cbs)
            && (ServerRun(cbs).valid && Passes(ServerRun(cbs).counts, true, 40)
                <==> AllKnown(cbs) && |received| == 40 && received[39] == 39)
            && (ServerRun(cbs).valid && Passes(ServerRun(cbs).counts, false, 40)
                <==> AllKnown(cbs) && 10 <= |received| <= 40)
  {
    hide Run, AllKnown, ServerRun, Received, EachOnce, Ascending, Passes, RequestDoc;
    ServerInPipeline(actions);
    ReceivedAscends(actions, true);
    var cbs := Run(actions).serverEvents;
    ServerAuditLaw(cbs, NUM_MESSAGES);
    EachOnceAscending(Received(cbs), NUM_MESSAGES);
  }

  /**
   * The client's audit in every reachable state, exactly: the same in terms of the responses
   * it received, because no count comes back twice.
   */
  lemma ClientAuditInPipeline(actions: seq<Action>)
    ensures var cbs := Run(actions).clientEvents; var received := Received(cbs);
            && (ClientRun(cbs).valid && Passes(ClientRun(cbs).counts, true, 40)
                <==> AllKnown(cbs) && |received| == 40 && received[39] == 39)
            && (ClientRun(cbs).valid && Passes(ClientRun(cbs).counts, false, 40)
                <==> AllKnown(cbs) && 10 <= |received| <= 40)
  {
    hide Run, AllKnown, ClientRun, Received, EachOnce, Ascending;
    ReceivedAscends(actions, false);
    CountsInPipeline(actions, false);
    var cbs := Run(actions).clientEvents;
    var received := Received(cbs);
    ClientAuditLaw(cbs, NUM_MESSAGES);
    AscendingSize(received);
    EachOnceIff(received, received, NUM_MESSAGES);
    EachOnceAscending(received, NUM_MESSAGES);
  }

  /**
   * The client sends a million requests and the audit expects forty: when more than forty
   * are received, the server's audit fails, in both modes and whatever else happened.
   */
  lemma AuditOfLongRun(actions: seq<Action>, reliable: bool)
    requires FaithfulRun(actions)
    requires |Received(Run(actions).serverEvents)| > 40
    ensures var cbs := Run(actions).serverEvents;
            CanServeAll(cbs) && !(ServerRun(cbs).valid && Passes(ServerRun(cbs).counts, reliable, 40))
  {
    hide Run, AllKnown, ServerRun, Received, Passes;
    AuditInPipeline(actions);
  }
}
