/** Round-trip times, from the clock reading in the sender to the logged row. */
module PipelineTimes {
  import opened Common
  import opened ArrivalTimes
  import opened Callbacks
  import opened ClientListener
  import opened Sender
  import opened Pipeline

  /** The j-th sample the client got back is the request sent as number `i`, and not before it was sent. */
  ghost predicate ComesFrom(s: System, j: nat, i: nat)
    requires j < |SampleMarks(s.clientEvents)| == |Arrivals(s.clientEvents)|
  {
    && i < |s.sent| == |s.sentAt|
    && MarkOf(s.sent[i]) == SampleMarks(s.clientEvents)[j]
    && s.sentAt[i] <= Arrivals(s.clientEvents)[j].at <= s.now
  }

  ghost predicate HasSender(s: System, j: nat)
    requires j < |SampleMarks(s.clientEvents)| == |Arrivals(s.clientEvents)|
  {
    exists i: nat :: ComesFrom(s, j, i)
  }

  ghost predicate TimesWell(s: System) {
    && |SampleMarks(s.clientEvents)| == |Arrivals(s.clientEvents)|
    && forall j :: 0 <= j < |SampleMarks(s.clientEvents)| ==> HasSender(s, j)
  }

  lemma ArrivalsPush(cbs: seq<Callback>, cb: Callback)
    ensures Arrivals(cbs + [cb])
         == if cb.Sample? then Arrivals(cbs) + [Arrival(cb.message.count, cb.at)] else Arrivals(cbs)
  {
    assert (cbs + [cb])[..|cbs|] == cbs;
  }

  /** Whatever is answered was sent, so a response under way has a sender and a send time in the past. */
  lemma ResponseSent(s: System) returns (i: nat)
    requires InOrder(s) && s.responses != []
    ensures i < |s.sent| == |s.sentAt| && MarkOf(s.sent[i]) == MarkOf(s.responses[0]) && s.sentAt[i] <= s.now
  {
    hide Subseq, Marks, SampleMarks, SignalMarks;
    var mark, back := MarkOf(s.responses[0]), SampleMarks(s.clientEvents);
    var received, answered := SampleMarks(s.serverEvents), Marks(s.answered);
    SubseqElements(back + Marks(s.responses), answered);
    assert Marks(s.responses)[0] == mark && mark in answered by {
      assert (back + Marks(s.responses))[|back|] == mark;
    }
    assert received == answered + (InService(s.phase) + SignalMarks(s.queue));
    assert mark in received + Marks(s.requests);
    SubseqElements(received + Marks(s.requests), Marks(s.sent));
    i :| 0 <= i < |Marks(s.sent)| && Marks(s.sent)[i] == mark;
  }

  lemma TimesKept(s: System, t: System)
    requires TimesWell(s) && t.clientEvents == s.clientEvents && s.now <= t.now
    requires |s.sent| == |s.sentAt| && |t.sent| == |t.sentAt| && s.sent <= t.sent && s.sentAt <= t.sentAt
    ensures TimesWell(t)
  {
    forall j | 0 <= j < |SampleMarks(t.clientEvents)|
      ensures HasSender(t, j)
    {
      assert HasSender(s, j);
      var i: nat :| ComesFrom(s, j, i);
      assert ComesFrom(t, j, i);
    }
  }

  lemma TimesReceived(s: System, t: System, cb: Callback, i: nat)
    requires TimesWell(s) && t.clientEvents == s.clientEvents + [cb]
    requires t.now == s.now && t.sent == s.sent && t.sentAt == s.sentAt && |s.sent| == |s.sentAt|
    requires cb.Sample? ==>
      cb.at == s.now && i < |s.sent| && MarkOf(s.sent[i]) == MarkOf(cb.message) && s.sentAt[i] <= s.now
    ensures TimesWell(t)
  {
    ArrivalsPush(s.clientEvents, cb);
    SampleMarksPush(s.clientEvents, cb);
    hide Arrivals, SampleMarks;
    forall j | 0 <= j < |SampleMarks(t.clientEvents)|
      ensures HasSender(t, j)
    {
      if j < |SampleMarks(s.clientEvents)| {
        assert HasSender(s, j);
        var k: nat :| ComesFrom(s, j, k);
        assert ComesFrom(t, j, k);
      } else {
        assert ComesFrom(t, j, i);
      }
    }
  }

  lemma TimesStep(s: System, a: Action)
    requires InOrder(s) && TimesWell(s)
    ensures TimesWell(Step(s, a))
  {
    hide Arrivals, SampleMarks, Subseq, TimesWell, RequestsInOrder, Conserved, ResponsesInOrder, RequestFor;
    match a
    case DeliverResponse(parsed) =>
      if s.responses != [] {
        var i := ResponseSent(s);
        TimesReceived(s, Step(s, a), Sample(s.responses[0].(text := parsed), s.now), i);
      }
    case ClientEvent(cb) =>
      if !cb.Sample? {
        TimesReceived(s, Step(s, a), cb, 0);
      }
    case _ =>
      TimesKept(s, Step(s, a));
  }

  lemma {:induction false} AlwaysTimesWell(actions: seq<Action>)
    ensures TimesWell(Run(actions))
    decreases |actions|
  {
    if actions == [] {
    } else {
      AlwaysTimesWell(actions[..|actions| - 1]);
      AlwaysInOrder(actions[..|actions| - 1]);
      hide Step, InOrder, TimesWell;
      TimesStep(Run(actions[..|actions| - 1]), actions[|actions| - 1]);
    }
  }

  /** Row j of the round-trip log is computed from the j-th sample. */
  lemma {:induction false} RttRows(cbs: seq<Callback>)
    ensures var rtts, marks, arrivals := ClientRun(cbs).rtts, SampleMarks(cbs), Arrivals(cbs);
            && |rtts| == |marks| == |arrivals|
            && forall j :: 0 <= j < |rtts| ==>
                 rtts[j].count == marks[j].count
                 && rtts[j].millis == Rtt(marks[j].stamp, ClockTime(arrivals[j].at))
    decreases |cbs|
  {
    if cbs == [] {
    } else {
      RttRows(cbs[..|cbs| - 1]);
    }
  }

  /**
   * The row is that of the request sent as number `i`: under its count, and with the whole
   * milliseconds from its sending to its receipt exactly when the sending time fits a stamp.
   */
  ghost predicate TimesRequest(row: RttRow, receivedAt: nat, s: System, i: nat) {
    && i < |s.sent| == |s.sentAt| && s.sent[i].count == row.count && s.sentAt[i] <= receivedAt
    && (row.millis == (receivedAt - s.sentAt[i]) / 1_000_000 <==> s.sentAt[i] < 0x8000_0000 * 1_000_000_000)
  }

  ghost predicate TimesSomeRequest(row: RttRow, receivedAt: nat, s: System) {
    exists i: nat :: TimesRequest(row, receivedAt, s, i)
  }

  /**
   * End to end, in every reachable state: each logged round trip belongs to one request the
   * client sent, and is right, and so not negative, exactly when its sending time fits a stamp.
   */
  lemma RoundTripTimes(actions: seq<Action>)
    ensures var s := Run(actions); var rtts, arrivals := ClientRun(s.clientEvents).rtts, Arrivals(s.clientEvents);
            && |rtts| == |arrivals|
            && forall j :: 0 <= j < |rtts| ==> TimesSomeRequest(rtts[j], arrivals[j].at, s)
  {
    AlwaysTimesWell(actions);
    AlwaysInOrder(actions);
    var s := Run(actions);
    RttRows(s.clientEvents);
    hide Run, ClientRun, Arrivals, SampleMarks, Rtt, FitsStamp, RequestsInOrder, Conserved, ResponsesInOrder;
    var rtts, arrivals := ClientRun(s.clientEvents).rtts, Arrivals(s.clientEvents);
    forall j | 0 <= j < |rtts|
      ensures TimesSomeRequest(rtts[j], arrivals[j].at, s)
    {
      assert HasSender(s, j);
      var i: nat :| ComesFrom(s, j, i);
      assert s.sent[i].timeStamp == Stamp(s.sentAt[i]);
      RttExactIff(s.sentAt[i], arrivals[j].at);
      assert TimesRequest(rtts[j], arrivals[j].at, s, i);
    }
  }

  // ------------------------------------------------ inter-arrival times

  /** The samples a side has received so far: the server's requests, or the client's responses. */
  function EventsOf(s: System, server: bool): seq<Callback> {
    if server then s.serverEvents else s.clientEvents
  }

  lemma {:induction false} SampleCounts(cbs: seq<Callback>)
    ensures |Received(cbs)| == |SampleMarks(cbs)|
    ensures forall k :: 0 <= k < |Received(cbs)| ==> Received(cbs)[k] == SampleMarks(cbs)[k].count
    decreases |cbs|
  {
    if cbs == [] {
    } else {
      SampleCounts(cbs[..|cbs| - 1]);
    }
  }

  /** The marks of a run are those of its samples. */
  lemma {:induction false} SampleMarksLaw(cbs: seq<Callback>)
    ensures |SampleMarks(cbs)| == |Samples(cbs)|
    ensures forall k :: 0 <= k < |Samples(cbs)| ==> SampleMarks(cbs)[k] == MarkOf(Samples(cbs)[k].message)
    decreases |cbs|
  {
    if cbs == [] {
    } else {
      SampleMarksLaw(cbs[..|cbs| - 1]);
    }
  }

  /** On either side counts are not negative and none comes twice. */
  lemma CountsInPipeline(actions: seq<Action>, server: bool)
    ensures var received := Received(EventsOf(Run(actions), server));
            NoRepeats(received) && forall x :: x in received ==> 0 <= x
  {
    hide Run, SampleMarks, Marks, SignalMarks, Subseq, RequestsInOrder, Conserved, ResponsesInOrder, RequestFor;
    PipelineOrder(actions);
    AlwaysInOrder(actions);
    var s := Run(actions);
    var cbs := EventsOf(s, server);
    SampleCounts(cbs);
    SubseqElements(SampleMarks(cbs), Marks(s.sent));
    forall x | x in Received(cbs)
      ensures 0 <= x
    {
      var k :| 0 <= k < |Received(cbs)| && Received(cbs)[k] == x;
      assert SampleMarks(cbs)[k] in Marks(s.sent);
      var i :| 0 <= i < |Marks(s.sent)| && Marks(s.sent)[i] == SampleMarks(cbs)[k];
      assert s.sent[i].count == x;
    }
  }

  /** The queue of arrival times has grown once for each of the counts 0 and 1 received. */
  lemma {:induction false} GrownByFirstTwo(cbs: seq<Callback>)
    requires NoRepeats(Received(cbs)) && forall x :: x in Received(cbs) ==> 0 <= x
    ensures Grown(Arrivals(cbs))
         == (if 0 in Received(cbs) then 1 else 0) + (if 1 in Received(cbs) then 1 else 0)
    decreases |cbs|
  {
    if cbs == [] {
    } else {
      var before, last := cbs[..|cbs| - 1], cbs[|cbs| - 1];
      if last.Sample? {
        var x := last.message.count;
        NoRepeatsPush(Received(before), x);
        assert x in Received(before) + [x];
        assert forall y :: y in Received(before) ==> y in Received(before) + [x];
        GrownOnce(Arrivals(before), Arrival(x, last.at));
      }
      GrownByFirstTwo(before);
    }
  }

  lemma GrownOnce(arrivals: seq<Arrival>, a: Arrival)
    ensures Grown(arrivals + [a]) == Grown(arrivals) + if a.count > 1 then 0 else 1
  {
    assert (arrivals + [a])[..|arrivals|] == arrivals;
  }

  /**
   * Inter-arrival times in every reachable state, on either side: when a sample with count
   * above 1 has just been logged, and no two samples came at the same time, its interval was
   * measured from the previous arrival if and only if the samples 0 and 1 both got through.
   */
  lemma IntervalsInPipeline(actions: seq<Action>, server: bool)
    requires var arrivals := Arrivals(EventsOf(Run(actions), server));
             arrivals != [] && arrivals[|arrivals| - 1].count > 1 && Distinct(arrivals)
    ensures var cbs := EventsOf(Run(actions), server); var arrivals := Arrivals(cbs);
            var queue := SlideAll(NOTHING, arrivals).queue;
            (|arrivals| >= 2 && queue != [] && queue[0] == ClockTime(arrivals[|arrivals| - 2].at))
            <==> 0 in Received(cbs) && 1 in Received(cbs)
  {
    hide Run, SlideAll, Grown, Received, Arrivals, NoRepeats, ClockTime;
    var cbs := EventsOf(Run(actions), server);
    CountsInPipeline(actions, server);
    GrownByFirstTwo(cbs);
    if Grown(Arrivals(cbs)) >= 1 {
      TrueIntervalIff(Arrivals(cbs));
    } else {
      QueueLaw(Arrivals(cbs));
    }
  }
}
