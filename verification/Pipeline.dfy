/**
 * The whole gateway as a step machine: the client's writer, a lossy ordered request
 * channel, the server's listener and message queue, the responder, a lossy ordered
 * response channel, the client's listener, and the environment that delivers results.
 * Every sequence of actions is a run; an action that is not possible changes nothing.
 */
module Pipeline {
  import opened Common
  import opened Cdr
  import opened MessengerTypes
  import opened ArrivalTimes
  import opened Xml
  import opened StringTables
  import opened Callbacks
  import opened ServerListener
  import opened Sender
  import opened Responder

  /** Where the responder is in its loop; the batch is the one listed by the items, if any. */
  datatype Phase =
    | Idle
    | Taken(signal: Signal)
    | Composed(signal: Signal, items: seq<string>, batch: Option<nat>)
    | Written(signal: Signal)

  /** What has happened to the result table, oldest first; batches are numbered as they arrive. */
  datatype TableEvent = Fill(batch: nat) | ReadRows | Wipe

  datatype System = System(
    now: nat,
    nextCount: nat,
    sent: seq<Message<Forest>>,
    sentAt: seq<nat>,
    requests: seq<Message<Forest>>,
    serverEvents: seq<Callback>,
    queue: seq<Signal>,
    phase: Phase,
    results: Results,
    batches: seq<seq<string>>,
    tableEvents: seq<TableEvent>,
    answered: seq<Message<Forest>>,
    published: seq<Option<nat>>,
    responses: seq<Message<Forest>>,
    clientEvents: seq<Callback>)

  datatype Action =
    | Tick(nanos: nat)
    | Send(ok: bool)
    | LoseRequest(k: nat)
    | DeliverRequest(parsed: Forest, at: nat)
    | ServerEvent(cb: Callback)
    | Dequeue
    | ReadResults
    | WriteResponse(ok: bool)
    | ClearResults
    | DeliverBatch(batch: seq<string>)
    | LoseResponse(k: nat)
    | DeliverResponse(parsed: Forest)
    | ClientEvent(cb: Callback)

  /** The subject of responses, which the responder never sets. */
  const SUBJECT: byte := 0

  const INIT := System(0, 0, [], [], [], [], [], Idle, NoResults(), [], [], [], [], [], [])

  function Remove<T>(s: seq<T>, k: nat): seq<T>
    requires k < |s|
  {
    s[..k] + s[k + 1..]
  }

  /** The batch last delivered, unless the table has been read or emptied since. */
  function Waiting(events: seq<TableEvent>): Option<nat> {
    if events != [] && events[|events| - 1].Fill? then Some(events[|events| - 1].batch) else None
  }

  function Step(s: System, a: Action): System {
    match a
    case Tick(nanos) => s.(now := s.now + nanos)
    case Send(ok) =>
      if s.nextCount >= SEND_LIMIT then s else
      var m := RequestFor(s.nextCount, s.now);
      if ok
      then s.(nextCount := s.nextCount + 1, sent := s.sent + [m], sentAt := s.sentAt + [s.now],
              requests := s.requests + [m])
      else s.(nextCount := s.nextCount + 1)
    case LoseRequest(k) =>
      if k >= |s.requests| then s else s.(requests := Remove(s.requests, k))
    case DeliverRequest(parsed, at) =>
      if s.requests == [] then s else
      var m := s.requests[0];
      var cb := Sample(m.(text := parsed), at);
      s.(requests := s.requests[1..], serverEvents := s.serverEvents + [cb],
         queue := s.queue + [Signal(REQUEST, m.timeStamp, m.count)])
    case ServerEvent(cb) =>
      if cb.Sample? then s else s.(serverEvents := s.serverEvents + [cb])
    case Dequeue =>
      if s.phase.Idle? && s.queue != []
      then s.(phase := Taken(s.queue[0]), queue := s.queue[1..])
      else s
    case ReadResults =>
      if !s.phase.Taken? || !GoodResults(s.results) then s else
      s.(phase := Composed(s.phase.signal, Listed(s.results), Waiting(s.tableEvents)),
         tableEvents := s.tableEvents + [ReadRows])
    case WriteResponse(ok) =>
      if !s.phase.Composed? then s else
      var m := ResponseTo(s.phase.signal, s.phase.items, SUBJECT);
      s.(phase := Written(s.phase.signal), answered := s.answered + [m],
         published := s.published + [s.phase.batch],
         responses := if ok then s.responses + [m] else s.responses)
    case ClearResults =>
      if !s.phase.Written? then s else
      s.(phase := Idle, results := NoResults(), tableEvents := s.tableEvents + [Wipe])
    case DeliverBatch(batch) =>
      if !IsBatch(batch) || |s.results.rows| != ROWS then s else
      s.(results := Filled(s.results, batch), batches := s.batches + [batch],
         tableEvents := s.tableEvents + [Fill(|s.batches|)])
    case LoseResponse(k) =>
      if k >= |s.responses| then s else s.(responses := Remove(s.responses, k))
    case DeliverResponse(parsed) =>
      if s.responses == [] then s else
      var cb := Sample(s.responses[0].(text := parsed), s.now);
      s.(responses := s.responses[1..], clientEvents := s.clientEvents + [cb])
    case ClientEvent(cb) =>
      if cb.Sample? then s else s.(clientEvents := s.clientEvents + [cb])
  }

  /**
   * What is taken for granted of an action: a document parses to what was printed, up to
   * the whitespace that formatted printing inserts.
   */
  ghost predicate Faithful(s: System, a: Action) {
    a.DeliverRequest? && s.requests != [] ==> Padded(s.requests[0].text, a.parsed)
  }

  function Run(actions: seq<Action>): System
    decreases |actions|
  {
    if actions == [] then INIT else Step(Run(actions[..|actions| - 1]), actions[|actions| - 1])
  }

  ghost predicate FaithfulRun(actions: seq<Action>)
    decreases |actions|
  {
    actions == [] || (FaithfulRun(actions[..|actions| - 1])
                      && Faithful(Run(actions[..|actions| - 1]), actions[|actions| - 1]))
  }

  lemma RunOne(actions: seq<Action>, a: Action)
    ensures Run(actions + [a]) == Step(Run(actions), a)
    ensures FaithfulRun(actions + [a]) <==> FaithfulRun(actions) && Faithful(Run(actions), a)
  {
    hide Step, Faithful;
    assert (actions + [a])[..|actions|] == actions;
  }

  /** What further actions make of a state. */
  function Steps(s: System, more: seq<Action>): System
    decreases |more|
  {
    if more == [] then s else Steps(Step(s, more[0]), more[1..])
  }

  ghost predicate FaithfulSteps(s: System, more: seq<Action>)
    decreases |more|
  {
    more == [] || (Faithful(s, more[0]) && FaithfulSteps(Step(s, more[0]), more[1..]))
  }

  lemma StepFirst(s: System, a: Action, rest: seq<Action>)
    ensures Steps(s, [a] + rest) == Steps(Step(s, a), rest)
    ensures FaithfulSteps(s, [a] + rest) <==> Faithful(s, a) && FaithfulSteps(Step(s, a), rest)
  {
    hide Step, Faithful;
    assert ([a] + rest)[1..] == rest;
  }

  /** A run can be taken up where it stands. */
  lemma {:induction false} RunOn(actions: seq<Action>, more: seq<Action>)
    ensures Run(actions + more) == Steps(Run(actions), more)
    ensures FaithfulRun(actions + more) <==> FaithfulRun(actions) && FaithfulSteps(Run(actions), more)
    decreases |more|
  {
    hide Run, FaithfulRun, Step, Faithful;
    if more == [] {
      assert actions + more == actions;
    } else {
      RunOne(actions, more[0]);
      RunOn(actions + [more[0]], more[1..]);
      assert actions + [more[0]] + more[1..] == actions + more;
    }
  }

  // -------------------------------------------------- what identifies a request

  /** A request is recognised by its count and its timestamp. */
  datatype Mark = Mark(count: Long, stamp: TimeSpec)

  function MarkOf(m: Message<Forest>): Mark {
    Mark(m.count, m.timeStamp)
  }

  function Marks(ms: seq<Message<Forest>>): (r: seq<Mark>)
    ensures |r| == |ms| && forall i :: 0 <= i < |ms| ==> r[i] == MarkOf(ms[i])
  {
    seq(|ms|, i requires 0 <= i < |ms| => MarkOf(ms[i]))
  }

  function SignalMarks(q: seq<Signal>): (r: seq<Mark>)
    ensures |r| == |q| && forall i :: 0 <= i < |q| ==> r[i] == Mark(q[i].count, q[i].sent)
  {
    seq(|q|, i requires 0 <= i < |q| => Mark(q[i].count, q[i].sent))
  }

  /** The samples among a listener's events, in order. */
  function SampleMarks(cbs: seq<Callback>): seq<Mark>
    decreases |cbs|
  {
    if cbs == [] then []
    else
      var before, last := SampleMarks(cbs[..|cbs| - 1]), cbs[|cbs| - 1];
      if last.Sample? then before + [MarkOf(last.message)] else before
  }

  /** The request the responder is working on and has not answered yet. */
  function InService(p: Phase): seq<Mark> {
    match p
    case Idle => []
    case Taken(signal) => [Mark(signal.count, signal.sent)]
    case Composed(signal, _, _) => [Mark(signal.count, signal.sent)]
    case Written(_) => []
  }

  // ------------------------------------------------------------- invariants

  /** The client's side: counts increase, and each sample is the request of its count at its time. */
  ghost predicate SentWell(s: System) {
    && |s.sent| == |s.sentAt| && s.nextCount <= SEND_LIMIT
    && (forall i :: 0 <= i < |s.sent| ==>
         0 <= s.sent[i].count < s.nextCount && s.sentAt[i] <= s.now
         && s.sent[i] == RequestFor(s.sent[i].count, s.sentAt[i]))
    && (forall i, j :: 0 <= i < j < |s.sent| ==> s.sent[i].count < s.sent[j].count)
  }

  /** The request channel: what was received and what is under way, in order, is part of what was sent. */
  ghost predicate RequestsInOrder(s: System) {
    Subseq(SampleMarks(s.serverEvents) + Marks(s.requests), Marks(s.sent))
  }

  /** First in, first out: received is answered, then in service, then queued. */
  ghost predicate Conserved(s: System) {
    SampleMarks(s.serverEvents) == Marks(s.answered) + InService(s.phase) + SignalMarks(s.queue)
  }

  /** The response channel likewise. */
  ghost predicate ResponsesInOrder(s: System) {
    Subseq(SampleMarks(s.clientEvents) + Marks(s.responses), Marks(s.answered))
  }

  lemma MarksPush(ms: seq<Message<Forest>>, m: Message<Forest>)
    ensures Marks(ms + [m]) == Marks(ms) + [MarkOf(m)]
  {
  }

  lemma MarksRemove(ms: seq<Message<Forest>>, k: nat)
    requires k < |ms|
    ensures Marks(Remove(ms, k)) == Remove(Marks(ms), k)
  {
  }

  lemma MarksHead(ms: seq<Message<Forest>>)
    requires ms != []
    ensures Marks(ms) == [MarkOf(ms[0])] + Marks(ms[1..])
  {
  }

  lemma SignalMarksPush(q: seq<Signal>, x: Signal)
    ensures SignalMarks(q + [x]) == SignalMarks(q) + [Mark(x.count, x.sent)]
  {
  }

  lemma SignalMarksHead(q: seq<Signal>)
    requires q != []
    ensures SignalMarks(q) == [Mark(q[0].count, q[0].sent)] + SignalMarks(q[1..])
  {
  }

  lemma SampleMarksPush(cbs: seq<Callback>, cb: Callback)
    ensures SampleMarks(cbs + [cb])
         == if cb.Sample? then SampleMarks(cbs) + [MarkOf(cb.message)] else SampleMarks(cbs)
  {
    assert (cbs + [cb])[..|cbs|] == cbs;
  }

  lemma AppendAssoc<T>(a: seq<T>, b: seq<T>, c: seq<T>)
    ensures (a + b) + c == a + (b + c)
  {
  }

  lemma AppendNothing<T>(a: seq<T>)
    ensures a + [] == a
  {
  }

  lemma SentStep(s: System, a: Action)
    requires SentWell(s)
    ensures SentWell(Step(s, a))
  {
    hide Remove, Listed, GoodResults, Filled, IsBatch, NoResults, Waiting, RequestDoc, Stamp;
  }

  /** Adding an element to a history, and to the channel behind what is under way or not at all. */
  lemma SendOne(done: seq<Mark>, chan: seq<Message<Forest>>, all: seq<Message<Forest>>, m: Message<Forest>)
    requires Subseq(done + Marks(chan), Marks(all))
    ensures Subseq(done + Marks(chan), Marks(all + [m]))
    ensures Subseq(done + Marks(chan + [m]), Marks(all + [m]))
  {
    hide Subseq;
    MarksPush(all, m);
    MarksPush(chan, m);
    SubseqPush(done + Marks(chan), Marks(all), MarkOf(m));
    AppendAssoc(done, Marks(chan), [MarkOf(m)]);
  }

  /** Losing an element under way, behind those already received. */
  lemma LoseOne(done: seq<Mark>, chan: seq<Message<Forest>>, k: nat, all: seq<Mark>)
    requires k < |chan| && Subseq(done + Marks(chan), all)
    ensures Subseq(done + Marks(Remove(chan, k)), all)
  {
    var whole := done + Marks(chan);
    SubseqRemove(whole, |done| + k, all);
    MarksRemove(chan, k);
    assert whole[..|done| + k] + whole[|done| + k + 1..] == done + Remove(Marks(chan), k);
  }

  /** Delivering the first element under way. */
  lemma DeliverOne(cbs: seq<Callback>, chan: seq<Message<Forest>>, cb: Callback)
    requires chan != [] && cb.Sample? && MarkOf(cb.message) == MarkOf(chan[0])
    ensures SampleMarks(cbs + [cb]) + Marks(chan[1..]) == SampleMarks(cbs) + Marks(chan)
  {
    SampleMarksPush(cbs, cb);
    MarksHead(chan);
  }

  lemma RequestsStep(s: System, a: Action)
    requires RequestsInOrder(s)
    ensures RequestsInOrder(Step(s, a))
  {
    hide Subseq, SampleMarks, SignalMarks, Marks, Remove, RequestFor;
    hide Listed, GoodResults, Filled, IsBatch, NoResults, Waiting, ResponseDoc;
    var done := SampleMarks(s.serverEvents);
    match a
    case Send(ok) =>
      if s.nextCount < SEND_LIMIT {
        SendOne(done, s.requests, s.sent, RequestFor(s.nextCount, s.now));
      }
    case LoseRequest(k) =>
      if k < |s.requests| {
        LoseOne(done, s.requests, k, Marks(s.sent));
      }
    case DeliverRequest(parsed, at) =>
      if s.requests != [] {
        DeliverOne(s.serverEvents, s.requests, Sample(s.requests[0].(text := parsed), at));
      }
    case ServerEvent(cb) =>
      SampleMarksPush(s.serverEvents, cb);
    case _ =>
  }

  lemma ConservedStep(s: System, a: Action)
    requires Conserved(s)
    ensures Conserved(Step(s, a))
  {
    hide Subseq, SampleMarks, SignalMarks, Marks, Remove, RequestFor;
    hide Listed, GoodResults, Filled, IsBatch, NoResults, Waiting, ResponseDoc;
    match a
    case DeliverRequest(parsed, at) =>
      if s.requests != [] {
        var m := s.requests[0];
        SampleMarksPush(s.serverEvents, Sample(m.(text := parsed), at));
        SignalMarksPush(s.queue, Signal(REQUEST, m.timeStamp, m.count));
        AppendAssoc(Marks(s.answered) + InService(s.phase), SignalMarks(s.queue), [MarkOf(m)]);
      }
    case ServerEvent(cb) =>
      SampleMarksPush(s.serverEvents, cb);
    case Dequeue =>
      if s.phase.Idle? && s.queue != [] {
        SignalMarksHead(s.queue);
        AppendAssoc(Marks(s.answered), InService(Taken(s.queue[0])), SignalMarks(s.queue[1..]));
        AppendNothing(Marks(s.answered));
      }
    case WriteResponse(ok) =>
      if s.phase.Composed? {
        var m := ResponseTo(s.phase.signal, s.phase.items, SUBJECT);
        MarksPush(s.answered, m);
        AppendNothing(Marks(s.answered) + [MarkOf(m)]);
      }
    case _ =>
  }

  lemma ResponsesStep(s: System, a: Action)
    requires ResponsesInOrder(s)
    ensures ResponsesInOrder(Step(s, a))
  {
    hide Subseq, SampleMarks, SignalMarks, Marks, Remove, RequestFor;
    hide Listed, GoodResults, Filled, IsBatch, NoResults, Waiting, ResponseDoc;
    var done := SampleMarks(s.clientEvents);
    match a
    case WriteResponse(ok) =>
      if s.phase.Composed? {
        SendOne(done, s.responses, s.answered, ResponseTo(s.phase.signal, s.phase.items, SUBJECT));
      }
    case LoseResponse(k) =>
      if k < |s.responses| {
        LoseOne(done, s.responses, k, Marks(s.answered));
      }
    case DeliverResponse(parsed) =>
      if s.responses != [] {
        DeliverOne(s.clientEvents, s.responses, Sample(s.responses[0].(text := parsed), s.now));
      }
    case ClientEvent(cb) =>
      SampleMarksPush(s.clientEvents, cb);
    case _ =>
  }

  ghost predicate InOrder(s: System) {
    SentWell(s) && RequestsInOrder(s) && Conserved(s) && ResponsesInOrder(s)
  }

  lemma {:induction false} AlwaysInOrder(actions: seq<Action>)
    ensures InOrder(Run(actions))
    decreases |actions|
  {
    if actions == [] {
    } else {
      var s, a := Run(actions[..|actions| - 1]), actions[|actions| - 1];
      AlwaysInOrder(actions[..|actions| - 1]);
      hide SentWell, RequestsInOrder, Conserved, ResponsesInOrder, Step;
      SentStep(s, a);
      RequestsStep(s, a);
      ConservedStep(s, a);
      ResponsesStep(s, a);
    }
  }

  ghost predicate CountsIncrease(ms: seq<Mark>) {
    forall i, j :: 0 <= i < j < |ms| ==> ms[i].count < ms[j].count
  }

  lemma {:induction false} SubseqIncreases(a: seq<Mark>, b: seq<Mark>)
    requires Subseq(a, b) && CountsIncrease(b)
    ensures CountsIncrease(a)
    decreases |b|
  {
    if a == [] {
    } else {
      var a', b' := a[..|a| - 1], b[..|b| - 1];
      if a[|a| - 1] == b[|b| - 1] && Subseq(a', b') {
        SubseqIncreases(a', b');
        SubseqElements(a', b');
        forall i | 0 <= i < |a'|
          ensures a[i].count < a[|a| - 1].count
        {
          assert a'[i] in b';
        }
      } else {
        SubseqIncreases(a, b');
      }
    }
  }

  /**
   * Conservation and order, in every reachable state: requests are answered first in, first
   * out, and none is invented; the answered ones, and those the client gets back, are in
   * order among those it sent; so response counts strictly increase.
   */
  lemma PipelineOrder(actions: seq<Action>)
    ensures var s := Run(actions);
            && SampleMarks(s.serverEvents) == Marks(s.answered) + InService(s.phase) + SignalMarks(s.queue)
            && Subseq(SampleMarks(s.serverEvents), Marks(s.sent))
            && Subseq(Marks(s.answered), Marks(s.sent))
            && Subseq(SampleMarks(s.clientEvents), Marks(s.answered))
            && Subseq(SampleMarks(s.clientEvents), Marks(s.sent))
            && CountsIncrease(Marks(s.sent)) && CountsIncrease(SampleMarks(s.serverEvents))
            && CountsIncrease(Marks(s.answered)) && CountsIncrease(SampleMarks(s.clientEvents))
  {
    AlwaysInOrder(actions);
    hide Subseq, Run, Marks, SampleMarks, SignalMarks;
    var s := Run(actions);
    var received, answered, back := SampleMarks(s.serverEvents), Marks(s.answered), SampleMarks(s.clientEvents);
    SubseqPrefix(received, Marks(s.requests), Marks(s.sent));
    assert received == answered + (InService(s.phase) + SignalMarks(s.queue));
    SubseqPrefix(answered, InService(s.phase) + SignalMarks(s.queue), Marks(s.sent));
    SubseqPrefix(back, Marks(s.responses), answered);
    SubseqTrans(back, answered, Marks(s.sent));
    assert CountsIncrease(Marks(s.sent));
    SubseqIncreases(received, Marks(s.sent));
    SubseqIncreases(answered, Marks(s.sent));
    SubseqIncreases(back, Marks(s.sent));
  }
}
