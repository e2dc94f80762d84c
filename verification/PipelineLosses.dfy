/**
 * What becomes of batches and intervals when a batch comes between a read and a clearing,
 * or the first requests are lost; and runs on which that happens.
 */
module PipelineLosses {
  import opened Common
  import opened ArrivalTimes
  import opened Xml
  import opened Callbacks
  import opened Sender
  import opened Responder
  import opened Pipeline
  import opened PipelineTimes
  import opened PipelineResults

  // ------------------------------------------------------------ batches

  /** A request is queued, under way, or can still be sent. */
  predicate RequestLeft(s: System) {
    s.queue != [] || s.requests != [] || s.nextCount < SEND_LIMIT
  }

  /** Batch `b` is in the table, untouched, and the next thing the responder does with the table is to read it. */
  predicate CanBeRead(s: System, b: nat) {
    Waiting(s.tableEvents) == Some(b) && (s.phase.Taken? || (s.phase.Idle? && RequestLeft(s)))
  }

  /** Batch `b` has been published, or read for the response being written. */
  predicate Used(s: System, b: nat) {
    Some(b) in s.published + Pending(s.phase)
  }

  /** These further actions lead to a state in which batch `b` is published. */
  ghost predicate Publishes(s: System, more: seq<Action>, b: nat) {
    FaithfulSteps(s, more) && Some(b) in Steps(s, more).published
  }

  /** A batch that is neither used nor can be read stays so, whatever happens. */
  lemma GoneStep(s: System, a: Action, b: nat)
    requires b < |s.batches| && !Used(s, b) && !CanBeRead(s, b)
    ensures var t := Step(s, a); b < |t.batches| && !Used(t, b) && !CanBeRead(t, b)
  {
    hide RequestFor, Listed, NoResults, Filled, IsBatch, GoodResults, Remove;
  }

  lemma {:induction false} GoneForever(s: System, more: seq<Action>, b: nat)
    requires b < |s.batches| && !Used(s, b) && !CanBeRead(s, b)
    ensures Some(b) !in Steps(s, more).published
    decreases |more|
  {
    hide Step, CanBeRead;
    if more == [] {
    } else {
      GoneStep(s, more[0], b);
      GoneForever(Step(s, more[0]), more[1..], b);
    }
  }

  /** How many more things have to happen before a batch that can be published is. */
  function Distance(s: System): nat {
    match s.phase
    case Composed(_, _, _) => 1
    case Taken(_) => 2
    case Written(_) => 0
    case Idle => if s.queue != [] then 3 else if s.requests != [] then 4 else 5
  }

  /** The next of them. */
  function Nearer(s: System): Action {
    match s.phase
    case Composed(_, _, _) => WriteResponse(true)
    case Taken(_) => ReadResults
    case Written(_) => ClearResults
    case Idle =>
      if s.queue != [] then Dequeue
      else if s.requests != [] then DeliverRequest(s.requests[0].text, s.now)
      else Send(true)
  }

  lemma NearerStep(s: System, b: nat)
    requires GoodResults(s.results) && Some(b) !in s.published
    requires Used(s, b) || CanBeRead(s, b)
    ensures var t := Step(s, Nearer(s));
            && Faithful(s, Nearer(s)) && GoodResults(t.results)
            && (Some(b) in t.published || ((Used(t, b) || CanBeRead(t, b)) && Distance(t) < Distance(s)))
  {
    hide RequestFor, Listed, GoodResults, Padded;
    if s.requests != [] {
      PaddedRefl(s.requests[0].text);
    }
  }

  lemma {:induction false} CanPublish(s: System, b: nat) returns (more: seq<Action>)
    requires GoodResults(s.results)
    requires Used(s, b) || CanBeRead(s, b)
    ensures Publishes(s, more, b)
    decreases Distance(s)
  {
    hide Step, Faithful, CanBeRead, Used, GoodResults, Distance, Nearer;
    more := [];
    if Some(b) !in s.published {
      NearerStep(s, b);
      var t := Step(s, Nearer(s));
      if Some(b) !in t.published {
        more := CanPublish(t, b);
      }
      StepFirst(s, Nearer(s), more);
      more := [Nearer(s)] + more;
    }
  }

  /**
   * In every reachable state: a delivered batch can still come to be published if and only
   * if it has been read already, or it waits in the table for a responder that will read the
   * table before it clears it, and a request to answer is left.
   */
  lemma PublishableIff(actions: seq<Action>, b: nat)
    requires b < |Run(actions).batches|
    ensures var s := Run(actions);
            (exists more :: Publishes(s, more, b)) <==> Used(s, b) || CanBeRead(s, b)
  {
    hide Run, Used, CanBeRead, Steps, FaithfulSteps;
    var s := Run(actions);
    AlwaysPublishesWell(actions);
    if Used(s, b) || CanBeRead(s, b) {
      var more := CanPublish(s, b);
    } else {
      forall more
        ensures !Publishes(s, more, b)
      {
        GoneForever(s, more, b);
      }
    }
  }

  /** A batch that arrives between the reading and the clearing of the table is never published. */
  lemma DeliveredInBetween(actions: seq<Action>, batch: seq<string>, more: seq<Action>)
    requires (Run(actions).phase.Composed? || Run(actions).phase.Written?) && IsBatch(batch)
    ensures var b := |Run(actions).batches|; var t := Run(actions + [DeliverBatch(batch)] + more);
            Run(actions + [DeliverBatch(batch)]).batches == Run(actions).batches + [batch]
            && Some(b) !in t.published
  {
    hide Run, Steps, FaithfulRun, FaithfulSteps, IsBatch, Filled, Numbered, Current, Sources, Listed;
    var s, a := Run(actions), DeliverBatch(batch);
    AlwaysPublishesWell(actions);
    Publication(actions);
    RunOne(actions, a);
    RunOn(actions + [a], more);
    GoneForever(Step(s, a), more, |s.batches|);
  }

  /** The document of a request, as it is printed and parsed when no whitespace is inserted. */
  function Plain(count: nat): Forest {
    RequestDoc(ServiceOf(count), ItemsOf(count))
  }

  /** A request is sent, received and taken, and the table is read for it. */
  const READ_ONCE: seq<Action> := [Send(true), DeliverRequest(Plain(0), 0), Dequeue, ReadResults]

  lemma ReadOnce()
    ensures FaithfulRun(READ_ONCE) && Run(READ_ONCE).phase.Composed? && Run(READ_ONCE).batches == []
  {
    hide RequestDoc, Stamp, Padded, Listed;
    PaddedRefl(Plain(0));
    var a := [Send(true)];
    RunOne([], Send(true));
    assert [] + [Send(true)] == a;
    RunOne(a, DeliverRequest(Plain(0), 0));
    RunOne(a + [DeliverRequest(Plain(0), 0)], Dequeue);
    RunOne(a + [DeliverRequest(Plain(0), 0)] + [Dequeue], ReadResults);
    assert READ_ONCE == a + [DeliverRequest(Plain(0), 0)] + [Dequeue] + [ReadResults];
  }

  /** So any batch at all can be lost: delivered at that point of that run, it is never published. */
  lemma BatchLost(batch: seq<string>, more: seq<Action>)
    requires IsBatch(batch)
    ensures FaithfulRun(READ_ONCE + [DeliverBatch(batch)])
    ensures Run(READ_ONCE + [DeliverBatch(batch)]).batches == [batch]
    ensures Some(0) !in Run(READ_ONCE + [DeliverBatch(batch)] + more).published
  {
    hide Run, FaithfulRun;
    ReadOnce();
    RunOne(READ_ONCE, DeliverBatch(batch));
    DeliveredInBetween(READ_ONCE, batch, more);
  }

  // ---------------------------------------------------------- intervals

  /** The interval logged for the last of some arrivals, given whether samples 0 and 1 are among them. */
  function IntervalOf(arrivals: seq<Arrival>, zero: bool, one: bool): Option<int>
    requires arrivals != []
  {
    var last := |arrivals| - 1;
    if zero && one && last > 0 then Some(TruncDiv(arrivals[last].at - arrivals[last - 1].at, 1_000_000))
    else if zero || one then Some(0)
    else None
  }

  /**
   * The value of every interval, in every reachable state and on either side: the time since
   * the previous arrival when samples 0 and 1 both got through, zero when one of them did,
   * and undefined when neither did.
   */
  lemma IntervalValues(actions: seq<Action>, server: bool)
    requires var arrivals := Arrivals(EventsOf(Run(actions), server));
             arrivals != [] && arrivals[|arrivals| - 1].count > 1
    ensures var received := Received(EventsOf(Run(actions), server));
            var arrivals := Arrivals(EventsOf(Run(actions), server));
            var last, log := arrivals[|arrivals| - 1], SlideAll(NOTHING, arrivals).log;
            log != [] && log[|log| - 1]
                 == Interval(last.count, IntervalOf(arrivals, 0 in received, 1 in received))
  {
    hide Run, SlideAll, Grown, Received, Arrivals, NoRepeats;
    var cbs := EventsOf(Run(actions), server);
    CountsInPipeline(actions, server);
    GrownByFirstTwo(cbs);
    GrownKept(Arrivals(cbs));
    IntervalLaw(Arrivals(cbs));
  }

  /** Requests 0, 1 and 2 are on their way. */
  const THREE_SENT: seq<Action> := [Send(true)] + [Send(true)] + [Send(true)]

  lemma ThreeSent()
    ensures FaithfulRun(THREE_SENT)
    ensures var s := Run(THREE_SENT);
            s.requests == [RequestFor(0, 0), RequestFor(1, 0), RequestFor(2, 0)] && s.serverEvents == []
  {
    hide RequestFor;
    assert [] + [Send(true)] == [Send(true)];
    RunOne([], Send(true));
    RunOne([Send(true)], Send(true));
    RunOne([Send(true)] + [Send(true)], Send(true));
  }

  /** The next request under way is received at time `at`. */
  lemma ReceiveNext(actions: seq<Action>, count: nat, at: nat)
    requires count < SEND_LIMIT && FaithfulRun(actions)
    requires Run(actions).requests != [] && Run(actions).requests[0] == RequestFor(count, 0)
    ensures var s, more := Run(actions), actions + [DeliverRequest(Plain(count), at)];
            && FaithfulRun(more) && Run(more).requests == s.requests[1..]
            && Arrivals(Run(more).serverEvents) == Arrivals(s.serverEvents) + [Arrival(count, at)]
  {
    hide Run, FaithfulRun, Padded, RequestDoc, Stamp, Arrivals;
    var s := Run(actions);
    PaddedRefl(Plain(count));
    RunOne(actions, DeliverRequest(Plain(count), at));
    ArrivalsPush(s.serverEvents, Sample(s.requests[0].(text := Plain(count)), at));
  }

  lemma LoseNext(actions: seq<Action>)
    requires FaithfulRun(actions) && Run(actions).requests != []
    ensures var s, more := Run(actions), actions + [LoseRequest(0)];
            && FaithfulRun(more) && Run(more).requests == s.requests[1..]
            && Run(more).serverEvents == s.serverEvents
  {
    hide Run, FaithfulRun;
    RunOne(actions, LoseRequest(0));
  }

  /** Request 0 is lost, 1 and 2 arrive. */
  function FirstLost(t1: nat, t2: nat): seq<Action> {
    THREE_SENT + [LoseRequest(0)] + [DeliverRequest(Plain(1), t1)] + [DeliverRequest(Plain(2), t2)]
  }

  /** Requests 0 and 1 are lost, 2 arrives. */
  function BothLost(t2: nat): seq<Action> {
    THREE_SENT + [LoseRequest(0)] + [LoseRequest(0)] + [DeliverRequest(Plain(2), t2)]
  }

  function ServerArrivals(actions: seq<Action>): seq<Arrival> {
    Arrivals(Run(actions).serverEvents)
  }

  /** With request 0 lost, any gap at all between samples 1 and 2 is logged as zero. */
  lemma GapLoggedAsZero(t1: nat, t2: nat)
    ensures FaithfulRun(FirstLost(t1, t2))
    ensures ServerArrivals(FirstLost(t1, t2)) == [Arrival(1, t1), Arrival(2, t2)]
    ensures SlideAll(NOTHING, ServerArrivals(FirstLost(t1, t2))).log == [Interval(2, Some(0))]
  {
    hide Run, FaithfulRun, RequestFor, THREE_SENT, SlideAll, Plain;
    ThreeSent();
    LoseNext(THREE_SENT);
    ReceiveNext(THREE_SENT + [LoseRequest(0)], 1, t1);
    ReceiveNext(THREE_SENT + [LoseRequest(0)] + [DeliverRequest(Plain(1), t1)], 2, t2);
    LogOfTwo(t1, t2);
  }

  lemma LogOfTwo(t1: nat, t2: nat)
    ensures SlideAll(NOTHING, [Arrival(1, t1), Arrival(2, t2)]).log == [Interval(2, Some(0))]
    ensures SlideAll(NOTHING, [Arrival(2, t2)]).log == [Interval(2, None)]
  {
    assert [Arrival(1, t1)] + [Arrival(2, t2)] == [Arrival(1, t1), Arrival(2, t2)];
    SlideOneMore([Arrival(1, t1)], Arrival(2, t2));
    assert [] + [Arrival(1, t1)] == [Arrival(1, t1)] && [] + [Arrival(2, t2)] == [Arrival(2, t2)];
    SlideOneMore([], Arrival(1, t1));
    SlideOneMore([], Arrival(2, t2));
  }

  /** With requests 0 and 1 lost, the interval of sample 2 is undefined. */
  lemma IntervalUndefined(t2: nat)
    ensures FaithfulRun(BothLost(t2))
    ensures ServerArrivals(BothLost(t2)) == [Arrival(2, t2)]
    ensures SlideAll(NOTHING, ServerArrivals(BothLost(t2))).log == [Interval(2, None)]
  {
    hide Run, FaithfulRun, RequestFor, THREE_SENT, SlideAll, Plain;
    ThreeSent();
    LoseNext(THREE_SENT);
    LoseNext(THREE_SENT + [LoseRequest(0)]);
    ReceiveNext(THREE_SENT + [LoseRequest(0)] + [LoseRequest(0)], 2, t2);
    LogOfTwo(0, t2);
  }
}
