/** Runs in which nothing is lost and every request comes back, and what the audits and the log make of them. */
module PipelineRuns {
  import opened MessengerTypes
  import opened ArrivalTimes
  import opened DeliveryAudit
  import opened Xml
  import opened Callbacks
  import opened ServerListener
  import opened ClientListener
  import opened Sender
  import opened Responder
  import opened Pipeline
  import opened PipelineRequests
  import opened PipelineLosses
  import opened PipelineComponents

  const SERVICE: seq<Action> := [Dequeue, ReadResults, WriteResponse(true), ClearResults]

  /** One request goes all the way and its response comes all the way back. */
  function RoundActions(count: nat, at: nat): seq<Action> {
    [Send(true)] + ([DeliverRequest(Plain(count), at)] + (SERVICE + [DeliverResponse(ResponseDoc([]))]))
  }

  /** Nothing is under way, queued or in service, and there are no results. */
  ghost predicate AtRest(s: System) {
    s.phase.Idle? && s.queue == [] && s.requests == [] && s.responses == [] && s.results == NoResults()
  }

  /** What the client gets back when there are no results. */
  function EmptyResponse(count: nat, sentAt: nat): Message<Forest>
    requires count < SEND_LIMIT
  {
    Message(ResponseDoc([]), count, Stamp(sentAt), SUBJECT)
  }

  lemma RequestArrives(s: System, at: nat)
    requires AtRest(s) && s.nextCount < SEND_LIMIT
    ensures var c := s.nextCount; var t := Step(s, Send(true)); var u := Step(t, DeliverRequest(Plain(c), at));
            && Faithful(s, Send(true)) && Faithful(t, DeliverRequest(Plain(c), at))
            && u.nextCount == c + 1 && u.now == s.now && u.sentAt == s.sentAt + [s.now]
            && u.phase.Idle? && u.requests == [] && u.responses == [] && u.results == NoResults()
            && u.queue == [Signal(REQUEST, Stamp(s.now), c)]
            && u.serverEvents == s.serverEvents + [Sample(RequestFor(c, s.now), at)]
            && u.clientEvents == s.clientEvents
  {
    hide RequestDoc, Stamp, NoResults, Padded;
    PaddedRefl(Plain(s.nextCount));
  }

  lemma {:induction false} FaithfulFrom(s: System, more: seq<Action>)
    requires forall i :: 0 <= i < |more| ==> !more[i].DeliverRequest?
    ensures FaithfulSteps(s, more)
    decreases |more|
  {
    hide Step;
    if more == [] {
    } else {
      FaithfulFrom(Step(s, more[0]), more[1..]);
    }
  }

  lemma ResponseReturns(s: System)
    requires s.phase.Idle? && |s.queue| == 1 && s.queue[0].command == REQUEST
    requires s.requests == [] && s.responses == [] && s.results == NoResults()
    ensures var t := Steps(s, SERVICE + [DeliverResponse(ResponseDoc([]))]);
            && AtRest(t) && t.nextCount == s.nextCount && t.now == s.now && t.sentAt == s.sentAt
            && t.serverEvents == s.serverEvents
            && t.clientEvents == s.clientEvents + [Sample(ResponseTo(s.queue[0], [], SUBJECT), s.now)]
            && FaithfulSteps(s, SERVICE + [DeliverResponse(ResponseDoc([]))])
  {
    hide ResponseDoc, Listed, NoResults, Waiting, GoodResults, FaithfulSteps;
    var back := DeliverResponse(ResponseDoc([]));
    NothingListed();
    StepsFour(s, Dequeue, ReadResults, WriteResponse(true), ClearResults, [back]);
    FaithfulFrom(s, SERVICE + [back]);
  }

  lemma OneRound(s: System, at: nat)
    requires AtRest(s) && s.nextCount < SEND_LIMIT
    ensures var c := s.nextCount; var t := Steps(s, RoundActions(c, at));
            && FaithfulSteps(s, RoundActions(c, at))
            && AtRest(t) && t.nextCount == c + 1 && t.now == s.now && t.sentAt == s.sentAt + [s.now]
            && t.serverEvents == s.serverEvents + [Sample(RequestFor(c, s.now), at)]
            && t.clientEvents == s.clientEvents + [Sample(EmptyResponse(c, s.now), s.now)]
  {
    hide Step, Steps, FaithfulSteps, Faithful, RequestFor, Stamp, ResponseDoc, NoResults;
    var c := s.nextCount;
    var t := Step(s, Send(true));
    var arrive, rest := DeliverRequest(Plain(c), at), SERVICE + [DeliverResponse(ResponseDoc([]))];
    RequestArrives(s, at);
    StepFirst(s, Send(true), [arrive] + rest);
    StepFirst(t, arrive, rest);
    ResponseReturns(Step(t, arrive));
  }

  // ------------------------------------------------------------- audits

  /** The first `n` requests, one after another. */
  function AllThrough(n: nat): seq<Action> {
    if n == 0 then [] else AllThrough(n - 1) + RoundActions(n - 1, 0)
  }

  /** Good events only, with counts 0 .. n-1 in order. */
  ghost predicate CountsUp(cbs: seq<Callback>, n: nat) {
    AllKnown(cbs) && |Received(cbs)| == n && forall i :: 0 <= i < n ==> Received(cbs)[i] == i
  }

  lemma CountsUpPush(cbs: seq<Callback>, n: nat, cb: Callback)
    requires CountsUp(cbs, n) && cb.Sample? && cb.message.count == n
    ensures CountsUp(cbs + [cb], n + 1)
  {
    AllKnownPush(cbs, cb);
    assert (cbs + [cb])[..|cbs|] == cbs;
  }

  /** The run exists for every number of requests the client can send. */
  lemma {:induction false} AllThroughLaw(n: nat)
    requires n <= SEND_LIMIT
    ensures FaithfulRun(AllThrough(n))
    ensures var s := Run(AllThrough(n));
            AtRest(s) && s.nextCount == n && CountsUp(s.serverEvents, n) && CountsUp(s.clientEvents, n)
  {
    hide Steps, FaithfulSteps, Run, FaithfulRun, RoundActions, AtRest, CountsUp, RequestDoc, ResponseDoc, Stamp;
    if n == 0 {
      NothingYet();
    } else {
      AllThroughLaw(n - 1);
      var s := Run(AllThrough(n - 1));
      OneRound(s, 0);
      RunOn(AllThrough(n - 1), RoundActions(n - 1, 0));
      CountsUpPush(s.serverEvents, n - 1, Sample(RequestFor(n - 1, s.now), 0));
      CountsUpPush(s.clientEvents, n - 1, Sample(EmptyResponse(n - 1, s.now), s.now));
    }
  }

  lemma NothingYet()
    ensures Run([]) == INIT && FaithfulRun([]) && AtRest(INIT) && CountsUp([], 0)
  {
  }

  /**
   * When nothing goes wrong at all, on either side: the reliable audit passes after exactly
   * forty requests and after no other number, the unreliable one after ten to forty.
   */
  lemma AuditsWithoutLoss(n: nat)
    requires n <= 1_000_000
    ensures FaithfulRun(AllThrough(n)) && CanServeAll(Run(AllThrough(n)).serverEvents)
    ensures var s := Run(AllThrough(n));
            var server, client := ServerRun(s.serverEvents), ClientRun(s.clientEvents);
            && (server.valid && Passes(server.counts, true, 40) <==> n == 40)
            && (server.valid && Passes(server.counts, false, 40) <==> 10 <= n <= 40)
            && (client.valid && Passes(client.counts, true, 40) <==> n == 40)
            && (client.valid && Passes(client.counts, false, 40) <==> 10 <= n <= 40)
  {
    hide Run, FaithfulRun, AllThrough, ServerRun, ClientRun, Passes, AllKnown, Received, CanServeAll, AtRest;
    AllThroughLaw(n);
    AuditInPipeline(AllThrough(n));
    ClientAuditInPipeline(AllThrough(n));
  }

  // --------------------------------------------------------- round trips

  /** The first request, sent and answered without delay at time `t`. */
  function LateStart(t: nat): seq<Action> {
    [Tick(t)] + RoundActions(0, t)
  }

  /** Its round trip takes no time, and is logged so exactly when the time fits a stamp. */
  lemma RoundTripAt(t: nat)
    ensures FaithfulRun(LateStart(t))
    ensures var s := Run(LateStart(t)); var rtts := ClientRun(s.clientEvents).rtts;
            && s.sentAt == [t] && Arrivals(s.clientEvents) == [Arrival(0, t)]
            && |rtts| == 1 && rtts[0].count == 0
            && (rtts[0].millis == 0 <==> t < 0x8000_0000 * 1_000_000_000)
  {
    hide Run, FaithfulRun, RoundActions, Steps, FaithfulSteps, Stamp, Rtt, ResponseDoc, RequestDoc, FitsStamp;
    TimePasses(t);
    OneRound(Run([Tick(t)]), t);
    RunOn([Tick(t)], RoundActions(0, t));
    RttExactIff(t, t);
    OneSample(Sample(EmptyResponse(0, t), t));
  }

  lemma TimePasses(t: nat)
    ensures FaithfulRun([Tick(t)]) && Run([Tick(t)]) == INIT.(now := t) && AtRest(INIT.(now := t))
  {
    RunOne([], Tick(t));
    assert [] + [Tick(t)] == [Tick(t)];
  }

  lemma OneSample(cb: Callback)
    requires cb.Sample?
    ensures var rtts := ClientRun([cb]).rtts;
            |rtts| == 1 && rtts[0].count == cb.message.count
            && rtts[0].millis == Rtt(cb.message.timeStamp, ClockTime(cb.at))
    ensures Arrivals([cb]) == [Arrival(cb.message.count, cb.at)]
  {
    hide Insert, Slide;
  }
}
