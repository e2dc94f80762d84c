/** The steps of the machine, taken together, are what the components' own loops do. */
module PipelineComponents {
  import opened Common
  import opened Cdr
  import opened MessengerTypes
  import opened Xml
  import opened Callbacks
  import opened ServerListener
  import opened ClientListener
  import opened Sender
  import opened Responder
  import opened DataWriter
  import opened Pipeline
  import opened PipelineResults

  /** One undisturbed round of the responder in four steps: what its service loop body does. */
  lemma ServiceRound(s: System, ok: bool)
    requires s.phase.Idle? && s.queue != [] && s.queue[0].command == REQUEST && GoodResults(s.results)
    ensures var t := Step(Step(Step(Step(s, Dequeue), ReadResults), WriteResponse(ok)), ClearResults);
            var m := ResponseTo(s.queue[0], Listed(s.results), SUBJECT);
            && t.phase.Idle? && t.queue == s.queue[1..] && t.results == NoResults()
            && t.answered == s.answered + [m]
            && t.responses == s.responses + if ok then [m] else []
  {
    hide ResponseDoc, Listed, NoResults, Waiting;
    assert s.responses + [] == s.responses;
  }

  /** The four steps of each undisturbed round of the responder, from write number `n` on. */
  function ServiceActions(rounds: nat, env: nat -> Tries, n: nat): seq<Action>
    decreases rounds
  {
    if rounds == 0 then []
    else [Dequeue, ReadResults, WriteResponse(env(n).ok), ClearResults] + ServiceActions(rounds - 1, env, n + 1)
  }

  lemma StepsFour(s: System, a: Action, b: Action, c: Action, d: Action, rest: seq<Action>)
    ensures Steps(s, [a, b, c, d] + rest) == Steps(Step(Step(Step(Step(s, a), b), c), d), rest)
  {
    hide Step, Steps;
    assert [a, b, c, d] + rest == [a] + ([b] + ([c] + ([d] + rest)));
    StepFirst(s, a, [b] + ([c] + ([d] + rest)));
    StepFirst(Step(s, a), b, [c] + ([d] + rest));
    StepFirst(Step(Step(s, a), b), c, [d] + rest);
    StepFirst(Step(Step(Step(s, a), b), c), d, rest);
  }

  /**
   * The machine's service steps refine the service loop: undisturbed, they put on the
   * response channel exactly what the loop writes when it serves the same queue.
   */
  lemma {:induction false} ServiceRefines(s: System, env: nat -> Tries, n: nat)
    requires s.phase.Idle? && GoodResults(s.results)
    requires forall i :: 0 <= i < |s.queue| ==> s.queue[i].command == REQUEST
    ensures var t := Steps(s, ServiceActions(|s.queue|, env, n));
            && t.phase.Idle? && t.queue == []
            && t.responses == s.responses + Served(s.queue, s.results, SUBJECT, env, n)
    decreases |s.queue|
  {
    hide Step, Served, Listed, NoResults, Waiting, ResponseTo;
    if s.queue == [] {
      ServedNothing(s.results, env, n);
      assert s.responses + [] == s.responses;
    } else {
      var ok := env(n).ok;
      var t := Step(Step(Step(Step(s, Dequeue), ReadResults), WriteResponse(ok)), ClearResults);
      ServiceRound(s, ok);
      StepsFour(s, Dequeue, ReadResults, WriteResponse(ok), ClearResults,
                ServiceActions(|s.queue| - 1, env, n + 1));
      EmptyIsGood();
      ServiceRefines(t, env, n + 1);
      ServedOne(s.responses, s.queue, s.results, env, n);
    }
  }

  lemma ServedNothing(r: Results, env: nat -> Tries, n: nat)
    requires GoodResults(r)
    ensures Served([], r, SUBJECT, env, n) == []
  {
  }

  lemma ServedOne(before: seq<Message<Forest>>, queue: seq<Signal>, r: Results, env: nat -> Tries, n: nat)
    requires GoodResults(r) && GoodResults(NoResults()) && queue != [] && queue[0].command == REQUEST
    ensures var m := ResponseTo(queue[0], Listed(r), SUBJECT);
            before + Served(queue, r, SUBJECT, env, n)
            == before + (if env(n).ok then [m] else []) + Served(queue[1..], NoResults(), SUBJECT, env, n + 1)
  {
    hide Listed, NoResults, ResponseTo;
  }

  lemma {:induction false} OnlyRequestsQueued(actions: seq<Action>)
    ensures forall i :: 0 <= i < |Run(actions).queue| ==> Run(actions).queue[i].command == REQUEST
    decreases |actions|
  {
    if actions == [] {
    } else {
      hide Remove, Listed, Filled, RequestFor, ResponseTo;
      OnlyRequestsQueued(actions[..|actions| - 1]);
    }
  }

  /** So in every reachable state in which the responder is at the head of its loop. */
  lemma ServiceInPipeline(actions: seq<Action>, env: nat -> Tries)
    ensures var s := Run(actions); var t := Steps(s, ServiceActions(|s.queue|, env, 0));
            && GoodResults(s.results)
            && (s.phase.Idle? ==>
                 t.phase.Idle? && t.queue == []
                 && t.responses == s.responses + Served(s.queue, s.results, SUBJECT, env, 0))
  {
    hide Run, Steps, ServiceActions, Served;
    var s := Run(actions);
    OnlyRequestsQueued(actions);
    AlwaysPublishesWell(actions);
    if s.phase.Idle? {
      ServiceRefines(s, env, 0);
    }
  }

  lemma EmptyIsGood()
    ensures GoodResults(NoResults())
  {
  }

  /** The responses to a queue are to some of its signals, in their order, none twice. */
  lemma {:induction false} ServedInOrder(queue: seq<Signal>, r: Results, subject: byte, env: nat -> Tries, n: nat)
    requires GoodResults(r)
    ensures Subseq(Marks(Served(queue, r, subject, env, n)), SignalMarks(queue))
    decreases |queue|
  {
    hide Served, Subseq, Marks, SignalMarks, GoodResults, Listed, ResponseDoc;
    if queue == [] {
      ServedEmpty(r, subject, env, n);
      NoMarks();
    } else {
      var init, last := queue[..|queue| - 1], queue[|queue| - 1];
      var served := Served(init, r, subject, env, n);
      assert queue == init + [last];
      ServedInOrder(init, r, subject, env, n);
      ServedOneMore(init, last, r, subject, env, n);
      SignalMarksPush(init, last);
      SubseqPush(Marks(served), SignalMarks(init), Mark(last.count, last.sent));
      MarksPush(served, ResponseTo(last, if NoRequest(init) then Listed(r) else [], subject));
      assert served + [] == served;
    }
  }

  lemma NoMarks()
    ensures Subseq(Marks([]), SignalMarks([]))
  {
  }

  /** The clock reading before round `n`, and how much time passes until that round's write. */
  function ReadingBefore(env: nat -> Attempt, n: nat): nat {
    if n == 0 then 0 else env(n - 1).at
  }

  function Passed(env: nat -> Attempt, n: nat): nat {
    if env(n).at >= ReadingBefore(env, n) then env(n).at - ReadingBefore(env, n) else 0
  }

  /** The actions of a sender on its own: in each round time passes and one write is made. */
  function SenderActions(env: nat -> Attempt, n: nat): seq<Action> {
    if n == 0 then []
    else SenderActions(env, n - 1) + [Tick(Passed(env, n - 1)), Send(env(n - 1).tries.ok)]
  }

  ghost predicate Monotonic(env: nat -> Attempt) {
    forall i, j :: 0 <= i < j ==> env(i).at <= env(j).at
  }

  lemma PassedAdds(env: nat -> Attempt, n: nat)
    requires Monotonic(env)
    ensures ReadingBefore(env, n) + Passed(env, n) == ReadingBefore(env, n + 1) == env(n).at
  {
  }

  lemma RunTwo(actions: seq<Action>, a: Action, b: Action)
    ensures Run(actions + [a, b]) == Step(Step(Run(actions), a), b)
  {
    var more := actions + [a, b];
    assert more[..|more| - 1] == actions + [a];
    assert (actions + [a])[..|actions|] == actions;
  }

  lemma SendRound(s: System, passed: nat, ok: bool)
    requires s.nextCount < SEND_LIMIT
    ensures var t := Step(Step(s, Tick(passed)), Send(ok)); var m := RequestFor(s.nextCount, s.now + passed);
            && t.nextCount == s.nextCount + 1 && t.now == s.now + passed
            && t.sent == (if ok then s.sent + [m] else s.sent)
            && t.requests == (if ok then s.requests + [m] else s.requests)
  {
    hide RequestFor;
  }

  /** Under a monotonic clock the machine's send steps produce exactly the samples of the sender's loop. */
  lemma {:induction false} SenderRefines(env: nat -> Attempt, n: nat)
    requires Monotonic(env) && n <= SEND_LIMIT
    ensures var s := Run(SenderActions(env, n));
            && s.nextCount == n && s.sent == SentIn(env, n) && s.requests == SentIn(env, n)
            && s.now == ReadingBefore(env, n)
    decreases n
  {
    hide RequestFor, Run, Step, Monotonic, Passed, ReadingBefore, SentIn, SenderActions;
    if n == 0 {
      SenderAtRest(env);
    } else {
      SenderRefines(env, n - 1);
      PassedAdds(env, n - 1);
      SenderUnfolds(env, n);
      SendRound(Run(SenderActions(env, n - 1)), Passed(env, n - 1), env(n - 1).tries.ok);
      RunTwo(SenderActions(env, n - 1), Tick(Passed(env, n - 1)), Send(env(n - 1).tries.ok));
    }
  }

  lemma SenderAtRest(env: nat -> Attempt)
    ensures SenderActions(env, 0) == [] && SentIn(env, 0) == [] && ReadingBefore(env, 0) == 0
    ensures Run([]) == INIT
  {
  }

  lemma SenderUnfolds(env: nat -> Attempt, n: nat)
    requires 0 < n <= SEND_LIMIT
    ensures SenderActions(env, n) == SenderActions(env, n - 1) + [Tick(Passed(env, n - 1)), Send(env(n - 1).tries.ok)]
    ensures SentIn(env, n) == if env(n - 1).tries.ok then SentIn(env, n - 1) + [RequestFor(n - 1, env(n - 1).at)]
                              else SentIn(env, n - 1)
  {
  }

  /** A delivery step is one callback of the listener on either side. */
  lemma DeliveriesAreCallbacks(s: System, parsed: Forest, at: nat)
    ensures s.requests != [] && CanServeAll(s.serverEvents)
              && CanServe(Sample(s.requests[0].(text := parsed), at)) ==>
            var t := Step(s, DeliverRequest(parsed, at));
            && CanServeAll(t.serverEvents)
            && ServerRun(t.serverEvents)
                 == ServerStep(ServerRun(s.serverEvents), Sample(s.requests[0].(text := parsed), at))
            && t.queue == s.queue + [ServerRun(t.serverEvents).signals[|ServerRun(s.serverEvents).signals|]]
    ensures s.responses != [] ==>
            ClientRun(Step(s, DeliverResponse(parsed)).clientEvents)
              == ClientStep(ClientRun(s.clientEvents), Sample(s.responses[0].(text := parsed), s.now))
  {
    if s.requests != [] {
      var cb := Sample(s.requests[0].(text := parsed), at);
      if CanServeAll(s.serverEvents) && CanServe(cb) {
        assert (s.serverEvents + [cb])[..|s.serverEvents|] == s.serverEvents;
      }
    }
    if s.responses != [] {
      var cb := Sample(s.responses[0].(text := parsed), s.now);
      assert (s.clientEvents + [cb])[..|s.clientEvents|] == s.clientEvents;
    }
  }
}
