/**
 * Result batches: each is published at most once, whole, and exactly when it is read before
 * anything else happens to it.
 */
module PipelineResults {
  import opened Common
  import opened Xml
  import opened Sender
  import opened Responder
  import opened Pipeline

  /** The batch that is in the table now. */
  function Current(events: seq<TableEvent>): Option<nat>
    decreases |events|
  {
    if events == [] then None else
    match events[|events| - 1]
    case Fill(b) => Some(b)
    case Wipe => None
    case ReadRows => Current(events[..|events| - 1])
  }

  /** What each read so far found, oldest first. */
  function Sources(events: seq<TableEvent>): seq<Option<nat>>
    decreases |events|
  {
    if events == [] then [] else
    var before := events[..|events| - 1];
    if events[|events| - 1].ReadRows? then Sources(before) + [Waiting(before)] else Sources(before)
  }

  /** The batches are numbered 0, 1, ... in the order of their events. */
  ghost predicate Numbered(events: seq<TableEvent>, n: nat)
    decreases |events|
  {
    if events == [] then n == 0 else
    var before := events[..|events| - 1];
    match events[|events| - 1]
    case Fill(b) => b + 1 == n && Numbered(before, b)
    case _ => Numbered(before, n)
  }

  function ItemsOfBatch(b: Option<nat>, batches: seq<seq<string>>): seq<string> {
    if b.Some? && b.value < |batches| then batches[b.value] else []
  }

  function Pending(p: Phase): seq<Option<nat>> {
    match p
    case Composed(_, _, batch) => [batch]
    case _ => []
  }

  ghost predicate KnownBatch(b: Option<nat>, n: nat) {
    b.Some? ==> b.value < n
  }

  /** The table holds exactly the current batch, or nothing. */
  ghost predicate TableHolds(s: System) {
    && GoodResults(s.results) && Numbered(s.tableEvents, |s.batches|)
    && KnownBatch(Current(s.tableEvents), |s.batches|)
    && Listed(s.results) == ItemsOfBatch(Current(s.tableEvents), s.batches)
  }

  /** Between two reads the table is emptied. */
  ghost predicate ReadsAlternate(s: System) {
    (s.phase.Idle? || s.phase.Taken?) ==>
      (s.tableEvents == [] || !s.tableEvents[|s.tableEvents| - 1].ReadRows?)
  }

  /** Every response lists the batch its read found. */
  ghost predicate ResponsesListBatches(s: System) {
    && |s.published| == |s.answered|
    && s.published + Pending(s.phase) == Sources(s.tableEvents)
    && (forall k :: 0 <= k < |s.answered| ==> ListsBatch(s, k))
    && (s.phase.Composed? ==> KnownBatch(s.phase.batch, |s.batches|)
                              && s.phase.items == ItemsOfBatch(s.phase.batch, s.batches))
  }

  ghost predicate ListsBatch(s: System, k: nat)
    requires k < |s.answered| == |s.published|
  {
    KnownBatch(s.published[k], |s.batches|)
    && s.answered[k].text == ResponseDoc(ItemsOfBatch(s.published[k], s.batches))
  }

  ghost predicate PublishesWell(s: System) {
    TableHolds(s) && ReadsAlternate(s) && ResponsesListBatches(s)
  }

  lemma EventPush(events: seq<TableEvent>, e: TableEvent, n: nat)
    ensures Current(events + [e]) == match e case Fill(b) => Some(b) case Wipe => None case ReadRows => Current(events)
    ensures Sources(events + [e]) == if e.ReadRows? then Sources(events) + [Waiting(events)] else Sources(events)
    ensures Numbered(events, n) && !e.Fill? ==> Numbered(events + [e], n)
    ensures Numbered(events, n) && e == Fill(n) ==> Numbered(events + [e], n + 1)
  {
    assert (events + [e])[..|events|] == events;
  }

  /** When the last event is not a read, the batch waiting is the one in the table. */
  lemma WaitingIsCurrent(events: seq<TableEvent>)
    requires events == [] || !events[|events| - 1].ReadRows?
    ensures Waiting(events) == Current(events)
  {
  }

  lemma MoreBatches(b: Option<nat>, batches: seq<seq<string>>, batch: seq<string>)
    requires KnownBatch(b, |batches|)
    ensures KnownBatch(b, |batches| + 1) && ItemsOfBatch(b, batches + [batch]) == ItemsOfBatch(b, batches)
  {
  }

  lemma ReadStep(s: System)
    requires PublishesWell(s) && s.phase.Taken?
    ensures PublishesWell(Step(s, ReadResults))
  {
    var t := Step(s, ReadResults);
    EventPush(s.tableEvents, ReadRows, |s.batches|);
    WaitingIsCurrent(s.tableEvents);
    assert s.published + [] == s.published;
    assert forall k :: 0 <= k < |s.answered| ==> ListsBatch(s, k) ==> ListsBatch(t, k);
  }

  lemma WriteStep(s: System, ok: bool)
    requires PublishesWell(s) && s.phase.Composed?
    ensures PublishesWell(Step(s, WriteResponse(ok)))
  {
    hide Listed, GoodResults, Numbered, Current, Sources, ResponseDoc;
    var t := Step(s, WriteResponse(ok));
    assert t.published + [] == t.published;
    forall k | 0 <= k < |t.answered|
      ensures ListsBatch(t, k)
    {
      if k < |s.answered| {
        assert ListsBatch(s, k);
      }
    }
  }

  lemma ClearStep(s: System)
    requires PublishesWell(s) && s.phase.Written?
    ensures PublishesWell(Step(s, ClearResults))
  {
    var t := Step(s, ClearResults);
    EventPush(s.tableEvents, Wipe, |s.batches|);
    assert forall k :: 0 <= k < |s.answered| ==> ListsBatch(s, k) ==> ListsBatch(t, k);
  }

  lemma FillStep(s: System, batch: seq<string>)
    requires PublishesWell(s) && IsBatch(batch)
    ensures PublishesWell(Step(s, DeliverBatch(batch)))
  {
    hide Listed, Filled, Numbered, Current, Sources, ResponseDoc, ItemsOfBatch, IsBatch;
    var t := Step(s, DeliverBatch(batch));
    var n := |s.batches|;
    EventPush(s.tableEvents, Fill(n), n);
    ListedAfterFill(s.results, batch);
    NewBatch(s.batches, batch);
    if s.phase.Composed? {
      MoreBatches(s.phase.batch, s.batches, batch);
    }
    forall k | 0 <= k < |t.answered|
      ensures ListsBatch(t, k)
    {
      assert ListsBatch(s, k);
      MoreBatches(s.published[k], s.batches, batch);
    }
  }

  lemma NewBatch(batches: seq<seq<string>>, batch: seq<string>)
    ensures ItemsOfBatch(Some(|batches|), batches + [batch]) == batch
  {
  }

  lemma PublishKept(s: System, t: System)
    requires PublishesWell(s)
    requires t.results == s.results && t.batches == s.batches && t.tableEvents == s.tableEvents
    requires t.answered == s.answered && t.published == s.published
    requires t.phase == s.phase || (s.phase.Idle? && t.phase.Taken?)
    ensures PublishesWell(t)
  {
    hide Listed, GoodResults, Numbered, Current, Sources, ResponseDoc, ItemsOfBatch;
    forall k | 0 <= k < |t.answered|
      ensures ListsBatch(t, k)
    {
      assert ListsBatch(s, k);
    }
  }

  lemma PublishStep(s: System, a: Action)
    requires PublishesWell(s)
    ensures PublishesWell(Step(s, a))
  {
    if a.ReadResults? && s.phase.Taken? {
      ReadStep(s);
    } else if a.WriteResponse? && s.phase.Composed? {
      WriteStep(s, a.ok);
    } else if a.ClearResults? && s.phase.Written? {
      ClearStep(s);
    } else if a.DeliverBatch? && IsBatch(a.batch) {
      FillStep(s, a.batch);
    } else {
      hide PublishesWell, Remove, RequestFor, IsBatch;
      PublishKept(s, Step(s, a));
    }
  }

  lemma {:induction false} AlwaysPublishesWell(actions: seq<Action>)
    ensures PublishesWell(Run(actions))
    decreases |actions|
  {
    if actions == [] {
    } else {
      AlwaysPublishesWell(actions[..|actions| - 1]);
      hide Step, PublishesWell;
      PublishStep(Run(actions[..|actions| - 1]), actions[|actions| - 1]);
    }
  }

  /** Batches found by reads have increasing numbers, all below `n`. */
  ghost predicate BatchesIncrease(sources: seq<Option<nat>>, n: nat) {
    && (forall i :: 0 <= i < |sources| && sources[i].Some? ==> sources[i].value < n)
    && (forall i, j :: 0 <= i < j < |sources| && sources[i].Some? && sources[j].Some?
         ==> sources[i].value < sources[j].value)
  }

  lemma {:induction false} SourcesIncrease(events: seq<TableEvent>, n: nat)
    requires Numbered(events, n)
    ensures BatchesIncrease(Sources(events), n)
    ensures Waiting(events).Some? ==> n == Waiting(events).value + 1 && BatchesIncrease(Sources(events), n - 1)
    decreases |events|
  {
    if events == [] {
    } else {
      var before, last := events[..|events| - 1], events[|events| - 1];
      match last
      case Fill(b) => SourcesIncrease(before, b);
      case _ => SourcesIncrease(before, n);
    }
  }

  /** The event of batch `b` is followed at once by a read. */
  ghost predicate ReadAtOnce(events: seq<TableEvent>, b: nat) {
    exists i :: 0 <= i < |events| - 1 && events[i] == Fill(b) && events[i + 1] == ReadRows
  }

  lemma {:induction false} FoundIff(events: seq<TableEvent>, b: nat)
    ensures Some(b) in Sources(events) <==> ReadAtOnce(events, b)
    decreases |events|
  {
    if events == [] {
    } else {
      var n := |events| - 1;
      var before := events[..n];
      FoundIff(before, b);
      if ReadAtOnce(before, b) {
        var i :| 0 <= i < |before| - 1 && before[i] == Fill(b) && before[i + 1] == ReadRows;
        assert events[i] == Fill(b) && events[i + 1] == ReadRows;
      }
      if ReadAtOnce(events, b) {
        var i :| 0 <= i < |events| - 1 && events[i] == Fill(b) && events[i + 1] == ReadRows;
        if i + 1 < n {
          assert before[i] == Fill(b) && before[i + 1] == ReadRows;
        } else {
          assert before[n - 1] == Fill(b) && Waiting(before) == Some(b);
        }
      }
      if events[n].ReadRows? && Waiting(before) == Some(b) {
        assert events[n - 1] == Fill(b) && events[n] == ReadRows;
      }
    }
  }

  /**
   * Publication, under every interleaving: each response lists exactly one delivered batch,
   * whole and unmixed, or nothing; batches appear in responses in the order they were
   * delivered and none appears twice; and a batch is read for a response exactly when the
   * first thing that happens to the table after its delivery is a read.
   */
  lemma Publication(actions: seq<Action>)
    ensures var s := Run(actions);
            && |s.published| == |s.answered|
            && (forall k :: 0 <= k < |s.answered| ==>
                 s.answered[k].text == ResponseDoc(ItemsOfBatch(s.published[k], s.batches)))
            && BatchesIncrease(s.published, |s.batches|)
            && forall b :: 0 <= b < |s.batches| ==>
                 (Some(b) in s.published + Pending(s.phase) <==> ReadAtOnce(s.tableEvents, b))
  {
    AlwaysPublishesWell(actions);
    hide Run, Sources, Current, Numbered, Listed, GoodResults, ResponseDoc, ReadAtOnce;
    var s := Run(actions);
    SourcesIncrease(s.tableEvents, |s.batches|);
    assert s.published == Sources(s.tableEvents)[..|s.published|];
    forall k | 0 <= k < |s.answered|
      ensures s.answered[k].text == ResponseDoc(ItemsOfBatch(s.published[k], s.batches))
    {
      assert ListsBatch(s, k);
    }
    forall b: nat | b < |s.batches|
      ensures Some(b) in s.published + Pending(s.phase) <==> ReadAtOnce(s.tableEvents, b)
    {
      FoundIff(s.tableEvents, b);
    }
  }
}
