/** The events both listeners handle, and what a run of them amounts to. */
module Callbacks {
  import opened Common
  import opened MessengerTypes
  import opened ArrivalTimes
  import opened DeliveryAudit
  import opened Xml

  const NUM_MESSAGES: nat := 40

  /**
   * One call of on_data_available: the status was not OK; a valid sample, taken at a clock
   * reading; or a sample without data and the instance state that explains it. The text of
   * a message is the document it parses to.
   */
  datatype Callback =
    | BadStatus
    | Sample(message: Message<Forest>, at: nat)
    | Disposed
    | NoWriters
    | UnknownState

  predicate Known(cb: Callback) {
    !cb.BadStatus? && !cb.UnknownState?
  }

  ghost predicate AllKnown(cbs: seq<Callback>) {
    forall i :: 0 <= i < |cbs| ==> Known(cbs[i])
  }

  lemma AllKnownPush(cbs: seq<Callback>, cb: Callback)
    ensures AllKnown(cbs + [cb]) <==> AllKnown(cbs) && Known(cb)
  {
    var more := cbs + [cb];
    assert more[|cbs|] == cb;
    if AllKnown(more) {
      forall i | 0 <= i < |cbs|
        ensures Known(cbs[i])
      {
        assert more[i] == cbs[i];
      }
    }
  }

  ghost predicate OnlySamples(cbs: seq<Callback>) {
    forall i :: 0 <= i < |cbs| ==> cbs[i].Sample?
  }

  /** The samples of a run, in order. */
  function Samples(cbs: seq<Callback>): (r: seq<Callback>)
    ensures OnlySamples(r)
    decreases |cbs|
  {
    if cbs == [] then []
    else
      var last := cbs[|cbs| - 1];
      var before := Samples(cbs[..|cbs| - 1]);
      if last.Sample? then before + [last] else before
  }

  /** What the arrival queue sees of them. */
  function Arrivals(cbs: seq<Callback>): seq<Arrival>
    decreases |cbs|
  {
    if cbs == [] then []
    else
      var last := cbs[|cbs| - 1];
      var before := Arrivals(cbs[..|cbs| - 1]);
      if last.Sample? then before + [Arrival(last.message.count, last.at)] else before
  }

  /** Their counts, in order, repeats included. */
  function Received(cbs: seq<Callback>): seq<int>
    decreases |cbs|
  {
    if cbs == [] then []
    else
      var last := cbs[|cbs| - 1];
      var before := Received(cbs[..|cbs| - 1]);
      if last.Sample? then before + [last.message.count] else before
  }

  lemma HistoriesPush(cbs: seq<Callback>, cb: Callback)
    ensures Samples(cbs + [cb]) == if cb.Sample? then Samples(cbs) + [cb] else Samples(cbs)
    ensures Arrivals(cbs + [cb])
         == if cb.Sample? then Arrivals(cbs) + [Arrival(cb.message.count, cb.at)] else Arrivals(cbs)
    ensures Received(cbs + [cb]) == if cb.Sample? then Received(cbs) + [cb.message.count] else Received(cbs)
  {
    assert (cbs + [cb])[..|cbs|] == cbs;
  }

  /** All the samples of a run and nothing else, in order. */
  lemma {:induction false} SamplesAll(cbs: seq<Callback>)
    ensures Subseq(Samples(cbs), cbs)
    ensures forall cb :: multiset(Samples(cbs))[cb] == if cb.Sample? then multiset(cbs)[cb] else 0
    decreases |cbs|
  {
    if cbs == [] {
    } else {
      var before, last := cbs[..|cbs| - 1], cbs[|cbs| - 1];
      SamplesAll(before);
      assert cbs == before + [last];
      SubseqPush(Samples(before), before, last);
      hide Subseq;
    }
  }

  /** The histories are those of the samples: each with its count and the reading it was taken at. */
  lemma {:induction false} SamplesLaw(cbs: seq<Callback>)
    ensures var samples, arrivals, received := Samples(cbs), Arrivals(cbs), Received(cbs);
            && |samples| == |arrivals| == |received|
            && forall i :: 0 <= i < |samples| ==>
                 && arrivals[i] == Arrival(samples[i].message.count, samples[i].at)
                 && received[i] == samples[i].message.count
    decreases |cbs|
  {
    if cbs == [] {
    } else {
      SamplesLaw(cbs[..|cbs| - 1]);
    }
  }

  /** The events are known exactly when none has a bad status or an unknown state. */
  lemma AllKnownIff(cbs: seq<Callback>)
    ensures AllKnown(cbs) <==> BadStatus !in cbs && UnknownState !in cbs
  {
    assert forall i :: 0 <= i < |cbs| ==> (Known(cbs[i]) <==> cbs[i] != BadStatus && cbs[i] != UnknownState);
  }

  ghost predicate NoRepeats(s: seq<int>) {
    forall i, j :: 0 <= i < j < |s| ==> s[i] != s[j]
  }

  lemma NoRepeatsPush(s: seq<int>, x: int)
    ensures NoRepeats(s + [x]) <==> NoRepeats(s) && x !in s
  {
    var t := s + [x];
    assert t[|s|] == x;
    if NoRepeats(t) {
      forall i | 0 <= i < |s|
        ensures s[i] != x
      {
        assert t[i] != t[|s|];
      }
      forall i, j | 0 <= i < j < |s|
        ensures s[i] != s[j]
      {
        assert t[i] != t[j];
      }
    }
  }

  /** A count does not repeat exactly when it occurs at most once. */
  lemma {:induction false} NoRepeatsIff(s: seq<int>)
    ensures NoRepeats(s) <==> forall x :: multiset(s)[x] <= 1
    decreases |s|
  {
    if s == [] {
    } else {
      var init, last := s[..|s| - 1], s[|s| - 1];
      assert s == init + [last];
      NoRepeatsPush(init, last);
      NoRepeatsIff(init);
      assert forall x :: multiset(s)[x] == multiset(init)[x] + if x == last then 1 else 0;
      if NoRepeats(init) && last in init {
        assert multiset(s)[last] >= 2;
      }
    }
  }

  /** The set of counts after a run, given the set before its last event. */
  ghost predicate Collects(counts: seq<int>, received: seq<int>) {
    && Ascending(counts)
    && (forall x :: x in counts <==> x in received)
    && (NoRepeats(received) ==> |counts| == |received|)
  }

  lemma {:induction false} InsertLength(s: seq<int>, x: int)
    requires Ascending(s)
    ensures |Insert(s, x)| == if x in s then |s| else |s| + 1
    decreases |s|
  {
    if s != [] && s[0] < x {
      InsertLength(s[1..], x);
      assert s == [s[0]] + s[1..];
    } else if s != [] && x < s[0] {
      assert forall i :: 0 <= i < |s| ==> s[0] <= s[i];
    }
  }

  lemma CollectsPush(counts: seq<int>, received: seq<int>, x: int)
    requires Collects(counts, received)
    ensures Collects(Insert(counts, x), received + [x])
  {
    InsertAscending(counts, x);
    InsertLength(counts, x);
    NoRepeatsPush(received, x);
  }

  /** Each of 0 .. n-1 exactly once, and nothing else. */
  ghost predicate EachOnce(received: seq<int>, n: nat) {
    forall x :: multiset(received)[x] == if 0 <= x < n then 1 else 0
  }

  lemma EachOnceIff(counts: seq<int>, received: seq<int>, n: nat)
    requires Collects(counts, received)
    ensures NoRepeats(received) && Passes(counts, true, n) <==> EachOnce(received, n)
  {
    NoRepeatsIff(received);
    assert forall x :: x in received <==> multiset(received)[x] > 0;
    if EachOnce(received, n) {
      forall x
        ensures x in counts <==> 0 <= x < n
      {
        assert multiset(received)[x] == if 0 <= x < n then 1 else 0;
      }
    }
    if NoRepeats(received) && Passes(counts, true, n) {
      forall x
        ensures multiset(received)[x] == if 0 <= x < n then 1 else 0
      {
        assert multiset(received)[x] <= 1;
        assert x in counts <==> x in received;
      }
    }
  }
}
