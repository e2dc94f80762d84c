/**
 * The responder's copy loop with batches arriving between any two of its memory accesses:
 * exactly what a response can then list.
 */
module RowReads {
  import opened StringTables
  import opened Responder

  /**
   * The loop in progress: the table, the loop variable, what has been copied, whether the loop
   * test has just succeeded, and whether it has failed and so ended the loop.
   */
  datatype Reading = Reading(table: Results, u: nat, items: seq<string>, inside: bool, done: bool)

  /** The responder's next access, the loop test or the copying of a row; or a batch arrives. */
  datatype Event = Look | Deliver(batch: seq<string>)

  function Begin(r: Results): Reading {
    Reading(r, 1, [], false, false)
  }

  /** A row inside the loop is one of the table's. */
  predicate GoodReading(x: Reading) {
    GoodResults(x.table) && (x.inside ==> x.u < ROWS)
  }

  function Happen(x: Reading, e: Event): (y: Reading)
    requires GoodReading(x)
    ensures GoodReading(y)
  {
    match e
    case Look =>
      if x.done then x
      else if x.inside then x.(items := x.items + [x.table.rows[x.u]], u := x.u + 1, inside := false)
      else if x.u < x.table.changed then x.(inside := true)
      else x.(done := true)
    case Deliver(batch) =>
      if IsBatch(batch) then x.(table := Filled(x.table, batch)) else x
  }

  function After(r: Results, events: seq<Event>): (x: Reading)
    requires GoodResults(r)
    ensures GoodReading(x)
  {
    if events == [] then Begin(r)
    else Happen(After(r, events[..|events| - 1]), events[|events| - 1])
  }

  /** What is listed at the start, then each batch that arrived. */
  function Batches(r: Results, events: seq<Event>): seq<seq<string>>
    requires GoodResults(r)
  {
    if events == [] then [Listed(r)]
    else
      var before, last := Batches(r, events[..|events| - 1]), events[|events| - 1];
      if last.Deliver? && IsBatch(last.batch) then before + [last.batch] else before
  }

  lemma OneMore(r: Results, events: seq<Event>, e: Event)
    requires GoodResults(r)
    ensures After(r, events + [e]) == Happen(After(r, events), e)
    ensures Batches(r, events + [e])
         == if e.Deliver? && IsBatch(e.batch) then Batches(r, events) + [e.batch] else Batches(r, events)
  {
    assert (events + [e])[..|events|] == events;
  }

  // ------------------------------------------------ what can be listed

  /** Item i stands in place i of batch number src[i], and the numbers never fall. */
  ghost predicate TakenFrom(all: seq<seq<string>>, src: seq<nat>, items: seq<string>) {
    && |src| == |items|
    && (forall i :: 0 <= i < |src| ==> src[i] < |all| && i < |all[src[i]]| && items[i] == all[src[i]][i])
    && (forall i, j :: 0 <= i < j < |src| ==> src[i] <= src[j])
  }

  /** Batch `j` is not before the one the last item is from. */
  predicate NotBefore(src: seq<nat>, j: nat, all: seq<seq<string>>) {
    j < |all| && (src != [] ==> src[|src| - 1] <= j)
  }

  /** Batch `last` has no more rows than were copied, so the loop can end on it. */
  ghost predicate EndsOn(all: seq<seq<string>>, src: seq<nat>, last: nat, items: seq<string>) {
    TakenFrom(all, src, items) && NotBefore(src, last, all) && |all[last]| <= |items|
  }

  ghost predicate CanList(all: seq<seq<string>>, items: seq<string>) {
    exists src: seq<nat>, last: nat :: EndsOn(all, src, last, items)
  }

  /** Inside the loop the row about to be copied is the item of a batch not before the last one copied from. */
  ghost predicate AboutToCopy(x: Reading, all: seq<seq<string>>, src: seq<nat>, j: nat)
    requires GoodReading(x)
  {
    x.inside ==> NotBefore(src, j, all) && |x.items| < |all[j]| && x.table.rows[x.u] == all[j][|x.items|]
  }

  ghost predicate ReadsFrom(x: Reading, all: seq<seq<string>>, src: seq<nat>, j: nat)
    requires GoodReading(x)
  {
    && all != [] && Listed(x.table) == all[|all| - 1] && x.u == |x.items| + 1
    && TakenFrom(all, src, x.items) && AboutToCopy(x, all, src, j)
    && (x.done ==> !x.inside && CanList(all, x.items))
  }

  lemma MoreToTake(all: seq<seq<string>>, src: seq<nat>, items: seq<string>, batch: seq<string>)
    requires TakenFrom(all, src, items)
    ensures TakenFrom(all + [batch], src, items)
  {
  }

  lemma MoreToList(all: seq<seq<string>>, items: seq<string>, batch: seq<string>)
    requires CanList(all, items)
    ensures CanList(all + [batch], items)
  {
    var src: seq<nat>, last: nat :| EndsOn(all, src, last, items);
    assert EndsOn(all + [batch], src, last, items);
  }

  lemma TakeOne(all: seq<seq<string>>, src: seq<nat>, items: seq<string>, j: nat)
    requires TakenFrom(all, src, items) && NotBefore(src, j, all) && |items| < |all[j]|
    ensures TakenFrom(all, src + [j], items + [all[j][|items|]])
  {
  }

  lemma LookStep(x: Reading, all: seq<seq<string>>, src: seq<nat>, j: nat) returns (src': seq<nat>, j': nat)
    requires GoodReading(x) && ReadsFrom(x, all, src, j)
    ensures ReadsFrom(Happen(x, Look), all, src', j')
  {
    hide CanList, TakenFrom;
    src', j' := src, j;
    if x.done {
    } else if x.inside {
      TakeOne(all, src, x.items, j);
      src' := src + [j];
    } else {
      LastIsOpen(all, src, x.items);
      j' := |all| - 1;
      if x.u >= x.table.changed {
        ListsNow(all, src, x.items);
      }
    }
  }

  lemma LastIsOpen(all: seq<seq<string>>, src: seq<nat>, items: seq<string>)
    requires all != [] && TakenFrom(all, src, items)
    ensures NotBefore(src, |all| - 1, all)
  {
  }

  lemma ListsNow(all: seq<seq<string>>, src: seq<nat>, items: seq<string>)
    requires all != [] && TakenFrom(all, src, items) && |all[|all| - 1]| <= |items|
    ensures CanList(all, items)
  {
    assert EndsOn(all, src, |all| - 1, items);
  }

  lemma DeliverStep(x: Reading, batch: seq<string>, all: seq<seq<string>>, src: seq<nat>, j: nat) returns (j': nat)
    requires GoodReading(x) && ReadsFrom(x, all, src, j) && IsBatch(batch)
    ensures ReadsFrom(Happen(x, Deliver(batch)), all + [batch], src, j')
  {
    hide CanList, TakenFrom, IsBatch, Listed;
    ListedAfterFill(x.table, batch);
    MoreToTake(all, src, x.items, batch);
    if x.done {
      MoreToList(all, x.items, batch);
    }
    LastIsOpen(all, src, x.items);
    j' := if |x.items| < |batch| then |all| else j;
  }

  /** Whatever arrives when, what is copied is taken from the batches in turn. */
  lemma {:induction false} AlwaysReadsFrom(r: Results, events: seq<Event>) returns (src: seq<nat>, j: nat)
    requires GoodResults(r)
    ensures ReadsFrom(After(r, events), Batches(r, events), src, j)
  {
    if events == [] {
      src, j := [], 0;
    } else {
      hide Happen, ReadsFrom;
      var before, last := events[..|events| - 1], events[|events| - 1];
      src, j := AlwaysReadsFrom(r, before);
      match last
      case Look =>
        src, j := LookStep(After(r, before), Batches(r, before), src, j);
      case Deliver(batch) =>
        if IsBatch(batch) {
          j := DeliverStep(After(r, before), batch, Batches(r, before), src, j);
        } else {
          NotABatch(After(r, before), batch);
        }
    }
  }

  lemma NotABatch(x: Reading, batch: seq<string>)
    requires GoodReading(x) && !IsBatch(batch)
    ensures Happen(x, Deliver(batch)) == x
  {
  }

  // ----------------------------------------------- everything else can be

  ghost predicate AllBatches(all: seq<seq<string>>) {
    forall k :: 1 <= k < |all| ==> IsBatch(all[k])
  }

  /** The loop is at its test, with these items copied, and the first `c + 1` batches have been there. */
  ghost predicate AtTest(r: Results, events: seq<Event>, all: seq<seq<string>>, c: nat, items: seq<string>)
    requires GoodResults(r)
  {
    var x := After(r, events);
    c < |all| && Batches(r, events) == all[..c + 1] && x.items == items && !x.inside && !x.done
  }

  /** Batches arrive until `d` is in the table; nothing else changes. */
  lemma {:induction false} DeliverUpTo(r: Results, events: seq<Event>, all: seq<seq<string>>, c: nat, d: nat)
      returns (more: seq<Event>)
    requires GoodResults(r) && AllBatches(all) && c <= d < |all| && Batches(r, events) == all[..c + 1]
    ensures Batches(r, more) == all[..d + 1]
    ensures var x, y := After(r, events), After(r, more);
            y.items == x.items && y.u == x.u && y.inside == x.inside && y.done == x.done
    decreases d
  {
    hide After, Batches, Filled, IsBatch, Listed;
    more := events;
    if c == d {
    } else {
      more := DeliverUpTo(r, events, all, c, d - 1);
      OneMore(r, more, Deliver(all[d]));
      more := more + [Deliver(all[d])];
      assert all[..d] + [all[d]] == all[..d + 1];
    }
  }

  /** One round of the loop, when the batch in the table has a row left. */
  lemma CopyOne(r: Results, events: seq<Event>, all: seq<seq<string>>, c: nat, items: seq<string>)
    requires GoodResults(r) && AtTest(r, events, all, c, items) && |items| < |all[c]|
    ensures AtTest(r, events + [Look] + [Look], all, c, items + [all[c][|items|]])
  {
    hide TakenFrom, CanList;
    var src, j := AlwaysReadsFrom(r, events);
    assert Listed(After(r, events).table) == all[..c + 1][c];
    OneMore(r, events, Look);
    OneMore(r, events + [Look], Look);
  }

  function Reached(src: seq<nat>): nat {
    if src == [] then 0 else src[|src| - 1]
  }

  lemma {:induction false} CopyAll(r: Results, all: seq<seq<string>>, src: seq<nat>, items: seq<string>)
      returns (events: seq<Event>)
    requires GoodResults(r) && all != [] && all[0] == Listed(r) && AllBatches(all) && TakenFrom(all, src, items)
    ensures AtTest(r, events, all, Reached(src), items)
    decreases |items|
  {
    hide After, Batches, AllBatches, Listed;
    if items == [] {
      events := [];
      NothingCopied(r, all);
    } else {
      var k := |items| - 1;
      var before := CopyAll(r, all, src[..k], items[..k]);
      events := DeliverUpTo(r, before, all, Reached(src[..k]), src[k]);
      CopyOne(r, events, all, src[k], items[..k]);
      events := events + [Look] + [Look];
      assert items == items[..k] + [items[k]];
    }
  }

  lemma NothingCopied(r: Results, all: seq<seq<string>>)
    requires GoodResults(r) && all != [] && all[0] == Listed(r)
    ensures AtTest(r, [], all, 0, [])
  {
    assert all[..1] == [all[0]];
  }

  /** The loop has ended with these items, and these were the batches, at the start or later. */
  ghost predicate Lists(r: Results, events: seq<Event>, all: seq<seq<string>>, items: seq<string>)
    requires GoodResults(r)
  {
    Batches(r, events) == all && After(r, events).done && After(r, events).items == items
  }

  lemma ListWhat(r: Results, all: seq<seq<string>>, src: seq<nat>, last: nat, items: seq<string>)
      returns (events: seq<Event>)
    requires GoodResults(r) && all != [] && all[0] == Listed(r) && AllBatches(all)
    requires EndsOn(all, src, last, items)
    ensures Lists(r, events, all, items)
  {
    hide AllBatches, TakenFrom;
    var before := CopyAll(r, all, src, items);
    var more := DeliverUpTo(r, before, all, Reached(src), last);
    EndLoop(r, more, all, last);
    events := DeliverUpTo(r, more + [Look], all, last, |all| - 1);
    assert all[..|all|] == all;
  }

  lemma EndLoop(r: Results, events: seq<Event>, all: seq<seq<string>>, last: nat)
    requires GoodResults(r) && last < |all| && Batches(r, events) == all[..last + 1]
    requires var x := After(r, events); |all[last]| <= |x.items| && !x.inside && !x.done
    ensures Batches(r, events + [Look]) == all[..last + 1]
    ensures After(r, events + [Look]).done && After(r, events + [Look]).items == After(r, events).items
  {
    hide TakenFrom, CanList;
    var src, j := AlwaysReadsFrom(r, events);
    assert Listed(After(r, events).table) == all[..last + 1][last];
    OneMore(r, events, Look);
  }

  /**
   * What a response can list, exactly, when the table holds the first of some batches and the
   * others arrive at any moments while it is read: place for place the item of one of the
   * batches, never of an earlier one than before, up to a length at which the loop can end.
   */
  lemma ListedIff(r: Results, all: seq<seq<string>>, items: seq<string>)
    requires GoodResults(r) && all != [] && all[0] == Listed(r) && AllBatches(all)
    ensures (exists events :: Lists(r, events, all, items)) <==> CanList(all, items)
  {
    hide After, Batches, AllBatches, TakenFrom;
    if CanList(all, items) {
      var src: seq<nat>, last: nat :| EndsOn(all, src, last, items);
      var events := ListWhat(r, all, src, last, items);
    }
    if exists events :: Lists(r, events, all, items) {
      var events :| Lists(r, events, all, items);
      var src, j := AlwaysReadsFrom(r, events);
    }
  }

  /** With no delivery meanwhile that is the listed batch, as when the loop is one step. */
  lemma Undisturbed(a: seq<string>, items: seq<string>)
    ensures CanList([a], items) <==> items == a
  {
    if items == a {
      assert EndsOn([a], seq(|a|, _ => 0), 0, a);
    }
  }

  /** The rows of `a` before place `k`, then those of `b` from there on. */
  function Spliced(a: seq<string>, b: seq<string>, k: nat): seq<string>
    requires k <= |a|
  {
    a[..k] + if k <= |b| then b[k..] else []
  }

  lemma SplicedIsListed(a: seq<string>, b: seq<string>, k: nat)
    requires k <= |a|
    ensures CanList([a, b], Spliced(a, b, k))
  {
    var items := Spliced(a, b, k);
    assert EndsOn([a, b], seq(|items|, i => if i < k then 0 else 1), 1, items);
  }

  lemma OldIsListed(a: seq<string>, b: seq<string>)
    ensures CanList([a, b], a)
  {
    assert EndsOn([a, b], seq(|a|, _ => 0), 0, a);
  }

  /** What is taken from two batches in turn is spliced from them. */
  lemma TakenIsSpliced(a: seq<string>, b: seq<string>, src: seq<nat>, last: nat, items: seq<string>)
    requires EndsOn([a, b], src, last, items)
    ensures items == a || exists k: nat :: k <= |a| && items == Spliced(a, b, k)
  {
    var k := Turn(src);
    assert k > 0 ==> src[k - 1] == 0;
    if last == 0 {
      assert items == a;
    } else {
      assert |src| > k ==> |src| - 1 < |b|;
      assert items == Spliced(a, b, k);
    }
  }

  /** With one delivery meanwhile it is the old batch, or its start with the rest of the new one. */
  lemma OneDelivery(a: seq<string>, b: seq<string>, items: seq<string>)
    ensures CanList([a, b], items) <==> items == a || exists k: nat :: k <= |a| && items == Spliced(a, b, k)
  {
    hide EndsOn, Spliced;
    if CanList([a, b], items) {
      var src: seq<nat>, last: nat :| EndsOn([a, b], src, last, items);
      TakenIsSpliced(a, b, src, last, items);
    } else {
      OldIsListed(a, b);
      forall k: nat | k <= |a|
        ensures items != Spliced(a, b, k)
      {
        SplicedIsListed(a, b, k);
      }
    }
  }

  /** Where the numbers leave zero. */
  lemma {:induction false} Turn(src: seq<nat>) returns (k: nat)
    requires forall i, j :: 0 <= i < j < |src| ==> src[i] <= src[j]
    ensures k <= |src| && (forall i :: 0 <= i < k ==> src[i] == 0) && forall i :: k <= i < |src| ==> src[i] > 0
  {
    if src == [] || src[|src| - 1] > 0 {
      k := 0;
      if src != [] {
        k := Turn(src[..|src| - 1]);
      }
    } else {
      k := |src|;
    }
  }

  /**
   * So two batches that differ in their first two rows can be mixed: a response can list the
   * first row of one and the rest of the other, which is neither.
   */
  lemma Mixed(r: Results, b: seq<string>) returns (events: seq<Event>)
    requires GoodResults(r) && IsBatch(b) && 2 <= |Listed(r)| && 2 <= |b|
    requires Listed(r)[0] != b[0] && Listed(r)[1] != b[1]
    ensures Lists(r, events, [Listed(r), b], [Listed(r)[0]] + b[1..])
    ensures [Listed(r)[0]] + b[1..] != Listed(r) && [Listed(r)[0]] + b[1..] != b
  {
    hide Lists, IsBatch;
    var a := Listed(r);
    var items := [a[0]] + b[1..];
    assert items[1] == b[1] && a[..1] == [a[0]];
    SplicedIsListed(a, b, 1);
    ListedIff(r, [a, b], items);
    events :| Lists(r, events, [a, b], items);
  }
}
