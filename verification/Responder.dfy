/** The server's responder, and the result table that the protocol client behind the gateway fills. */
module Responder {
  import opened Common
  import opened Cdr
  import opened MessengerTypes
  import opened Xml
  import opened StringTables
  import opened ServerListener
  import opened DataWriter

  /** The result table as the responder sees it: rows from 1 up to, but not including, `changed` are results. */
  datatype Results = Results(rows: seq<string>, changed: int)

  function NoResults(): Results {
    Results(EmptyRows(), 0)
  }

  predicate GoodResults(r: Results) {
    |r.rows| == ROWS && r.changed <= ROWS
  }

  /** The rows a response lists. */
  function Listed(r: Results): seq<string>
    requires GoodResults(r)
  {
    if r.changed <= 1 then [] else r.rows[1..r.changed]
  }

  /** A batch the protocol client can deliver: row 0 is not used. */
  predicate IsBatch(batch: seq<string>) {
    |batch| < ROWS && forall i :: 0 <= i < |batch| ==> FitsRow(batch[i])
  }

  /** The table after a batch has been delivered into rows 1, 2, ... */
  function Filled(r: Results, batch: seq<string>): (f: Results)
    requires |r.rows| == ROWS && |batch| < ROWS
    ensures |f.rows| == ROWS
  {
    Results([r.rows[0]] + batch + r.rows[|batch| + 1..], |batch| + 1)
  }

  /** What is listed is the delivered batch, whatever rows an earlier one left behind. */
  lemma ListedAfterFill(r: Results, batch: seq<string>)
    requires |r.rows| == ROWS && IsBatch(batch)
    ensures GoodResults(Filled(r, batch)) && Listed(Filled(r, batch)) == batch
  {
    var rows := Filled(r, batch).rows;
    assert rows[1..|batch| + 1] == batch;
  }

  /** The response to a signal. */
  function ResponseTo(signal: Signal, items: seq<string>, subject: byte): Message<Forest> {
    Message(ResponseDoc(items), signal.count, signal.sent, subject)
  }

  class ResultTable {
    const cells: array<char>
    var changed: int

    ghost predicate Valid()
      reads this
    {
      cells.Length == CELLS && changed <= ROWS
    }

    ghost function Now(): (r: Results)
      reads this, cells
      requires Valid()
      ensures GoodResults(r)
    {
      Results(Rows(cells[..]), changed)
    }

    constructor ()
      ensures Valid() && fresh(cells) && Now() == NoResults()
    {
      cells := new char[CELLS];
      changed := 0;
      new;
      Clear(cells);
    }

    method CellString(u: nat) returns (s: string)
      requires Valid() && u < ROWS
      ensures s == Now().rows[u]
    {
      s := CString(cells[WIDTH * u..WIDTH * u + WIDTH], '\0');
      assert cells[WIDTH * u..WIDTH * u + WIDTH] == cells[..][WIDTH * u..WIDTH * u + WIDTH];
    }

    /** The copy loop of the responder. */
    method ReadResults() returns (items: seq<string>)
      requires Valid()
      ensures items == Listed(Now())
    {
      items := [];
      var u := 1;
      while u < changed
        invariant 1 <= u && (u <= changed || changed <= 1)
        invariant items == if changed <= 1 then [] else Now().rows[1..u]
      {
        var s := CellString(u);
        assert Now().rows[1..u] + [s] == Now().rows[1..u + 1];
        items := items + [s];
        u := u + 1;
      }
    }

    method Reset()
      requires Valid()
      modifies this`changed, cells
      ensures Valid() && Now() == NoResults()
    {
      Clear(cells);
      changed := 0;
      assert Rows(cells[..]) == EmptyRows();
    }
  }

  class RespWriter {
    const results: ResultTable
    var queue: seq<Signal>
    var text: Forest
    var count: Long
    var timeStamp: TimeSpec
    const subject: byte
    /** The samples the data writer has accepted. */
    var written: seq<Message<Forest>>
    /** How often it was called. */
    var writes: nat

    ghost predicate Valid()
      reads this, results
    {
      results.Valid()
    }

    constructor (results: ResultTable, subject: byte)
      requires results.Valid()
      ensures Valid() && this.results == results && this.subject == subject
      ensures queue == [] && written == [] && writes == 0
    {
      this.results, this.subject := results, subject;
      queue, text, count, timeStamp, written, writes := [], Nil, 0, TimeSpec(0, 0), [], 0;
    }

    /** Writes the current message, again for as long as the write times out. */
    method Write(t: Tries) returns (error: ReturnCode)
      modifies this`written, this`writes
      ensures error == if t.ok then OK else ERROR
      ensures writes == old(writes) + t.timeouts + 1
      ensures written == if t.ok then old(written) + [Message(text, count, timeStamp, subject)] else old(written)
    {
      var n := 0;
      error := TIMEOUT;
      while error == TIMEOUT
        invariant n <= t.timeouts + 1
        invariant error == if n == 0 then TIMEOUT else Outcome(t, n - 1)
        invariant writes == old(writes) + n
        invariant written
               == if error == OK then old(written) + [Message(text, count, timeStamp, subject)] else old(written)
        decreases t.timeouts + 1 - n
      {
        error := Outcome(t, n);
        if error == OK {
          written := written + [Message(text, count, timeStamp, subject)];
        }
        writes := writes + 1;
        n := n + 1;
      }
    }

    /**
     * One round of the service loop, for the signal at the head of the queue: a request is
     * answered with the results there are, under the request's own count and timestamp, the
     * write is repeated while it times out, and the table is then emptied, even if the write
     * failed. Other signals are dropped.
     */
    method ServeOne(t: Tries)
      requires Valid() && queue != []
      modifies this, results`changed, results.cells
      ensures Valid() && queue == old(queue)[1..]
      ensures var signal, items := old(queue)[0], Listed(old(results.Now()));
              if signal.command == "request" then
                && results.Now() == NoResults()
                && written == old(written) + (if t.ok then [ResponseTo(signal, items, subject)] else [])
                && writes == old(writes) + t.timeouts + 1
              else results.Now() == old(results.Now()) && written == old(written) && writes == old(writes)
    {
      hide Rows, Listed, NoResults, ResponseDoc;
      var signal := queue[0];
      queue := queue[1..];
      if signal.command == "request" {
        var items := results.ReadResults();
        text := ResponseDoc(items);
        timeStamp := TimeSpec(ToLong(signal.sent.sec), ToLong(signal.sent.nsec));
        LongRoundTrip(signal.sent.sec);
        LongRoundTrip(signal.sent.nsec);
        count := signal.count;
        var error := Write(t);
        text := Nil;
        results.Reset();
      }
    }

    /** The service loop until the queue is empty, when the code blocks. */
    method Svc(env: nat -> Tries)
      requires Valid()
      modifies this, results`changed, results.cells
      ensures Valid() && queue == []
      ensures written == old(written) + Served(old(queue), old(results.Now()), subject, env, 0)
    {
      var n: nat := 0;
      while queue != []
        invariant Valid()
        invariant old(written) + Served(old(queue), old(results.Now()), subject, env, 0)
               == written + Served(queue, results.Now(), subject, env, n)
        decreases |queue|
      {
        ghost var before, r, w := queue, results.Now(), written;
        ServeOne(env(n));
        if before[0].command == REQUEST && env(n).ok {
          var response := ResponseTo(before[0], Listed(r), subject);
          assert w + ([response] + Served(queue, NoResults(), subject, env, n + 1))
              == (w + [response]) + Served(queue, NoResults(), subject, env, n + 1);
        }
        n := n + 1;
      }
    }
  }

  /** What serving a queue writes, when nothing else touches the table meanwhile. */
  function Served(queue: seq<Signal>, r: Results, subject: byte, env: nat -> Tries, n: nat): seq<Message<Forest>>
    requires GoodResults(r)
    decreases |queue|
  {
    if queue == [] then []
    else if queue[0].command != REQUEST then Served(queue[1..], r, subject, env, n + 1)
    else (if env(n).ok then [ResponseTo(queue[0], Listed(r), subject)] else [])
         + Served(queue[1..], NoResults(), subject, env, n + 1)
  }

  // ------------------------------------------------------ what is served

  /** The places in the queue of the requests whose write succeeds, in order. */
  function Answerable(queue: seq<Signal>, env: nat -> Tries, n: nat): (places: seq<nat>)
    ensures forall i :: 0 <= i < |places| ==> places[i] < |queue|
    decreases |queue|
  {
    if queue == [] then []
    else
      var k := |queue| - 1;
      Answerable(queue[..k], env, n) + if queue[k].command == REQUEST && env(n + k).ok then [k] else []
  }

  predicate NoRequest(queue: seq<Signal>) {
    forall i :: 0 <= i < |queue| ==> queue[i].command != REQUEST
  }

  /** What the signal in place `k` is answered with: the results there are if it is the first request, else nothing. */
  function AnswerTo(queue: seq<Signal>, k: nat, r: Results, subject: byte): Message<Forest>
    requires k < |queue| && GoodResults(r)
  {
    ResponseTo(queue[k], if NoRequest(queue[..k]) then Listed(r) else [], subject)
  }

  lemma NothingListed()
    ensures GoodResults(NoResults()) && Listed(NoResults()) == []
  {
  }

  /** One more signal at the end of the queue. */
  lemma {:induction false} ServedOneMore(queue: seq<Signal>, x: Signal, r: Results, subject: byte,
                                         env: nat -> Tries, n: nat)
    requires GoodResults(r)
    ensures Served(queue + [x], r, subject, env, n)
         == Served(queue, r, subject, env, n)
            + if x.command == REQUEST && env(n + |queue|).ok
              then [ResponseTo(x, if NoRequest(queue) then Listed(r) else [], subject)] else []
    decreases |queue|
  {
    hide Listed, NoResults, ResponseTo, GoodResults;
    NothingListed();
    if queue == [] {
      assert (queue + [x])[1..] == [];
    } else {
      assert (queue + [x])[1..] == queue[1..] + [x];
      assert NoRequest(queue) <==> queue[0].command != REQUEST && NoRequest(queue[1..]) by {
        assert queue == [queue[0]] + queue[1..];
      }
      if queue[0].command == REQUEST {
        ServedOneMore(queue[1..], x, NoResults(), subject, env, n + 1);
      } else {
        ServedOneMore(queue[1..], x, r, subject, env, n + 1);
      }
    }
  }

  /** What is answered to part of the queue is not changed by what comes behind it. */
  lemma AnswerSame(queue: seq<Signal>, m: nat, k: nat, r: Results, subject: byte)
    requires k < m <= |queue| && GoodResults(r)
    ensures AnswerTo(queue[..m], k, r, subject) == AnswerTo(queue, k, r, subject)
  {
    assert queue[..m][..k] == queue[..k];
  }

  lemma {:induction false} AnswerableLaw(queue: seq<Signal>, env: nat -> Tries, n: nat)
    ensures var places := Answerable(queue, env, n);
            && (forall i, j :: 0 <= i < j < |places| ==> places[i] < places[j])
            && forall k: nat :: k in places <==> k < |queue| && queue[k].command == REQUEST && env(n + k).ok
    decreases |queue|
  {
    if queue == [] {
    } else {
      var last := |queue| - 1;
      AnswerableLaw(queue[..last], env, n);
    }
  }

  /**
   * What the service loop writes: one response for each request in the queue whose write
   * succeeds and for nothing else, in the order of the queue; the first request is answered
   * with the results there are, every later one with nothing.
   */
  lemma {:induction false} ServedLaw(queue: seq<Signal>, r: Results, subject: byte, env: nat -> Tries, n: nat)
    requires GoodResults(r)
    ensures var served, places := Served(queue, r, subject, env, n), Answerable(queue, env, n);
            && |served| == |places|
            && forall i :: 0 <= i < |places| ==> served[i] == AnswerTo(queue, places[i], r, subject)
    decreases |queue|
  {
    hide Listed, Served, NoRequest, ResponseTo, GoodResults;
    if queue == [] {
      ServedEmpty(r, subject, env, n);
    } else {
      var last := |queue| - 1;
      var before := Answerable(queue[..last], env, n);
      ServedLaw(queue[..last], r, subject, env, n);
      ServedOneMore(queue[..last], queue[last], r, subject, env, n);
      assert queue == queue[..last] + [queue[last]];
      hide AnswerTo;
      AnswerToLast(queue, r, subject);
      forall i | 0 <= i < |before|
        ensures AnswerTo(queue[..last], before[i], r, subject) == AnswerTo(queue, before[i], r, subject)
      {
        AnswerSame(queue, last, before[i], r, subject);
      }
    }
  }

  lemma AnswerToLast(queue: seq<Signal>, r: Results, subject: byte)
    requires queue != [] && GoodResults(r)
    ensures AnswerTo(queue, |queue| - 1, r, subject)
         == ResponseTo(queue[|queue| - 1], if NoRequest(queue[..|queue| - 1]) then Listed(r) else [], subject)
  {
  }

  lemma ServedEmpty(r: Results, subject: byte, env: nat -> Tries, n: nat)
    requires GoodResults(r)
    ensures Served([], r, subject, env, n) == []
  {
  }

  /** When every write succeeds, each of the requests in the queue is answered in its place. */
  lemma {:induction false} AllServed(queue: seq<Signal>, r: Results, subject: byte, env: nat -> Tries, n: nat)
    requires GoodResults(r)
    requires forall k :: 0 <= k < |queue| ==> queue[k].command == REQUEST && env(n + k).ok
    ensures var served := Served(queue, r, subject, env, n);
            && |served| == |queue|
            && forall i :: 0 <= i < |queue| ==>
                 served[i] == ResponseTo(queue[i], if i == 0 then Listed(r) else [], subject)
    decreases |queue|
  {
    hide Listed, Served, ResponseTo, GoodResults;
    if queue == [] {
      ServedEmpty(r, subject, env, n);
    } else {
      var last := |queue| - 1;
      forall k | 0 <= k < |queue[..last]|
        ensures queue[..last][k].command == REQUEST && env(n + k).ok
      {
        assert queue[..last][k] == queue[k];
      }
      AllServed(queue[..last], r, subject, env, n);
      ServedOneMore(queue[..last], queue[last], r, subject, env, n);
      assert queue == queue[..last] + [queue[last]];
      if last > 0 {
        assert queue[..last][0].command == REQUEST;
      }
    }
  }
}
