/** The client's send loop. */
module Sender {
  import opened Common
  import opened Cdr
  import opened MessengerTypes
  import opened ArrivalTimes
  import opened Xml
  import opened DataWriter

  const SEND_LIMIT: nat := 1_000_000

  const GET_ITEMS: seq<string> := ["DRCS$MX$Amp$mag$f"]
  const SET_ITEMS: seq<string> := ["500"]
  const SUBJECT_GET: byte := 103
  const SUBJECT_SET: byte := 115

  /** What the environment does in one round: the clock reading, and what becomes of the write. */
  datatype Attempt = Attempt(at: nat, tries: Tries)

  function ServiceOf(count: nat): Service {
    if count % 2 == 0 then Get else Set
  }

  function ItemsOf(count: nat): seq<string> {
    match ServiceOf(count)
    case Get => GET_ITEMS
    case Set => SET_ITEMS
  }

  /** The request with a given count: even counts get, odd counts set. */
  function RequestFor(count: nat, at: nat): Message<Forest>
    requires count < SEND_LIMIT
  {
    Message(RequestDoc(ServiceOf(count), ItemsOf(count)), count, Stamp(at),
            match ServiceOf(count) case Get => SUBJECT_GET case Set => SUBJECT_SET)
  }

  lemma Composed(count: nat, at: nat)
    requires count < SEND_LIMIT
    ensures RequestFor(count, at)
         == if count % 2 == 0 then Message(RequestDoc(Get, GET_ITEMS), count, Stamp(at), SUBJECT_GET)
            else Message(RequestDoc(Set, SET_ITEMS), count, Stamp(at), SUBJECT_SET)
  {
  }

  /**
   * What a request says once it is parsed: the domain and one item, and a subject that tells
   * the service; even counts ask for the measured value, odd counts set one, and the elements
   * of the document say the same.
   */
  lemma RequestContents(count: nat, at: nat, parsed: Forest)
    requires count < SEND_LIMIT && Padded(RequestFor(count, at).text, parsed)
    ensures RequestFor(count, at).count == count && RequestFor(count, at).timeStamp == Stamp(at)
    ensures Requested(parsed) == Some(["SOLAR01", if count % 2 == 0 then "DRCS$MX$Amp$mag$f" else "500"])
    ensures RequestFor(count, at).subject as int == (if count % 2 == 0 then 'g' else 's') as int
    ensures Find(parsed, "DDS_request") != Nil <==> count % 2 == 0
    ensures Find(parsed, "Read") != Nil <==> count % 2 == 0
    ensures Find(parsed, "DDS_Setresponse") != Nil <==> count % 2 == 1
    ensures Find(parsed, "Write") != Nil <==> count % 2 == 1
  {
    hide Padded, RequestDoc, Requested, Stamp, Find;
    ServiceTold(ServiceOf(count), ItemsOf(count), parsed);
    RequestRoundTrip(ServiceOf(count), ItemsOf(count), parsed);
    assert [DOMAIN] + GET_ITEMS == [DOMAIN, GET_ITEMS[0]];
    assert [DOMAIN] + SET_ITEMS == [DOMAIN, SET_ITEMS[0]];
  }

  /** The samples accepted in the first `n` rounds: one for each round whose write finally succeeded. */
  function SentIn(env: nat -> Attempt, n: nat): seq<Message<Forest>>
    requires n <= SEND_LIMIT
  {
    if n == 0 then []
    else
      var before := SentIn(env, n - 1);
      if env(n - 1).tries.ok then before + [RequestFor(n - 1, env(n - 1).at)] else before
  }

  class Writer {
    var text: Forest
    var count: int
    var subject: byte
    var timeStamp: TimeSpec
    /** The samples the data writer has accepted. */
    var sent: seq<Message<Forest>>
    /** How often it was called. */
    var writes: nat

    constructor ()
      ensures sent == [] && writes == 0
    {
      text, count, subject, timeStamp, sent, writes := Nil, 0, 0, TimeSpec(0, 0), [], 0;
    }

    /** Writes the current message, again for as long as the write times out. */
    method Write(t: Tries) returns (error: ReturnCode)
      requires 0 <= count < SEND_LIMIT
      modifies this`sent, this`writes
      ensures error == if t.ok then OK else ERROR
      ensures writes == old(writes) + t.timeouts + 1
      ensures sent == if t.ok then old(sent) + [Message(text, count, timeStamp, subject)] else old(sent)
    {
      var n := 0;
      error := TIMEOUT;
      while error == TIMEOUT
        invariant n <= t.timeouts + 1
        invariant error == if n == 0 then TIMEOUT else Outcome(t, n - 1)
        invariant writes == old(writes) + n
        invariant sent == if error == OK then old(sent) + [Message(text, count, timeStamp, subject)] else old(sent)
        decreases t.timeouts + 1 - n
      {
        error := Outcome(t, n);
        if error == OK {
          sent := sent + [Message(text, count, timeStamp, subject)];
        }
        writes := writes + 1;
        n := n + 1;
      }
    }

    /** The whole run: one round for each count below the limit. */
    method Svc(env: nat -> Attempt)
      modifies this
      ensures count == 1_000_000 && text == Nil
      ensures sent == old(sent) + SentIn(env, 1_000_000)
    {
      hide RequestFor, RequestDoc, Stamp;
      text := Nil;
      count := 0;
      var i := 2;
      while count < 1000000
        invariant 0 <= count <= SEND_LIMIT && i == count + 2 && text == Nil
        invariant sent == old(sent) + SentIn(env, count)
      {
        var a := env(count);
        if i % 2 == 0 {
          subject := SUBJECT_GET;
          text := RequestDoc(Get, GET_ITEMS);
        } else if i % 2 != 0 {
          subject := SUBJECT_SET;
          text := RequestDoc(Set, SET_ITEMS);
        }
        timeStamp := Stamp(a.at);
        Composed(count, a.at);
        var error := Write(a.tries);
        text := Nil;
        count := count + 1;
        i := i + 1;
      }
    }
  }

  // ------------------------------------------------------------- whole runs

  /** The rounds whose write succeeded, in order. */
  function Rounds(env: nat -> Attempt, n: nat): seq<nat> {
    if n == 0 then []
    else
      var before := Rounds(env, n - 1);
      if env(n - 1).tries.ok then before + [n - 1] else before
  }

  /** The samples are those of the rounds, each with its round as count and the reading of that round. */
  ghost predicate SamplesOf(sent: seq<Message<Forest>>, rounds: seq<nat>, env: nat -> Attempt, n: nat)
    requires n <= SEND_LIMIT
  {
    && |sent| == |rounds|
    && forall k :: 0 <= k < |sent| ==>
         rounds[k] < n && env(rounds[k]).tries.ok && sent[k] == RequestFor(rounds[k], env(rounds[k]).at)
  }

  ghost predicate Increasing(rounds: seq<nat>) {
    forall j, k :: 0 <= j < k < |rounds| ==> rounds[j] < rounds[k]
  }

  /**
   * The samples of a run are exactly those of the successful rounds, in increasing order;
   * each carries its round as count, the clock reading of that round, and the document and
   * subject of its parity.
   */
  lemma {:induction false} SentLaw(env: nat -> Attempt, n: nat)
    requires n <= SEND_LIMIT
    ensures SamplesOf(SentIn(env, n), Rounds(env, n), env, n) && Increasing(Rounds(env, n))
    ensures forall r: nat :: r in Rounds(env, n) <==> r < n && env(r).tries.ok
    decreases n
  {
    hide RequestFor, SamplesOf, Increasing;
    if n == 0 {
      NothingSent(env);
    } else {
      SentLaw(env, n - 1);
      RoundsBelow(Rounds(env, n - 1), n - 1);
      SamplesPush(SentIn(env, n - 1), Rounds(env, n - 1), env, n - 1);
    }
  }

  lemma NothingSent(env: nat -> Attempt)
    ensures SamplesOf([], [], env, 0) && Increasing([])
  {
  }

  lemma SamplesPush(sent: seq<Message<Forest>>, rounds: seq<nat>, env: nat -> Attempt, n: nat)
    requires n < SEND_LIMIT && SamplesOf(sent, rounds, env, n)
    ensures SamplesOf(sent, rounds, env, n + 1)
    ensures env(n).tries.ok ==> SamplesOf(sent + [RequestFor(n, env(n).at)], rounds + [n], env, n + 1)
  {
    hide RequestFor;
  }

  lemma RoundsBelow(rounds: seq<nat>, n: nat)
    requires Increasing(rounds) && forall r :: r in rounds ==> r < n
    ensures Increasing(rounds + [n])
    ensures forall r :: r in rounds + [n] <==> r in rounds || r == n
  {
    forall k | 0 <= k < |rounds|
      ensures rounds[k] < n
    {
      assert rounds[k] in rounds;
    }
  }
}
