/** The delivery audit both listeners run over the set of received counts. */
module DeliveryAudit {
  import opened Cdr

  // ------------------------------------------------------ the ordered set

  ghost predicate Ascending(s: seq<int>) {
    forall i, j :: 0 <= i < j < |s| ==> s[i] < s[j]
  }

  /** Insertion into an ordered set, listed in order. */
  function Insert(s: seq<int>, x: int): (r: seq<int>)
    ensures forall y :: y in r <==> y in s || y == x
  {
    if s == [] then [x]
    else if x < s[0] then [x] + s
    else if x == s[0] then s
    else
      assert s == [s[0]] + s[1..];
      [s[0]] + Insert(s[1..], x)
  }

  lemma {:induction false} InsertAscending(s: seq<int>, x: int)
    requires Ascending(s)
    ensures Ascending(Insert(s, x))
  {
    if s != [] && s[0] < x {
      InsertAscending(s[1..], x);
      assert forall y :: y in s[1..] ==> s[0] < y;
      AscendingCons(s[0], Insert(s[1..], x));
    }
  }

  lemma AscendingCons(h: int, t: seq<int>)
    requires Ascending(t) && forall y :: y in t ==> h < y
    ensures Ascending([h] + t)
  {
    var s := [h] + t;
    forall i, j | 0 <= i < j < |s|
      ensures s[i] < s[j]
    {
      assert s[j] == t[j - 1] && t[j - 1] in t;
      if i > 0 {
        assert s[i] == t[i - 1];
      }
    }
  }

  /** An ascending list cannot climb more slowly than by one. */
  lemma {:induction false} Climbs(s: seq<int>, i: nat, j: nat)
    requires Ascending(s) && i <= j < |s|
    ensures s[i] + (j - i) <= s[j]
    decreases j
  {
    if i < j {
      Climbs(s, i, j - 1);
    }
  }

  /** A strictly increasing list is as long as the set of its elements is large. */
  lemma {:induction false} AscendingSize(s: seq<int>)
    requires Ascending(s)
    ensures |set x | x in s| == |s|
    decreases |s|
  {
    if s == [] {
    } else {
      var init, last := s[..|s| - 1], s[|s| - 1];
      AscendingSize(init);
      assert s == init + [last];
      assert (set x | x in s) == (set x | x in init) + {last};
    }
  }

  // ------------------------------------------------------------- the audit

  datatype Report =
    | Missing(first: int, last: int)
    | NegativeCount(many: bool)
    | TooHigh
    | TooFew(received: int, wanted: int)

  /** What it means for the counts to pass the audit for `n` messages. */
  ghost predicate Passes(counts: seq<int>, reliable: bool, n: nat) {
    if reliable then
      forall x :: x in counts <==> 0 <= x < n
    else
      && (forall x :: x in counts ==> 0 <= x)
      && |counts| <= n <= 4 * |counts|
  }

  /** A count lies in one of the ranges reported missing. */
  ghost predicate ReportedMissing(reports: seq<Report>, x: int) {
    exists i :: 0 <= i < |reports| && reports[i].Missing? && reports[i].first <= x <= reports[i].last
  }

  /** Reported ranges come in increasing order, with a count between any two, so each gap is one range. */
  ghost predicate Ordered(reports: seq<Report>) {
    && (forall i :: 0 <= i < |reports| && reports[i].Missing? ==> reports[i].first <= reports[i].last)
    && (forall i, j :: 0 <= i < j < |reports| && reports[i].Missing? && reports[j].Missing?
         ==> reports[i].last + 1 < reports[j].first)
  }

  /** Exactly the counts below `reached` that were not received are reported missing. */
  ghost predicate ExactGaps(reports: seq<Report>, counts: seq<int>, reached: int) {
    forall x :: ReportedMissing(reports, x) <==> 0 <= x < reached && x !in counts
  }

  lemma AddGap(reports: seq<Report>, counts: seq<int>, reached: int, i: nat)
    requires Ascending(counts) && i < |counts|
    requires Ordered(reports) && ExactGaps(reports, counts, reached)
    requires 0 <= reached < counts[i] && forall j :: 0 <= j < i ==> counts[j] < reached
    requires reached == 0 || reached - 1 in counts
    ensures var more := reports + [Missing(reached, counts[i] - 1)];
            Ordered(more) && ExactGaps(more, counts, counts[i])
  {
    var more := reports + [Missing(reached, counts[i] - 1)];
    forall k | 0 <= k < |reports| && reports[k].Missing?
      ensures reports[k].last + 1 < reached
    {
      assert ReportedMissing(reports, reports[k].last);
    }
    forall x
      ensures ReportedMissing(more, x) <==> 0 <= x < counts[i] && x !in counts
    {
      if ReportedMissing(reports, x) {
        var k :| 0 <= k < |reports| && reports[k].Missing? && reports[k].first <= x <= reports[k].last;
        assert more[k] == reports[k];
      }
      if reached <= x < counts[i] {
        assert more[|reports|].first <= x <= more[|reports|].last;
      }
    }
  }

  /** A report of another kind changes nothing about the ranges. */
  lemma AddOther(reports: seq<Report>, r: Report)
    requires !r.Missing?
    ensures forall x :: ReportedMissing(reports + [r], x) <==> ReportedMissing(reports, x)
    ensures Ordered(reports) ==> Ordered(reports + [r])
  {
    var more := reports + [r];
    forall x
      ensures ReportedMissing(more, x) <==> ReportedMissing(reports, x)
    {
      if ReportedMissing(reports, x) {
        var k :| 0 <= k < |reports| && reports[k].Missing? && reports[k].first <= x <= reports[k].last;
        assert more[k] == reports[k];
      }
    }
  }

  lemma GapsKept(reports: seq<Report>, r: Report, counts: seq<int>, reached: int)
    requires forall x :: ReportedMissing(reports + [r], x) <==> ReportedMissing(reports, x)
    ensures ExactGaps(reports, counts, reached) ==> ExactGaps(reports + [r], counts, reached)
  {
  }

  lemma NoGapYet(counts: seq<int>)
    ensures Ordered([]) && ExactGaps([], counts, 0)
  {
  }

  lemma Advance(reports: seq<Report>, counts: seq<int>, reached: int)
    requires ExactGaps(reports, counts, reached) && reached in counts
    ensures ExactGaps(reports, counts, reached + 1)
  {
  }

  /**
   * Where the audit stopped looking. With count n-1 received it stops at `n`; otherwise at the
   * least count from `n` on, if there is one; otherwise just behind the greatest count.
   */
  ghost predicate ReachedLastExamined(counts: seq<int>, n: nat, reached: int) {
    if n == 0 then reached == 0
    else if n - 1 in counts then reached == n
    else if forall x :: x in counts ==> x < n then
      && 0 <= reached && (forall x :: x in counts ==> x < reached)
      && (reached == 0 || reached - 1 in counts)
    else n <= reached && reached in counts && forall x :: x in counts && n <= x ==> reached <= x
  }

  /** There is only one such place, so the reported ranges are determined by the counts. */
  lemma ReachedUnique(counts: seq<int>, n: nat, a: int, b: int)
    requires ReachedLastExamined(counts, n, a) && ReachedLastExamined(counts, n, b)
    ensures a == b
  {
    if n > 0 && n - 1 !in counts && forall x :: x in counts ==> x < n {
      assert a > 0 ==> a - 1 < b;
      assert b > 0 ==> b - 1 < a;
    }
  }

  /**
   * What the loop knows with the cursor at `i`: the first `negatives` counts are negative
   * and the others are not, and `absent` shows why `ok` was withdrawn. In unreliable mode
   * `expected` merely counts the non-negative elements passed, so it never overtakes one.
   */
  ghost predicate Scanned(counts: seq<int>, reliable: bool, num: nat,
                          i: nat, expected: int, negatives: nat, absent: int, ok: bool)
  {
    && negatives <= i <= |counts| && 0 <= expected && (num == 0 ==> expected == 0 && i == 0)
    && (forall j :: 0 <= j < negatives ==> counts[j] < 0)
    && (i > 0 ==> forall j :: negatives <= j < |counts| ==> 0 <= counts[j])
    && (reliable ==> forall j :: 0 <= j < i ==> counts[j] < expected)
    && (i < |counts| && (i > 0 || expected > 0) ==> expected <= counts[i])
    && (ok ==> negatives == 0 && expected == i && (reliable ==> forall j :: 0 <= j < i ==> counts[j] == j))
    && (!ok && negatives == 0 ==> reliable && 0 <= absent < num && absent !in counts)
    && (expected <= num || (i < |counts| && expected == counts[i]))
    && (!reliable ==> expected == i - negatives)
    && (reliable ==> expected == 0 || expected - 1 in counts || (i < |counts| && expected == counts[i]))
    && (reliable ==> forall j :: 0 <= j < i ==> counts[j] < num)
    && (reliable && num < expected ==> num - 1 !in counts)
  }

  lemma ScanGap(counts: seq<int>, num: nat, i: nat, expected: int, negatives: nat, absent: int, ok: bool)
    requires Ascending(counts) && Scanned(counts, true, num, i, expected, negatives, absent, ok)
    requires i < |counts| && expected < num && expected < counts[i]
    ensures Scanned(counts, true, num, i, counts[i], negatives, expected, false)
  {
    if i == 0 {
      assert forall j :: 0 <= j < |counts| ==> counts[0] <= counts[j];
    }
    assert expected !in counts;
  }

  lemma ScanNegative(counts: seq<int>, reliable: bool, num: nat, i: nat, expected: int,
                     negatives: nat, absent: int, ok: bool, k: nat)
    requires Ascending(counts) && Scanned(counts, reliable, num, i, expected, negatives, absent, ok)
    requires i < k <= |counts| && expected < num && counts[i] < expected
    requires forall j :: i <= j < k ==> counts[j] < expected
    requires k < |counts| ==> expected <= counts[k]
    ensures i == 0 && expected == 0
    ensures Scanned(counts, reliable, num, k, expected, k, absent, false)
  {
    assert i == 0 && expected == 0;
    assert forall j :: k <= j < |counts| ==> counts[k] <= counts[j];
  }

  lemma ScanNext(counts: seq<int>, reliable: bool, num: nat, i: nat, expected: int,
                 negatives: nat, absent: int, ok: bool)
    requires Ascending(counts) && Scanned(counts, reliable, num, i, expected, negatives, absent, ok)
    requires i < |counts| && expected < num
    requires expected == counts[i] || (expected < counts[i] && !reliable)
    ensures Scanned(counts, reliable, num, i + 1, expected + 1, negatives, absent, ok)
  {
    if i + 1 < |counts| {
      Climbs(counts, negatives, i + 1);
      assert counts[i] < counts[i + 1];
    }
    if i == 0 {
      assert forall j :: 0 <= j < |counts| ==> counts[0] <= counts[j];
    }
    assert counts[i] in counts;
  }

  /** When the loop ends the verdict is decided by what is left, and otherwise by the size alone. */
  lemma ScanEnd(counts: seq<int>, reliable: bool, num: nat, i: nat, expected: int,
                negatives: nat, absent: int, ok: bool)
    requires Ascending(counts) && 4 * num < 0x8000_0000
    requires Scanned(counts, reliable, num, i, expected, negatives, absent, ok)
    requires i == |counts| || num <= expected
    ensures i < |counts| ==> !Passes(counts, reliable, num)
    ensures i == |counts| ==>
      (Passes(counts, reliable, num)
       <==> ok && !(ToLong(|counts|) < num && (reliable || ToLong(4 * |counts|) < num)))
  {
    if i < |counts| {
      assert counts[i] in counts && counts[0] in counts;
    } else if ok {
      PassedAll(counts, reliable, num);
    } else if negatives > 0 {
      assert counts[0] in counts;
    }
  }

  /** When the loop found no fault and used up the set, only the size decides. */
  lemma PassedAll(counts: seq<int>, reliable: bool, num: nat)
    requires |counts| <= num && forall j :: 0 <= j < |counts| ==> 0 <= counts[j]
    requires reliable ==> forall j :: 0 <= j < |counts| ==> counts[j] == j
    ensures Passes(counts, reliable, num)
       <==> !(|counts| < num && (reliable || 4 * |counts| < num))
  {
    if reliable {
      if |counts| < num {
        assert num - 1 !in counts;
      } else {
        forall x | 0 <= x < num
          ensures x in counts
        {
          assert counts[x] == x;
        }
      }
    }
  }

  lemma ScanReached(counts: seq<int>, num: nat, i: nat, expected: int, negatives: nat, absent: int, ok: bool)
    requires Ascending(counts) && Scanned(counts, true, num, i, expected, negatives, absent, ok)
    requires i == |counts| || num <= expected
    ensures ReachedLastExamined(counts, num, expected)
  {
    if i < |counts| {
      assert forall j :: i <= j < |counts| ==> counts[i] <= counts[j];
      assert counts[i] in counts;
    }
  }

  // ----------------------------------------------------------- the reports

  function Negatives(counts: seq<int>): set<int> {
    set x | x in counts && x < 0
  }

  function NonNegatives(counts: seq<int>): set<int> {
    set x | x in counts && 0 <= x
  }

  /** Negative counts are reported once, and whether there are several of them. */
  function FirstReport(counts: seq<int>, num: nat): seq<Report> {
    if num == 0 || Negatives(counts) == {} then [] else [NegativeCount(|Negatives(counts)| > 1)]
  }

  /**
   * Counts are left over: in reliable mode there is one from `num` on, in unreliable mode
   * more than `num` are not negative.
   */
  ghost predicate LeftOver(counts: seq<int>, reliable: bool, num: nat) {
    if num == 0 then counts != []
    else if reliable then exists x :: x in counts && num <= x
    else |NonNegatives(counts)| > num
  }

  predicate Few(counts: seq<int>, reliable: bool, num: nat) {
    ToLong(|counts|) < num && (reliable || ToLong(4 * |counts|) < num)
  }

  /** Left-over counts are reported, otherwise too few counts. */
  ghost function LastReport(counts: seq<int>, reliable: bool, num: nat): seq<Report> {
    if LeftOver(counts, reliable, num) then [TooHigh]
    else if Few(counts, reliable, num) then [TooFew(ToLong(|counts|), num)]
    else []
  }

  /** The reports start with `first` and end with `last`, and are ranges in between. */
  ghost predicate Framed(reports: seq<Report>, first: seq<Report>, last: seq<Report>) {
    && |first| + |last| <= |reports|
    && reports[..|first|] == first && reports[|reports| - |last|..] == last
    && forall k :: |first| <= k < |reports| - |last| ==> reports[k].Missing?
  }

  lemma FramedMore(reports: seq<Report>, first: seq<Report>, r: Report)
    requires Framed(reports, first, [])
    ensures Framed(reports + [r], first, [r])
    ensures r.Missing? ==> Framed(reports + [r], first, [])
  {
  }

  lemma FramedStart(reports: seq<Report>)
    ensures Framed(reports, reports, [])
  {
  }

  /** What is reported of negative counts when `n` of them have been passed. */
  function PassedNegatives(n: nat): seq<Report> {
    if n == 0 then [] else [NegativeCount(n > 1)]
  }

  /** In an ordered set the negative counts come first. */
  lemma CountSigns(counts: seq<int>, n: nat)
    requires Ascending(counts) && n <= |counts|
    requires (forall j :: 0 <= j < n ==> counts[j] < 0) && (forall j :: n <= j < |counts| ==> 0 <= counts[j])
    ensures |Negatives(counts)| == n && |NonNegatives(counts)| == |counts| - n
  {
    AscendingSize(counts[..n]);
    AscendingSize(counts[n..]);
    assert counts == counts[..n] + counts[n..];
    assert Negatives(counts) == set x | x in counts[..n];
    assert NonNegatives(counts) == set x | x in counts[n..];
  }

  /** When the loop ends, the negative counts have all been passed. */
  lemma ScanSigns(counts: seq<int>, reliable: bool, num: nat, i: nat, expected: int,
                  negatives: nat, absent: int, ok: bool)
    requires Ascending(counts) && Scanned(counts, reliable, num, i, expected, negatives, absent, ok)
    requires i == |counts| || num <= expected
    ensures num > 0 ==>
              |Negatives(counts)| == negatives && |NonNegatives(counts)| == |counts| - negatives
    ensures FirstReport(counts, num) == PassedNegatives(negatives)
  {
    if num > 0 {
      if i == 0 && counts != [] {
        assert forall j :: 0 <= j < |counts| ==> counts[0] <= counts[j];
      }
      CountSigns(counts, negatives);
    }
  }

  /** The loop ends in front of a count exactly when counts are left over. */
  lemma ScanLeftOver(counts: seq<int>, reliable: bool, num: nat, i: nat, expected: int,
                     negatives: nat, absent: int, ok: bool)
    requires Ascending(counts) && Scanned(counts, reliable, num, i, expected, negatives, absent, ok)
    requires i == |counts| || num <= expected
    ensures i < |counts| <==> LeftOver(counts, reliable, num)
  {
    if num > 0 {
      ScanSigns(counts, reliable, num, i, expected, negatives, absent, ok);
      if i < |counts| {
        assert counts[i] in counts;
      }
    }
  }

  /** What has been reported with the cursor at `i`. */
  ghost predicate Reported(reports: seq<Report>, counts: seq<int>, reliable: bool,
                           i: nat, expected: int, negatives: nat)
  {
    && (reliable ==> Ordered(reports) && ExactGaps(reports, counts, expected))
    && (!reliable ==> (forall x :: !ReportedMissing(reports, x)) && reports == PassedNegatives(negatives))
    && Framed(reports, PassedNegatives(negatives), [])
    && (i == 0 && expected == 0 ==> reports == [])
  }

  lemma NothingReported(counts: seq<int>, reliable: bool)
    ensures Reported([], counts, reliable, 0, 0, 0)
  {
    NoGapYet(counts);
  }

  lemma StepGap(reports: seq<Report>, counts: seq<int>, num: nat, i: nat, expected: int,
                negatives: nat, absent: int, ok: bool)
    requires Ascending(counts) && Scanned(counts, true, num, i, expected, negatives, absent, ok)
    requires Reported(reports, counts, true, i, expected, negatives)
    requires i < |counts| && expected < num && expected < counts[i]
    ensures Scanned(counts, true, num, i, counts[i], negatives, expected, false)
    ensures Reported(reports + [Missing(expected, counts[i] - 1)], counts, true, i, counts[i], negatives)
  {
    hide Ordered, ExactGaps, Framed;
    ScanGap(counts, num, i, expected, negatives, absent, ok);
    AddGap(reports, counts, expected, i);
    FramedMore(reports, PassedNegatives(negatives), Missing(expected, counts[i] - 1));
  }

  lemma StepNegative(reports: seq<Report>, counts: seq<int>, reliable: bool, num: nat, i: nat, expected: int,
                     negatives: nat, absent: int, ok: bool, k: nat)
    requires Ascending(counts) && Scanned(counts, reliable, num, i, expected, negatives, absent, ok)
    requires Reported(reports, counts, reliable, i, expected, negatives)
    requires i < k <= |counts| && expected < num && counts[i] < expected
    requires forall j :: i <= j < k ==> counts[j] < expected
    requires k < |counts| ==> expected <= counts[k]
    ensures Scanned(counts, reliable, num, k, expected, k, absent, false)
    ensures Reported(reports + [NegativeCount(i + 1 < k)], counts, reliable, k, expected, k)
  {
    hide Ordered, ExactGaps, Framed, ReportedMissing;
    ScanNegative(counts, reliable, num, i, expected, negatives, absent, ok, k);
    AddOther(reports, NegativeCount(i + 1 < k));
    GapsKept(reports, NegativeCount(i + 1 < k), counts, expected);
    assert reports + [NegativeCount(i + 1 < k)] == PassedNegatives(k);
    FramedStart(PassedNegatives(k));
  }

  lemma StepNext(reports: seq<Report>, counts: seq<int>, reliable: bool, num: nat, i: nat, expected: int,
                 negatives: nat, absent: int, ok: bool)
    requires Ascending(counts) && Scanned(counts, reliable, num, i, expected, negatives, absent, ok)
    requires Reported(reports, counts, reliable, i, expected, negatives)
    requires i < |counts| && expected < num
    requires expected == counts[i] || (expected < counts[i] && !reliable)
    ensures Scanned(counts, reliable, num, i + 1, expected + 1, negatives, absent, ok)
    ensures Reported(reports, counts, reliable, i + 1, expected + 1, negatives)
  {
    ScanNext(counts, reliable, num, i, expected, negatives, absent, ok);
    hide Ordered, ExactGaps, Framed, ReportedMissing;
    if reliable {
      assert counts[i] in counts;
      Advance(reports, counts, expected);
    }
  }

  /** When the loop has ended, one more report may be due, and then everything is reported. */
  lemma Conclude(reports: seq<Report>, counts: seq<int>, reliable: bool, num: nat, i: nat, expected: int,
                 negatives: nat, absent: int, ok: bool)
    requires Ascending(counts) && Scanned(counts, reliable, num, i, expected, negatives, absent, ok)
    requires Reported(reports, counts, reliable, i, expected, negatives)
    requires i == |counts| || num <= expected
    ensures i < |counts| <==> LeftOver(counts, reliable, num)
    ensures reliable ==> ReachedLastExamined(counts, num, expected)
    ensures var last := LastReport(counts, reliable, num);
            && (reliable ==> Ordered(reports + last) && ExactGaps(reports + last, counts, expected))
            && (!reliable ==> forall x :: !ReportedMissing(reports + last, x))
            && Framed(reports + last, FirstReport(counts, num), last)
            && (!reliable ==> |reports + last| == |FirstReport(counts, num)| + |last|)
  {
    if reliable {
      ScanReached(counts, num, i, expected, negatives, absent, ok);
    }
    ScanSigns(counts, reliable, num, i, expected, negatives, absent, ok);
    ScanLeftOver(counts, reliable, num, i, expected, negatives, absent, ok);
    hide Ordered, ExactGaps, Framed, ReportedMissing, Scanned, FirstReport, LeftOver, ReachedLastExamined;
    var last := LastReport(counts, reliable, num);
    if last == [] {
      assert reports + last == reports;
    } else {
      AddOther(reports, last[0]);
      GapsKept(reports, last[0], counts, expected);
      FramedMore(reports, PassedNegatives(negatives), last[0]);
    }
  }

  /**
   * The audit loop. `num` is the number of messages expected; the two casts of the set's
   * size to a 32-bit integer are kept.
   */
  method Audit(counts: seq<int>, reliable: bool, num: nat)
    returns (ok: bool, reports: seq<Report>, reached: int)
    requires Ascending(counts) && 4 * num < 0x8000_0000
    ensures ok <==> Passes(counts, reliable, num)
    ensures reliable ==> Ordered(reports) && ExactGaps(reports, counts, reached)
    ensures reliable ==> ReachedLastExamined(counts, num, reached)
    ensures !reliable ==> forall x :: !ReportedMissing(reports, x)
    ensures Framed(reports, FirstReport(counts, num), LastReport(counts, reliable, num))
    ensures !reliable ==> |reports| == |FirstReport(counts, num)| + |LastReport(counts, reliable, num)|
  {
    hide ReportedMissing, Ordered, ExactGaps, Passes, ReachedLastExamined, Ascending;
    hide FirstReport, LeftOver, Framed, Reported;
    var expected, i := 0, 0;
    ok, reports := true, [];
    ghost var negatives: nat, absent: int := 0, -1;
    NothingReported(counts, reliable);
    while i < |counts| && expected < num
      invariant i <= |counts|
      invariant Scanned(counts, reliable, num, i, expected, negatives, absent, ok)
      invariant Reported(reports, counts, reliable, i, expected, negatives)
      decreases |counts| - i, if i < |counts| && expected < counts[i] then 1 else 0
    {
      if expected != counts[i] {
        if expected < counts[i] {
          if reliable {
            StepGap(reports, counts, num, i, expected, negatives, absent, ok);
            reports := reports + [Missing(expected, counts[i] - 1)];
            absent := expected;
            expected := counts[i];
            ok := false;
            continue;
          }
        } else {
          var many := false;
          ghost var start := i;
          i := i + 1;
          while i < |counts| && counts[i] < expected
            invariant start < i <= |counts| && (many <==> start + 1 < i)
            invariant forall j :: start <= j < i ==> counts[j] < expected
          {
            many := true;
            i := i + 1;
          }
          StepNegative(reports, counts, reliable, num, start, expected, negatives, absent, ok, i);
          reports := reports + [NegativeCount(many)];
          ok := false;
          negatives := i;
          continue;
        }
      }
      StepNext(reports, counts, reliable, num, i, expected, negatives, absent, ok);
      expected := expected + 1;
      i := i + 1;
    }
    reached := expected;
    ScanEnd(counts, reliable, num, i, expected, negatives, absent, ok);
    Conclude(reports, counts, reliable, num, i, expected, negatives, absent, ok);
    if i < |counts| {
      reports := reports + [TooHigh];
      ok := false;
    } else if ToLong(|counts|) < num && (reliable || ToLong(4 * |counts|) < num) {
      reports := reports + [TooFew(ToLong(|counts|), num)];
      ok := false;
    } else {
      assert reports + [] == reports;
    }
  }

  /**
   * Which reports the audit makes, besides the missing ranges. The size of the set is cut to
   * 32 bits where the code casts it.
   */
  lemma ReportKinds(reports: seq<Report>, counts: seq<int>, reliable: bool, num: nat, a: int, b: int, many: bool)
    requires num > 0 && Framed(reports, FirstReport(counts, num), LastReport(counts, reliable, num))
    ensures TooHigh in reports
       <==> if reliable then exists x :: x in counts && num <= x else |set x | x in counts && 0 <= x| > num
    ensures TooFew(a, b) in reports
       <==> && a == ToLong(|counts|) && b == num && TooHigh !in reports
            && a < num && (reliable || ToLong(4 * |counts|) < num)
    ensures NegativeCount(many) in reports
       <==> && (exists x :: x in counts && x < 0)
            && (many <==> exists x, y :: x in counts && y in counts && x < y < 0)
    ensures forall i, j :: 0 <= i < j < |reports| ==> !(reports[i].NegativeCount? && reports[j].NegativeCount?)
  {
    var first, last := FirstReport(counts, num), LastReport(counts, reliable, num);
    ReportsAtEnds(reports, first, last);
    SeveralNegatives(counts);
    hide Framed;
    assert Negatives(counts) == {} <==> !exists x :: x in counts && x < 0 by {
      assert forall x :: x in counts && x < 0 ==> x in Negatives(counts);
      assert forall x :: x in Negatives(counts) ==> x in counts && x < 0;
    }
  }

  /** Reports of the other kinds occur at the two ends only. */
  lemma ReportsAtEnds(reports: seq<Report>, first: seq<Report>, last: seq<Report>)
    requires Framed(reports, first, last)
    requires |first| <= 1 && |last| <= 1 && (first != [] ==> first[0].NegativeCount?)
    requires last != [] ==> !last[0].NegativeCount? && !last[0].Missing?
    ensures forall r: Report :: !r.Missing? ==> (r in reports <==> r in first || r in last)
    ensures forall i, j :: 0 <= i < j < |reports| ==> !(reports[i].NegativeCount? && reports[j].NegativeCount?)
  {
    assert first != [] ==> reports[0] == first[0] by {
      assert reports[..|first|] == first;
    }
    assert last != [] ==> reports[|reports| - 1] == last[0] by {
      assert reports[|reports| - |last|..] == last;
    }
  }

  lemma SeveralNegatives(counts: seq<int>)
    ensures |Negatives(counts)| > 1 <==> exists x, y :: x in counts && y in counts && x < y < 0
  {
    var negatives := Negatives(counts);
    if |negatives| > 1 {
      var x :| x in negatives;
      assert |negatives - {x}| > 0;
      var y :| y in negatives - {x};
      assert x in counts && y in counts && (x < y || y < x);
    }
    if x, y :| x in counts && y in counts && x < y < 0 {
      assert {x, y} <= negatives && |{x, y}| == 2;
      SubsetSize({x, y}, negatives);
    }
  }

  lemma {:induction false} SubsetSize(a: set<int>, b: set<int>)
    requires a <= b
    ensures |a| <= |b|
  {
    assert b == a + (b - a);
  }
}
