/**
 * Access to single fields: from a message in memory, and lazily from serialized
 * bytes, where the fields in front of the wanted one are skipped. The skipper of
 * each type is the same walk with no field wanted.
 *
 * A failed lookup (the thrown exception of the original) is `None`.
 */
module FieldAccess {
  import opened Common
  import opened Cdr
  import opened MessengerTypes

  datatype Value = TextValue(s: Text) | LongValue(x: Long) | CharValue(c: byte)

  /** The skipper takes a 16-bit count, so a skipped length is cut to 16 bits. */
  const SKIP_LIMIT: nat := 0x1_0000

  const TIME_PREFIX: string := "time_stamp."

  // -------------------------------------------------------------- in memory

  function TimeValue(t: TimeSpec, field: string): Option<Value> {
    if field == "tv_sec" then Some(LongValue(t.sec))
    else if field == "tv_nsec" then Some(LongValue(t.nsec))
    else None
  }

  function FieldValue(m: Message<Text>, field: string): Option<Value> {
    if field == "text" then Some(TextValue(m.text))
    else if field == "count" then Some(LongValue(m.count))
    else if TIME_PREFIX <= field then TimeValue(m.timeStamp, field[|TIME_PREFIX|..])
    else if field == "subject" then Some(CharValue(m.subject))
    else None
  }

  /** What each name stands for; every other name fails. */
  lemma FieldValues(m: Message<Text>, field: string)
    ensures FieldValue(m, "text") == Some(TextValue(m.text))
    ensures FieldValue(m, "count") == Some(LongValue(m.count))
    ensures FieldValue(m, "time_stamp.tv_sec") == Some(LongValue(m.timeStamp.sec))
    ensures FieldValue(m, "time_stamp.tv_nsec") == Some(LongValue(m.timeStamp.nsec))
    ensures FieldValue(m, "subject") == Some(CharValue(m.subject))
    ensures FieldValue(m, field).Some? <==>
              field in {"text", "count", "time_stamp.tv_sec", "time_stamp.tv_nsec", "subject"}
  {
    assert TIME_PREFIX + "tv_sec" == "time_stamp.tv_sec" && "time_stamp.tv_sec"[|TIME_PREFIX|..] == "tv_sec";
    assert TIME_PREFIX + "tv_nsec" == "time_stamp.tv_nsec" && "time_stamp.tv_nsec"[|TIME_PREFIX|..] == "tv_nsec";
    if TIME_PREFIX <= field {
      assert field == TIME_PREFIX + field[|TIME_PREFIX|..];
    }
  }

  // ---------------------------------------------------------- from a stream

  function LazyTime(fmt: Format, base: nat, d: seq<byte>, p: nat, field: string): (r: Read<Value>)
    requires p <= |d|
    ensures p <= r.pos <= |d|
  {
    if field == "tv_sec" then
      var (x, p1) :- TakeLong(fmt, base, d, p);
      Read(Some(LongValue(x)), p1)
    else
      var (_, p1) :- Skip(fmt, base, d, p, 1, 4);
      if field == "tv_nsec" then
        var (x, p2) :- TakeLong(fmt, base, d, p1);
        Read(Some(LongValue(x)), p2)
      else
        var (_, p2) :- Skip(fmt, base, d, p1, 1, 4);
        Read(if field == "" then Some(LongValue(0)) else None, p2)
  }

  /** A length word, then that many bytes cut to 16 bits. */
  function SkipCounted(fmt: Format, base: nat, d: seq<byte>, p: nat): (r: Read<()>)
    requires p <= |d|
    ensures p <= r.pos <= |d|
  {
    var (n, p1) :- TakeWord(fmt, base, d, p);
    Skip(fmt, base, d, p1, n % SKIP_LIMIT, 1)
  }

  function LazyTail(fmt: Format, base: nat, d: seq<byte>, p: nat, field: string): (r: Read<Value>)
    requires p <= |d|
    ensures p <= r.pos <= |d|
  {
    if field == "count" then
      var (x, p1) :- TakeLong(fmt, base, d, p);
      Read(Some(LongValue(x)), p1)
    else
      var (_, p1) :- Skip(fmt, base, d, p, 1, 4);
      if TIME_PREFIX <= field then
        LazyTime(fmt, base, d, p1, field[|TIME_PREFIX|..])
      else
        var (_, p2) :- LazyTime(fmt, base, d, p1, "");
        if field == "subject" then
          var (c, p3) :- TakeChar(d, p2);
          Read(Some(CharValue(c)), p3)
        else
          var (_, p3) :- Skip(fmt, base, d, p2, 1, 1);
          Read(if field == "" then Some(LongValue(0)) else None, p3)
  }

  function LazyValue(fmt: Format, base: nat, d: seq<byte>, p: nat, field: string): (r: Read<Value>)
    requires p <= |d|
    ensures p <= r.pos <= |d|
  {
    if field == "text" then
      var (t, p1) :- TakeText(fmt, base, d, p);
      Read(Some(TextValue(t)), p1)
    else
      var (_, p1) :- SkipCounted(fmt, base, d, p);
      LazyTail(fmt, base, d, p1, field)
  }

  function SkipMessages(fmt: Format, base: nat, d: seq<byte>, p: nat, n: nat): (r: Read<()>)
    requires p <= |d|
    ensures p <= r.pos <= |d|
    decreases n
  {
    if n == 0 then Read(Some(()), p) else
    var (_, p1) :- LazyValue(fmt, base, d, p, "");
    SkipMessages(fmt, base, d, p1, n - 1)
  }

  function SkipTexts(fmt: Format, base: nat, d: seq<byte>, p: nat, n: nat): (r: Read<()>)
    requires p <= |d|
    ensures p <= r.pos <= |d|
    decreases n
  {
    if n == 0 then Read(Some(()), p) else
    var (_, p1) :- SkipCounted(fmt, base, d, p);
    SkipTexts(fmt, base, d, p1, n - 1)
  }

  // ---------------------------------------- lazy and in-memory reads agree

  /** The two field names on which only the in-memory lookup fails. */
  predicate OnlyLazy(field: string) {
    field == "" || field == TIME_PREFIX
  }

  /** What the lazy lookup is to return: the in-memory value, or zero for the two special names. */
  function Expected(m: Message<Text>, field: string): Option<Value> {
    if OnlyLazy(field) then Some(LongValue(0)) else FieldValue(m, field)
  }

  lemma LazyTailAt(fmt: Format, base: nat, d: seq<byte>, p: nat, m: Message<Text>, rest: Items, field: string)
    requires field != "text" && Stands(fmt, base, d, p, TailItems(m, rest))
    ensures p <= |d| && LazyTail(fmt, base, d, p, field).val == Expected(m, field)
  {
    TailAt(fmt, base, d, p, m, rest);
    hide Stands, TailItems, TakeLong, TakeTime, TakeChar, Skip;
    if TIME_PREFIX <= field {
      assert field == TIME_PREFIX + field[|TIME_PREFIX|..];
    }
  }

  /** Where the text of a message ends, and where skipping it ends: short by whole multiples of 65536. */
  lemma SkipCountedAt(fmt: Format, base: nat, d: seq<byte>, p: nat, t: Text, rest: Items)
    requires IsText(t) && Stands(fmt, base, d, p, TextItems(t, rest))
    ensures var q := p + Pad(fmt, base + p) + 4 + |t| + 1;
            && q <= |d|
            && TakeText(fmt, base, d, p) == Read(Some(t), q)
            && SkipCounted(fmt, base, d, p) == Read(Some(()), q - (|t| + 1) / 65536 * 65536)
            && Stands(fmt, base, d, q, rest)
  {
    TextAt(fmt, base, d, p, t, rest);
    hide Stands, TakeText, TakeWord, TextItems;
    CutOff(|t| + 1);
  }

  /**
   * Lazy field access: on the bytes of any message with a short text, at any start
   * offset, in both byte orders and both alignment modes, the value found is the
   * in-memory one, and the lookup fails on the same names except exactly two.
   * The text itself needs no bound.
   */
  lemma LazyAgrees(fmt: Format, base: nat, d: seq<byte>, p: nat, m: Message<Text>, rest: Items, field: string)
    requires IsText(m.text) && Stands(fmt, base, d, p, MessageItems(m, rest))
    requires |m.text| + 1 < 65536 || field == "text"
    ensures p <= |d| && LazyValue(fmt, base, d, p, field).val == Expected(m, field)
    ensures field == "" || field == "time_stamp." ==>
              Expected(m, field) == Some(LongValue(0)) && FieldValue(m, field).None?
    ensures field != "" && field != "time_stamp." ==> Expected(m, field) == FieldValue(m, field)
  {
    hide Stands, Pad, MessageItems, TailItems, TextItems, LazyTail, SkipCounted, TakeText, TimeValue;
    MessageSplit(m, rest);
    SkipCountedAt(fmt, base, d, p, m.text, TailItems(m, rest));
    if field == "text" {
    } else {
      CutOff(|m.text| + 1);
      LazyTailAt(fmt, base, d, p + Pad(fmt, base + p) + 4 + |m.text| + 1, m, rest, field);
    }
    OnlyLazyNames(m, field);
  }

  lemma OnlyLazyNames(m: Message<Text>, field: string)
    ensures OnlyLazy(field) <==> field == "" || field == "time_stamp."
    ensures OnlyLazy(field) ==> FieldValue(m, field).None?
  {
  }

  // ------------------------------------------------------ skip versus read

  /** Skips move with the data by multiples of 65536, because the alignment is the same there. */
  lemma SkipTailShifted(fmt: Format, base: nat, d: seq<byte>, p: nat, s: nat)
    requires s % 4 == 0 && s <= p && p + Pad(fmt, base + p) + 13 <= |d|
    ensures var r := LazyTail(fmt, base, d, p - s, "");
            r.val.Some? && r.pos == p + Pad(fmt, base + p) + 13 - s
  {
    hide Skip, Pad, TakeLong, TakeChar;
    PadShifted(fmt, base + p, s);
    var q := p - s + Pad(fmt, base + p) + 4;
    SkipOne(fmt, base, d, p - s, 4);
    SkipOne(fmt, base, d, q, 4);
    SkipOne(fmt, base, d, q + 4, 4);
    SkipOne(fmt, base, d, q + 8, 1);
  }

  lemma PadShifted(fmt: Format, off: nat, s: nat)
    requires s % 4 == 0 && s <= off
    ensures Pad(fmt, off - s) == Pad(fmt, off)
    ensures Pad(fmt, off - s + Pad(fmt, off) + 4) == 0
    ensures Pad(fmt, off - s + Pad(fmt, off) + 8) == 0
  {
    SameResidue(off, s);
    hide Pad;
    PadByResidue(fmt, off, off - s);
    PadBehindWord(fmt, off - s);
    PadByResidue(fmt, off - s + Pad(fmt, off) + 4, off - s + Pad(fmt, off) + 8);
  }

  lemma SameResidue(off: nat, s: nat)
    requires s % 4 == 0 && s <= off
    ensures (off - s) % 4 == off % 4
  {
    assert off - s == off - 4 * (s / 4);
  }

  /** Padding depends on the offset within a word only. */
  lemma PadByResidue(fmt: Format, a: nat, b: nat)
    requires a % 4 == b % 4
    ensures Pad(fmt, a) == Pad(fmt, b)
  {
  }

  lemma SkipOne(fmt: Format, base: nat, d: seq<byte>, p: nat, unit: nat)
    requires 1 <= unit && p + Pad(fmt, base + p) + unit <= |d|
    ensures Skip(fmt, base, d, p, 1, unit)
         == Read(Some(()), p + (if unit > 1 then Pad(fmt, base + p) else 0) + unit)
  {
  }

  /**
   * Skipping a message never fails on its bytes, and ends where reading it ends less a
   * whole number of 65536 bytes: exactly there when, and only when, the text is short.
   */
  lemma SkipMessageAt(fmt: Format, base: nat, d: seq<byte>, p: nat, m: Message<Text>, rest: Items)
    requires IsText(m.text) && Stands(fmt, base, d, p, MessageItems(m, rest))
    ensures p <= |d|
    ensures var read, skip := TakeMessage(fmt, base, d, p), LazyValue(fmt, base, d, p, "");
            && read.val == Some(m) && skip.val.Some?
            && skip.pos == read.pos - (|m.text| + 1) / 65536 * 65536
            && (skip.pos == read.pos <==> |m.text| + 1 < 65536)
  {
    hide Stands, Pad, MessageItems, TailItems, TextItems, MessageLength;
    hide LazyTail, LazyTime, SkipCounted, TakeMessage, TakeText, TakeLong, TakeTime, TakeChar, Skip;
    MessageSplit(m, rest);
    MessageAt(fmt, base, d, p, m, rest);
    MessageLengthSplit(fmt, base, p, m);
    SkipCountedAt(fmt, base, d, p, m.text, TailItems(m, rest));
    CutOff(|m.text| + 1);
    var q := p + Pad(fmt, base + p) + 4 + |m.text| + 1;
    SkipTailShifted(fmt, base, d, q, (|m.text| + 1) / 65536 * 65536);
  }

  lemma MessageSplit(m: Message<Text>, rest: Items)
    ensures MessageItems(m, rest) == TextItems(m.text, TailItems(m, rest))
  {
  }

  lemma CutOff(n: nat)
    ensures var s := n / 65536 * 65536;
            0 <= s <= n && s % 4 == 0 && n % SKIP_LIMIT == n - s && (s == 0 <==> n < 65536)
  {
  }

  /** Skipping n messages and then reading yields message n. */
  lemma {:induction false} SkipThenRead(fmt: Format, base: nat, d: seq<byte>, p: nat,
                                        ms: seq<Message<Text>>, n: nat)
    requires AreMessages(ms) && Stands(fmt, base, d, p, StreamItems(ms))
    requires n < |ms| && forall i :: 0 <= i < n ==> |ms[i].text| + 1 < 65536
    ensures p <= |d| && SkipMessages(fmt, base, d, p, n).val.Some?
    ensures TakeMessage(fmt, base, d, SkipMessages(fmt, base, d, p, n).pos).val == Some(ms[n])
    decreases n
  {
    hide Stands, TakeMessage, MessageItems, MessageLength, LazyValue;
    MessageAt(fmt, base, d, p, ms[0], StreamItems(ms[1..]));
    if n == 0 {
    } else {
      assert |ms[0].text| + 1 < 65536;
      SkipMessageAt(fmt, base, d, p, ms[0], StreamItems(ms[1..]));
      SkipThenRead(fmt, base, d, p + MessageLength(fmt, base + p, ms[0]), ms[1..], n - 1);
    }
  }

  /** The lazy lookup is right for every message with a text of this length, wherever and however it is written. */
  ghost predicate LazyRightForLength(n: nat) {
    forall fmt, base: nat, d: seq<byte>, p: nat, m: Message<Text>, field ::
      IsText(m.text) && |m.text| == n && p <= |d| && Stands(fmt, base, d, p, MessageItems(m, Done))
      ==> LazyValue(fmt, base, d, p, field).val == Expected(m, field)
  }

  /** The length bound is exact: with any longer text there is a message whose count is misread. */
  lemma LazyRightIff(n: nat)
    requires n + 1 < 0x1_0000_0000
    ensures LazyRightForLength(n) <==> n + 1 < 65536
  {
    if n + 1 < 65536 {
      forall fmt, base: nat, d: seq<byte>, p: nat, m: Message<Text>, field
        | IsText(m.text) && |m.text| == n && p <= |d| && Stands(fmt, base, d, p, MessageItems(m, Done))
        ensures LazyValue(fmt, base, d, p, field).val == Expected(m, field)
      {
        LazyAgrees(fmt, base, d, p, m, Done, field);
      }
    } else {
      var d, m := Misread(n);
    }
  }

  /** A message of n letters 'a' with count 0, whose count is lazily read out of its text. */
  lemma Misread(n: nat) returns (d: seq<byte>, m: Message<Text>)
    requires 65536 <= n + 1 < 0x1_0000_0000
    ensures IsText(m.text) && |m.text| == n
    ensures Stands(Format(false, BigEndian), 0, d, 0, MessageItems(m, Done))
    ensures LazyValue(Format(false, BigEndian), 0, d, 0, "count").val != Expected(m, "count")
  {
    hide Stands, MessageItems, TextItems, TailItems, TakeText, TakeWord, TakeLong, SkipCounted;
    var fmt := Format(false, BigEndian);
    var text := seq<byte>(n, _ => 97);
    m := Message(text, 0, TimeSpec(0, 0), 103);
    var tail := TailItems(m, Done);
    d := Written(fmt, MessageItems(m, Done));
    MessageSplit(m, Done);
    TextAt(fmt, 0, d, 0, text, tail);
    SkipCountedAt(fmt, 0, d, 0, text, tail);
    CutOff(n + 1);
    RunOfLetters(d, 4, text, 4 + (n + 1) % SKIP_LIMIT);
  }

  /** The items written alone at the start of a stream. */
  lemma Written(fmt: Format, items: Items) returns (d: seq<byte>)
    ensures Stands(fmt, 0, d, 0, items)
  {
    d := Encode(fmt, 0, items);
    EncodingStands(fmt, 0, d, 0, items);
  }

  lemma RunOfLetters(d: seq<byte>, p: nat, text: seq<byte>, q: nat)
    requires p + |text| + 1 <= |d| && d[p..p + |text| + 1] == text + [NUL]
    requires forall i :: 0 <= i < |text| ==> text[i] == 97
    requires p <= q && q + 4 <= p + |text|
    ensures TakeLong(Format(false, BigEndian), 0, d, q).val == Some(0x61616161)
  {
    forall i | q <= i < q + 4
      ensures d[i] == 97
    {
      assert d[i] == d[p..p + |text| + 1][i - p] == text[i - p];
    }
    assert d[q..q + 4] == [97, 97, 97, 97];
  }

  /** The skipper and the reader of a string array agree on every prefix of the array. */
  ghost predicate SkipTracksRead(fmt: Format, base: nat, d: seq<byte>, p: nat, n: nat)
    requires p <= |d|
  {
    forall j | 0 <= j <= n ::
      var skip, read := SkipTexts(fmt, base, d, p, j), TakeTexts(fmt, base, d, p, j);
      skip.val.Some? == read.val.Some? && skip.pos == read.pos
  }

  /** On the bytes of an array the skipper's loop tracks the reader's loop exactly when every string is short. */
  lemma {:induction false} SkipTextsIff(fmt: Format, base: nat, d: seq<byte>, p: nat, ts: seq<Text>)
    requires AreTexts(ts) && Stands(fmt, base, d, p, TextsItems(ts))
    ensures p <= |d|
    ensures SkipTracksRead(fmt, base, d, p, |ts|) <==> forall i :: 0 <= i < |ts| ==> |ts[i]| + 1 < 65536
    decreases |ts|
  {
    NothingStands(fmt, base, d, p);
    if ts == [] {
    } else {
      hide Stands, Pad, SkipCounted, TakeText, TextItems, SkipTracksRead, IsText;
      var first, rest := ts[0], ts[1..];
      SkipCountedAt(fmt, base, d, p, first, TextsItems(rest));
      CutOff(|first| + 1);
      var p1 := TakeText(fmt, base, d, p).pos;
      SkipTextsIff(fmt, base, d, p1, rest);
      SkipTracksStep(fmt, base, d, p, |ts|);
      AllShort(ts);
    }
  }

  lemma AllShort(ts: seq<Text>)
    requires ts != []
    ensures (forall i :: 0 <= i < |ts| ==> |ts[i]| + 1 < 65536)
       <==> |ts[0]| + 1 < 65536 && (forall i :: 0 <= i < |ts[1..]| ==> |ts[1..][i]| + 1 < 65536)
  {
    assert forall i :: 0 < i < |ts| ==> ts[i] == ts[1..][i - 1];
  }

  /** The loops agree when their first iterations do and, from where those end, the rest do. */
  lemma SkipTracksStep(fmt: Format, base: nat, d: seq<byte>, p: nat, n: nat)
    requires p <= |d| && n > 0
    requires SkipCounted(fmt, base, d, p).val.Some? && TakeText(fmt, base, d, p).val.Some?
    ensures var p1 := TakeText(fmt, base, d, p).pos;
            SkipTracksRead(fmt, base, d, p, n)
            <==> SkipCounted(fmt, base, d, p).pos == p1 && SkipTracksRead(fmt, base, d, p1, n - 1)
  {
    hide SkipCounted, TakeText;
    var p1 := TakeText(fmt, base, d, p).pos;
    if SkipTracksRead(fmt, base, d, p, n) {
      assert SkipTexts(fmt, base, d, p, 1).pos == TakeTexts(fmt, base, d, p, 1).pos;
      SkipTextsOne(fmt, base, d, p);
      forall j | 0 <= j <= n - 1
        ensures SkipTexts(fmt, base, d, p1, j).val.Some? == TakeTexts(fmt, base, d, p1, j).val.Some?
        ensures SkipTexts(fmt, base, d, p1, j).pos == TakeTexts(fmt, base, d, p1, j).pos
      {
        assert SkipTexts(fmt, base, d, p, j + 1).pos == TakeTexts(fmt, base, d, p, j + 1).pos;
      }
    }
    if SkipCounted(fmt, base, d, p).pos == p1 && SkipTracksRead(fmt, base, d, p1, n - 1) {
      forall j | 0 <= j <= n
        ensures SkipTexts(fmt, base, d, p, j).val.Some? == TakeTexts(fmt, base, d, p, j).val.Some?
        ensures SkipTexts(fmt, base, d, p, j).pos == TakeTexts(fmt, base, d, p, j).pos
      {
        if j > 0 {
          assert SkipTexts(fmt, base, d, p1, j - 1).pos == TakeTexts(fmt, base, d, p1, j - 1).pos;
        }
      }
    }
  }

  lemma SkipTextsOne(fmt: Format, base: nat, d: seq<byte>, p: nat)
    requires p <= |d| && SkipCounted(fmt, base, d, p).val.Some? && TakeText(fmt, base, d, p).val.Some?
    ensures SkipTexts(fmt, base, d, p, 1).pos == SkipCounted(fmt, base, d, p).pos
    ensures TakeTexts(fmt, base, d, p, 1).pos == TakeText(fmt, base, d, p).pos
  {
  }

  /**
   * An octet sequence is skipped short by whole multiples of 65536, so its legal lengths from
   * 65536 on are misjudged.
   */
  lemma SkipContentsAt(fmt: Format, base: nat, d: seq<byte>, p: nat, b: BinaryContents)
    requires Stands(fmt, base, d, p, ContentsItems(b))
    ensures p <= |d|
    ensures var read, skip := TakeContents(fmt, base, d, p), SkipCounted(fmt, base, d, p);
            && read.val == Some(b) && skip.val.Some?
            && skip.pos == read.pos - |b| / 65536 * 65536
            && (skip.pos == read.pos <==> |b| < 65536)
  {
    ContentsAt(fmt, base, d, p, b);
    StandsWithin(fmt, base, d, p, ContentsItems(b));
    WordAt(fmt, base, d, p, |b|, if |b| == 0 then Done else Then(Raw(b), Done));
    hide Stands, TakeContents, TakeWord;
    var q := p + Pad(fmt, base + p) + 4;
    assert Length(fmt, base + q, if |b| == 0 then Done else Then(Raw(b), Done)) == |b|;
    CutOff(|b|);
  }
}
