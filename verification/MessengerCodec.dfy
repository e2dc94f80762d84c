/** The stream operators, size predictors, skippers and lazy lookup, as the generated code runs them. */
module MessengerCodec {
  import opened Common
  import opened Cdr
  import opened MessengerTypes
  import opened FieldAccess
  import opened Streams

  // ------------------------------------------------------- size prediction

  method FindSizeULong(size: nat, padding: nat) returns (size': nat, padding': nat)
    ensures Extent(size', padding') == Grow(Extent(size, padding), Word(0))
  {
    size', padding' := size, padding;
    if (size' + padding') % 4 != 0 {
      padding' := padding' + (4 - (size' + padding') % 4);
    }
    size' := size' + 4;
  }

  method FindSizeTime(t: TimeSpec, size: nat, padding: nat) returns (size': nat, padding': nat)
    ensures Predicts(Extent(size, padding), TimeItems(t, Done), Extent(size', padding'))
  {
    size', padding' := FindSizeULong(size, padding);
    size', padding' := FindSizeULong(size', padding');
    MeasureExact(Extent(size, padding), TimeItems(t, Done));
    MeasureTime(Extent(size, padding), t, Done);
  }

  lemma MeasureTime(e: Extent, t: TimeSpec, rest: Items)
    ensures Measure(e, TimeItems(t, rest)) == Measure(Grow(Grow(e, Word(0)), Word(0)), rest)
  {
    assert Measure(Grow(e, Word(0)), LongItems(t.nsec, rest)) == Measure(Grow(Grow(e, Word(0)), Word(0)), rest);
  }

  lemma MeasureText(e: Extent, t: Text, rest: Items)
    ensures Measure(e, TextItems(t, rest)) == Measure(Grow(Grow(e, Word(0)), Raw(t + [NUL])), rest)
  {
    assert Measure(Grow(e, Word(0)), Then(Raw(t + [NUL]), rest))
        == Measure(Grow(Grow(e, Word(0)), Raw(t + [NUL])), rest);
  }

  lemma MeasureMessage(e: Extent, m: Message<Text>, rest: Items)
    ensures var e2 := Grow(Grow(e, Word(0)), Raw(m.text + [NUL]));
            var e5 := Grow(Grow(Grow(e2, Word(0)), Word(0)), Word(0));
            Measure(e, MessageItems(m, rest)) == Measure(Grow(e5, Raw([m.subject])), rest)
  {
    MeasureText(e, m.text, TailItems(m, rest));
    var e2 := Grow(Grow(e, Word(0)), Raw(m.text + [NUL]));
    assert Measure(e2, TailItems(m, rest))
        == Measure(Grow(e2, Word(0)), TimeItems(m.timeStamp, Then(Raw([m.subject]), rest)));
    MeasureTime(Grow(e2, Word(0)), m.timeStamp, Then(Raw([m.subject]), rest));
  }

  /** Exact at any start extent: the growth of size, and of size plus padding, are the two encoded lengths. */
  method FindSizeMessage(m: Message<Text>, size: nat, padding: nat) returns (size': nat, padding': nat)
    ensures Extent(size', padding') == Measure(Extent(size, padding), MessageItems(m, Done))
    ensures Predicts(Extent(size, padding), MessageItems(m, Done), Extent(size', padding'))
  {
    hide Measure, MessageItems, Predicts;
    size', padding' := FindSizeULong(size, padding);
    size' := size' + |m.text| + 1;
    if (size' + padding') % 4 != 0 {
      padding' := padding' + (4 - (size' + padding') % 4);
    }
    size' := size' + 4;
    size', padding' := FindSizeULong(size', padding');
    size', padding' := FindSizeULong(size', padding');
    size' := size' + 1;
    MeasureExact(Extent(size, padding), MessageItems(m, Done));
    MeasureMessage(Extent(size, padding), m, Done);
    MeasureNothing(Extent(size', padding'));
  }

  lemma MeasureNothing(e: Extent)
    ensures Measure(e, Done) == e
  {
  }

  /** The same for a list of messages written back to back. */
  method FindSizeMessages(ms: seq<Message<Text>>, size: nat, padding: nat) returns (size': nat, padding': nat)
    ensures Predicts(Extent(size, padding), StreamItems(ms), Extent(size', padding'))
  {
    size', padding' := size, padding;
    for i := 0 to |ms|
      invariant Measure(Extent(size, padding), StreamItems(ms))
             == Measure(Extent(size', padding'), StreamItems(ms[i..]))
    {
      hide Measure, MessageItems, Predicts;
      ghost var e := Extent(size', padding');
      size', padding' := FindSizeMessage(ms[i], size', padding');
      assert ms[i..][1..] == ms[i + 1..];
      MeasureMessageThen(e, ms[i], StreamItems(ms[i + 1..]));
    }
    MeasureExact(Extent(size, padding), StreamItems(ms));
  }

  lemma MeasureMessageThen(e: Extent, m: Message<Text>, rest: Items)
    ensures Measure(e, MessageItems(m, rest)) == Measure(Measure(e, MessageItems(m, Done)), rest)
  {
    hide MessageItems, Measure, Grow;
    MeasureMessage(e, m, rest);
    MeasureMessage(e, m, Done);
    MeasureNothing(Measure(e, MessageItems(m, Done)));
    var e2 := Grow(Grow(e, Word(0)), Raw(m.text + [NUL]));
    MeasureNothing(Grow(Grow(Grow(Grow(e2, Word(0)), Word(0)), Word(0)), Raw([m.subject])));
  }

  method FindSizeTexts(ts: seq<Text>, size: nat, padding: nat) returns (size': nat, padding': nat)
    requires |ts| == 100
    ensures Predicts(Extent(size, padding), TextsItems(ts), Extent(size', padding'))
  {
    size', padding' := size, padding;
    for i := 0 to STRING_ARRAY_LENGTH
      invariant Measure(Extent(size, padding), TextsItems(ts))
             == Measure(Extent(size', padding'), TextsItems(ts[i..]))
    {
      hide Measure, TextItems;
      ghost var e := Extent(size', padding');
      size', padding' := FindSizeULong(size', padding');
      size' := size' + |ts[i]| + 1;
      assert ts[i..][1..] == ts[i + 1..];
      MeasureText(e, ts[i], TextsItems(ts[i + 1..]));
    }
    MeasureExact(Extent(size, padding), TextsItems(ts));
  }

  method FindSizeContents(b: BinaryContents, size: nat, padding: nat) returns (size': nat, padding': nat)
    ensures Predicts(Extent(size, padding), ContentsItems(b), Extent(size', padding'))
  {
    MeasureExact(Extent(size, padding), ContentsItems(b));
    MeasureContents(Extent(size, padding), b);
    size', padding' := FindSizeULong(size, padding);
    if |b| == 0 {
      return;
    }
    size' := size' + |b|;
  }

  lemma MeasureContents(e: Extent, b: BinaryContents)
    ensures var g := Grow(e, Word(0));
            Measure(e, ContentsItems(b)) == Extent(g.size + |b|, g.padding)
  {
    if |b| != 0 {
      assert Measure(Grow(e, Word(0)), Then(Raw(b), Done)) == Grow(Grow(e, Word(0)), Raw(b));
    }
  }

  // --------------------------------------------------------------- writing

  method WriteTime(ser: Serializer, t: TimeSpec) returns (ok: bool)
    requires ser.Valid()
    modifies ser, ser.block
    ensures ser.Valid() && ser.rd == old(ser.rd)
    ensures ser.Out() == PutItems(ser.fmt, old(ser.Out()), TimeItems(t, Done)) && ok == ser.good
  {
    ghost var s := ser.Out();
    ok := ser.WriteULong(LongBits(t.sec));
    if ok {
      ok := ser.WriteULong(LongBits(t.nsec));
    }
    PutTime(ser.fmt, s, t, Done);
  }

  lemma PutTime(fmt: Format, s: Sink, t: TimeSpec, rest: Items)
    ensures var s1 := PutItem(fmt, s, Word(LongBits(t.sec)));
            && PutItems(fmt, s, TimeItems(t, rest)) == PutItems(fmt, PutItem(fmt, s1, Word(LongBits(t.nsec))), rest)
            && (!s1.good ==> PutItem(fmt, s1, Word(LongBits(t.nsec))) == s1)
  {
    var s1 := PutItem(fmt, s, Word(LongBits(t.sec)));
    assert PutItems(fmt, s1, LongItems(t.nsec, rest)) == PutItems(fmt, PutItem(fmt, s1, Word(LongBits(t.nsec))), rest);
  }

  /** The chain of the message writer: each part is written only if the one before it was. */
  lemma PutMessage(fmt: Format, s: Sink, m: Message<Text>, rest: Items)
    ensures var s1 := PutItems(fmt, s, TextItems(m.text, Done));
            var s2 := PutItem(fmt, s1, Word(LongBits(m.count)));
            var s3 := PutItems(fmt, s2, TimeItems(m.timeStamp, Done));
            var s4 := PutRaw(s3, [m.subject]);
            && PutItems(fmt, s, MessageItems(m, rest)) == PutItems(fmt, s4, rest)
            && (!s1.good ==> s4 == s1) && (!s2.good ==> s4 == s2) && (!s3.good ==> s4 == s3)
  {
    var last := Then(Raw([m.subject]), rest);
    PutText(fmt, s, m.text, TailItems(m, rest));
    var s1 := PutItems(fmt, s, TextItems(m.text, Done));
    var s2 := PutItem(fmt, s1, Word(LongBits(m.count)));
    hide PutItem, TextItems, TimeItems;
    assert PutItems(fmt, s1, TailItems(m, rest)) == PutItems(fmt, s2, TimeItems(m.timeStamp, last));
    PutTimeThen(fmt, s2, m.timeStamp, last);
    var s3 := PutItems(fmt, s2, TimeItems(m.timeStamp, Done));
    PutSubject(fmt, s3, m.subject, rest);
    if !s1.good {
      PutWordAfterFailure(fmt, s1, LongBits(m.count));
    }
    if !s2.good {
      PutAfterFailure(fmt, s2, TimeItems(m.timeStamp, Done));
    }
  }

  lemma PutWordAfterFailure(fmt: Format, s: Sink, x: ULong)
    requires !s.good
    ensures PutItem(fmt, s, Word(x)) == s
  {
  }

  lemma PutSubject(fmt: Format, s: Sink, c: byte, rest: Items)
    ensures PutItems(fmt, s, Then(Raw([c]), rest)) == PutItems(fmt, PutRaw(s, [c]), rest)
  {
  }

  lemma PutTimeThen(fmt: Format, s: Sink, t: TimeSpec, rest: Items)
    ensures PutItems(fmt, s, TimeItems(t, rest)) == PutItems(fmt, PutItems(fmt, s, TimeItems(t, Done)), rest)
  {
    hide PutItem;
    PutTime(fmt, s, t, rest);
    PutTime(fmt, s, t, Done);
    var s2 := PutItem(fmt, PutItem(fmt, s, Word(LongBits(t.sec))), Word(LongBits(t.nsec)));
    assert PutItems(fmt, s2, Done) == s2;
  }

  lemma PutText(fmt: Format, s: Sink, t: Text, rest: Items)
    ensures PutItems(fmt, s, TextItems(t, rest)) == PutItems(fmt, PutItems(fmt, s, TextItems(t, Done)), rest)
  {
    hide PutItem;
    var raw := Raw(t + [NUL]);
    var s1 := PutItem(fmt, s, Word((|t| + 1) % 0x1_0000_0000));
    assert PutItems(fmt, s1, Then(raw, rest)) == PutItems(fmt, PutItem(fmt, s1, raw), rest);
    assert PutItems(fmt, s1, Then(raw, Done)) == PutItem(fmt, s1, raw);
  }

  /** A good stream takes the items exactly when there is room for what the predictor announces. */
  lemma FitsIffAnnounced(ser: Serializer, items: Items)
    requires ser.Valid()
    ensures ser.good ==>
      (PutItems(ser.fmt, ser.Out(), items).good
       <==> Announced(ser.fmt, ser.base + ser.wr, items) <= ser.block.Length - ser.wr)
  {
    hide PutItems, Announced;
    if ser.good {
      PutSucceedsIff(ser.fmt, ser.Out(), items);
    }
  }

  method WriteMessage(ser: Serializer, m: Message<Text>) returns (ok: bool)
    requires ser.Valid()
    modifies ser, ser.block
    ensures ser.Valid() && ser.rd == old(ser.rd)
    ensures ser.Out() == PutItems(ser.fmt, old(ser.Out()), MessageItems(m, Done)) && ok == ser.good
    ensures old(ser.good) ==>
      (ok <==> Announced(ser.fmt, ser.base + old(ser.wr), MessageItems(m, Done)) <= ser.block.Length - old(ser.wr))
  {
    FitsIffAnnounced(ser, MessageItems(m, Done));
    PutMessage(ser.fmt, ser.Out(), m, Done);
    hide PutItem, TextItems, TimeItems, MessageItems, Announced;
    ok := ser.WriteText(m.text);
    if ok {
      ok := ser.WriteULong(LongBits(m.count));
    }
    if ok {
      ok := WriteTime(ser, m.timeStamp);
    }
    if ok {
      ok := ser.WriteRaw([m.subject]);
    }
  }

  method WriteTexts(ser: Serializer, ts: seq<Text>) returns (ok: bool)
    requires ser.Valid() && |ts| == 100
    modifies ser, ser.block
    ensures ser.Valid() && ser.rd == old(ser.rd)
    ensures ser.Out() == PutItems(ser.fmt, old(ser.Out()), TextsItems(ts)) && ok == ser.good
    ensures old(ser.good) ==>
      (ok <==> Announced(ser.fmt, ser.base + old(ser.wr), TextsItems(ts)) <= ser.block.Length - old(ser.wr))
  {
    hide Announced;
    FitsIffAnnounced(ser, TextsItems(ts));
    ghost var s := ser.Out();
    for i := 0 to STRING_ARRAY_LENGTH
      invariant ser.Valid() && ser.rd == old(ser.rd) && (i > 0 ==> ser.good)
      invariant PutItems(ser.fmt, s, TextsItems(ts)) == PutItems(ser.fmt, ser.Out(), TextsItems(ts[i..]))
    {
      hide PutItem, TextItems;
      assert ts[i..][1..] == ts[i + 1..];
      PutText(ser.fmt, ser.Out(), ts[i], TextsItems(ts[i + 1..]));
      ok := ser.WriteText(ts[i]);
      if !ok {
        PutAfterFailure(ser.fmt, ser.Out(), TextsItems(ts[i + 1..]));
        return;
      }
    }
    ok := true;
  }

  method WriteContents(ser: Serializer, b: BinaryContents) returns (ok: bool)
    requires ser.Valid()
    modifies ser, ser.block
    ensures ser.Valid() && ser.rd == old(ser.rd)
    ensures ser.Out() == PutItems(ser.fmt, old(ser.Out()), ContentsItems(b)) && ok == ser.good
    ensures old(ser.good) ==>
      (ok <==> Announced(ser.fmt, ser.base + old(ser.wr), ContentsItems(b)) <= ser.block.Length - old(ser.wr))
  {
    FitsIffAnnounced(ser, ContentsItems(b));
    PutContents(ser.fmt, ser.Out(), b);
    hide PutItem, PutItems, ContentsItems, Announced;
    ok := ser.WriteULong(|b|);
    if !ok {
      return;
    }
    if |b| == 0 {
      return;
    }
    ok := ser.WriteRaw(b);
  }

  lemma PutContents(fmt: Format, s: Sink, b: BinaryContents)
    ensures var s1 := PutItem(fmt, s, Word(|b|));
            PutItems(fmt, s, ContentsItems(b)) == if s1.good && |b| != 0 then PutRaw(s1, b) else s1
  {
    var s1 := PutItem(fmt, s, Word(|b|));
    if |b| != 0 {
      assert PutItems(fmt, s1, Then(Raw(b), Done)) == PutRaw(s1, b);
    }
  }

  // --------------------------------------------------------------- reading

  method ReadTime(ser: Serializer) returns (ok: bool, x: Option<TimeSpec>)
    requires ser.Valid()
    modifies ser`rd, ser`good
    ensures ser.Valid()
    ensures ser.Took(TakeTime(ser.fmt, ser.base, ser.Data(), old(ser.rd)), old(ser.good), old(ser.rd), ok, x)
  {
    hide TakeLong;
    x := None;
    var sec, nsec;
    ok, sec := ser.ReadLong();
    if ok {
      ok, nsec := ser.ReadLong();
      if ok {
        x := Some(TimeSpec(sec.value, nsec.value));
      }
    }
  }

  method ReadMessage(ser: Serializer) returns (ok: bool, x: Option<Message<Text>>)
    requires ser.Valid()
    modifies ser`rd, ser`good
    ensures ser.Valid()
    ensures ser.Took(TakeMessage(ser.fmt, ser.base, ser.Data(), old(ser.rd)), old(ser.good), old(ser.rd), ok, x)
  {
    hide TakeText, TakeLong, TakeTime, TakeChar;
    x := None;
    var text, count, time, subject;
    ok, text := ser.ReadText();
    if ok {
      ok, count := ser.ReadLong();
      if ok {
        ok, time := ReadTime(ser);
        if ok {
          ok, subject := ser.ReadChar();
          if ok {
            x := Some(Message(text.value, count.value, time.value, subject.value));
          }
        }
      }
    }
  }

  method ReadTexts(ser: Serializer) returns (ok: bool, x: Option<seq<Text>>)
    requires ser.Valid()
    modifies ser`rd, ser`good
    ensures ser.Valid()
    ensures ser.Took(TakeTexts(ser.fmt, ser.base, ser.Data(), old(ser.rd), 100),
                     old(ser.good), old(ser.rd), ok, x)
  {
    hide TakeText, TakeTexts, Prepend;
    ghost var d, rd0 := ser.Data(), ser.rd;
    var ts: seq<Text> := [];
    PrependEnds(ser.fmt, ser.base, d, rd0, ts, STRING_ARRAY_LENGTH);
    for i := 0 to STRING_ARRAY_LENGTH
      invariant ser.Valid() && ser.Data() == d
      invariant if old(ser.good) then ser.good else i == 0 && !ser.good && ser.rd == rd0
      invariant old(ser.good) ==>
        TakeTexts(ser.fmt, ser.base, d, rd0, STRING_ARRAY_LENGTH)
        == Prepend(ts, TakeTexts(ser.fmt, ser.base, d, ser.rd, STRING_ARRAY_LENGTH - i))
    {
      PrependStep(ser.fmt, ser.base, d, ser.rd, ts, STRING_ARRAY_LENGTH - i);
      var t;
      ok, t := ser.ReadText();
      if !ok {
        return false, None;
      }
      ts := ts + [t.value];
    }
    PrependEnds(ser.fmt, ser.base, d, ser.rd, ts, 0);
    return true, Some(ts);
  }

  lemma PrependEnds(fmt: Format, base: nat, d: seq<byte>, p: nat, ts: seq<Text>, n: nat)
    requires p <= |d|
    ensures ts == [] ==> Prepend(ts, TakeTexts(fmt, base, d, p, n)) == TakeTexts(fmt, base, d, p, n)
    ensures n == 0 ==> Prepend(ts, TakeTexts(fmt, base, d, p, n)) == Read(Some(ts), p)
  {
    hide TakeText;
    var r := TakeTexts(fmt, base, d, p, n);
    if r.val.Some? {
      assert [] + r.val.value == r.val.value;
    }
    assert ts + [] == ts;
  }

  lemma PrependStep(fmt: Format, base: nat, d: seq<byte>, p: nat, ts: seq<Text>, n: nat)
    requires p <= |d| && n > 0
    ensures var t := TakeText(fmt, base, d, p);
            Prepend(ts, TakeTexts(fmt, base, d, p, n))
            == if t.val.Some? then Prepend(ts + [t.val.value], TakeTexts(fmt, base, d, t.pos, n - 1))
               else Read(None, t.pos)
  {
    hide TakeText;
    var t := TakeText(fmt, base, d, p);
    if t.val.Some? {
      var r := TakeTexts(fmt, base, d, t.pos, n - 1);
      if r.val.Some? {
        assert ts + ([t.val.value] + r.val.value) == (ts + [t.val.value]) + r.val.value;
      }
    }
  }

  /** A read with values already taken put in front. */
  ghost function Prepend(ts: seq<Text>, r: Read<seq<Text>>): Read<seq<Text>> {
    if r.val.Some? then Read(Some(ts + r.val.value), r.pos) else r
  }

  method ReadContents(ser: Serializer) returns (ok: bool, x: Option<BinaryContents>)
    requires ser.Valid()
    modifies ser`rd, ser`good
    ensures ser.Valid()
    ensures ser.Gave(TakeContents(ser.fmt, ser.base, ser.Data(), old(ser.rd)), old(ser.good), old(ser.rd), x)
    ensures ok == x.Some?
  {
    hide TakeWord;
    x := None;
    var n, b;
    ok, n := ser.ReadULong();
    if !ok {
      return;
    }
    if n.value > MAX_FILE_SIZE {
      ok := false;
      return;
    }
    if n.value == 0 {
      x := Some([]);
      return;
    }
    ok, b := ser.ReadRaw(n.value);
    x := if ok then Some(b.value) else None;
  }

  // -------------------------------------------------- lazy lookup and skips

  method GetTimeValue(ser: Serializer, field: string) returns (x: Option<Value>)
    requires ser.Valid()
    modifies ser`rd, ser`good
    ensures ser.Valid()
    ensures ser.Gave(LazyTime(ser.fmt, ser.base, ser.Data(), old(ser.rd), field), old(ser.good), old(ser.rd), x)
  {
    hide TakeLong, Skip;
    x := None;
    var ok, val;
    if field == "tv_sec" {
      ok, val := ser.ReadLong();
      return if ok then Some(LongValue(val.value)) else None;
    }
    ok := ser.SkipUnits(1, 4);
    if !ok {
      return;
    }
    if field == "tv_nsec" {
      ok, val := ser.ReadLong();
      return if ok then Some(LongValue(val.value)) else None;
    }
    ok := ser.SkipUnits(1, 4);
    if !ok {
      return;
    }
    if field == "" {
      x := Some(LongValue(0));
    }
  }

  method SkipOverCounted(ser: Serializer) returns (ok: bool)
    requires ser.Valid()
    modifies ser`rd, ser`good
    ensures ser.Valid()
    ensures ser.Gave(SkipCounted(ser.fmt, ser.base, ser.Data(), old(ser.rd)), old(ser.good), old(ser.rd),
                     if ok then Some(()) else None)
  {
    hide TakeWord, Skip;
    var n;
    ok, n := ser.ReadULong();
    if ok {
      ok := ser.SkipUnits(n.value % SKIP_LIMIT, 1);
    }
  }

  method GetTailValue(ser: Serializer, field: string) returns (x: Option<Value>)
    requires ser.Valid()
    modifies ser`rd, ser`good
    ensures ser.Valid()
    ensures ser.Gave(LazyTail(ser.fmt, ser.base, ser.Data(), old(ser.rd), field), old(ser.good), old(ser.rd), x)
  {
    hide TakeLong, TakeChar, Skip, LazyTime;
    x := None;
    var ok, val, skipped, c;
    if field == "count" {
      ok, val := ser.ReadLong();
      return if ok then Some(LongValue(val.value)) else None;
    }
    ok := ser.SkipUnits(1, 4);
    if !ok {
      return;
    }
    if TIME_PREFIX <= field {
      x := GetTimeValue(ser, field[|TIME_PREFIX|..]);
      return;
    }
    skipped := GetTimeValue(ser, "");
    if skipped.None? {
      return;
    }
    if field == "subject" {
      ok, c := ser.ReadChar();
      return if ok then Some(CharValue(c.value)) else None;
    }
    ok := ser.SkipUnits(1, 1);
    if ok && field == "" {
      x := Some(LongValue(0));
    }
  }

  /** Looks one field up in serialized bytes; `None` is the exception. */
  method GetValue(ser: Serializer, field: string) returns (x: Option<Value>)
    requires ser.Valid()
    modifies ser`rd, ser`good
    ensures ser.Valid()
    ensures ser.Gave(LazyValue(ser.fmt, ser.base, ser.Data(), old(ser.rd), field), old(ser.good), old(ser.rd), x)
  {
    hide TakeText, SkipCounted, LazyTail;
    if field == "text" {
      var ok, t := ser.ReadText();
      return if ok then Some(TextValue(t.value)) else None;
    }
    var ok := SkipOverCounted(ser);
    if !ok {
      return None;
    }
    x := GetTailValue(ser, field);
  }

  /** Passes over one message: the lazy lookup with no field wanted. */
  method SkipOverMessage(ser: Serializer) returns (ok: bool)
    requires ser.Valid()
    modifies ser`rd, ser`good
    ensures ser.Valid()
    ensures ok ==> old(ser.good) && ser.good
    ensures old(ser.good) ==>
      var r := LazyValue(ser.fmt, ser.base, ser.Data(), old(ser.rd), ""); ok == r.val.Some? && ser.rd == r.pos
  {
    var x := GetValue(ser, "");
    ok := x.Some?;
  }

  method SkipOverTexts(ser: Serializer) returns (ok: bool)
    requires ser.Valid()
    modifies ser`rd, ser`good
    ensures ser.Valid()
    ensures ser.Gave(SkipTexts(ser.fmt, ser.base, ser.Data(), old(ser.rd), 100),
                     old(ser.good), old(ser.rd), if ok then Some(()) else None)
  {
    hide SkipCounted;
    ghost var d, rd0 := ser.Data(), ser.rd;
    for i := 0 to STRING_ARRAY_LENGTH
      invariant ser.Valid() && ser.Data() == d
      invariant if old(ser.good) then ser.good else i == 0 && !ser.good && ser.rd == rd0
      invariant old(ser.good) ==>
        SkipTexts(ser.fmt, ser.base, d, rd0, STRING_ARRAY_LENGTH)
        == SkipTexts(ser.fmt, ser.base, d, ser.rd, STRING_ARRAY_LENGTH - i)
    {
      ok := SkipOverCounted(ser);
      if !ok {
        return;
      }
    }
    ok := true;
  }
}
