/**
 * The IDL types and their five views of one byte format: layout (writer), size
 * predictor, reader, and skipper; the lazy field reader is in FieldAccess.
 */
module MessengerTypes {
  import opened Common
  import opened Cdr

  const NUL: byte := 0
  const STRING_ARRAY_LENGTH: nat := 100
  const MAX_FILE_SIZE: nat := 100_000

  type Text = seq<byte>

  /** The contents of a C string whose length, terminator included, fits the 32-bit length word. */
  predicate IsText(t: Text) {
    NUL !in t && |t| + 1 < 0x1_0000_0000
  }

  predicate AreTexts(ts: seq<Text>) {
    forall i :: 0 <= i < |ts| ==> IsText(ts[i])
  }

  type BinaryContents = s: seq<byte> | |s| <= MAX_FILE_SIZE

  datatype TimeSpec = TimeSpec(sec: Long, nsec: Long)

  /** `T` is `Text` on the wire; the gateway components work on the parsed document. */
  datatype Message<+T> = Message(text: T, count: Long, timeStamp: TimeSpec, subject: byte)

  predicate AreMessages(ms: seq<Message<Text>>) {
    forall i :: 0 <= i < |ms| ==> IsText(ms[i].text)
  }

  // ---------------------------------------------------------------- layout

  /** The length word is the 32-bit cast of the length. */
  function TextItems(t: Text, rest: Items): Items {
    Then(Word((|t| + 1) % 0x1_0000_0000), Then(Raw(t + [NUL]), rest))
  }

  function TextsItems(ts: seq<Text>): Items {
    if ts == [] then Done else TextItems(ts[0], TextsItems(ts[1..]))
  }

  function ContentsItems(b: BinaryContents): Items {
    Then(Word(|b|), if |b| == 0 then Done else Then(Raw(b), Done))
  }

  function LongItems(x: Long, rest: Items): Items {
    Then(Word(LongBits(x)), rest)
  }

  function TimeItems(t: TimeSpec, rest: Items): Items {
    LongItems(t.sec, LongItems(t.nsec, rest))
  }

  /** Everything of a message but its text. */
  function TailItems(m: Message<Text>, rest: Items): Items {
    LongItems(m.count, TimeItems(m.timeStamp, Then(Raw([m.subject]), rest)))
  }

  function MessageItems(m: Message<Text>, rest: Items): Items {
    TextItems(m.text, TailItems(m, rest))
  }

  /** Messages written back to back. */
  function StreamItems(ms: seq<Message<Text>>): Items {
    if ms == [] then Done else MessageItems(ms[0], StreamItems(ms[1..]))
  }

  // ------------------------------------------------------ the bytes themselves

  /** A word in front of the rest: zeros up to the next multiple of four, then its four bytes. */
  lemma WordFirst(fmt: Format, off: nat, x: ULong, rest: Items)
    ensures var p := Pad(fmt, off);
            Encode(fmt, off, Then(Word(x), rest))
            == seq(p, _ => 0 as byte) + WordBytes(fmt.order, x) + Encode(fmt, off + p + 4, rest)
  {
    assert Zeros(Pad(fmt, off)) == seq(Pad(fmt, off), _ => 0 as byte);
  }

  lemma RawFirst(fmt: Format, off: nat, b: seq<byte>, rest: Items)
    ensures Encode(fmt, off, Then(Raw(b), rest)) == b + Encode(fmt, off + |b|, rest)
  {
  }

  lemma BitsOfLong(x: Long)
    ensures LongBits(x) == x % 0x1_0000_0000
  {
  }

  /** A string: its length with the terminator, its bytes, the terminator. */
  lemma TextBytes(fmt: Format, off: nat, t: Text, rest: Items)
    requires IsText(t)
    ensures var p := Pad(fmt, off);
            Encode(fmt, off, TextItems(t, rest))
            == seq(p, _ => 0 as byte) + WordBytes(fmt.order, |t| + 1) + t + [0]
               + Encode(fmt, off + p + 4 + |t| + 1, rest)
  {
    hide Encode;
    WordFirst(fmt, off, |t| + 1, Then(Raw(t + [NUL]), rest));
    RawFirst(fmt, off + Pad(fmt, off) + 4, t + [NUL], rest);
  }

  /**
   * A message on the wire: text, count, seconds, nanoseconds, subject, each in its place,
   * with the only padding in front of the text's length and of the count.
   */
  lemma MessageBytes(fmt: Format, off: nat, m: Message<Text>)
    requires IsText(m.text)
    ensures var p := Pad(fmt, off); var q := Pad(fmt, off + p + 4 + |m.text| + 1);
            Encode(fmt, off, MessageItems(m, Done))
            == seq(p, _ => 0 as byte) + WordBytes(fmt.order, |m.text| + 1) + m.text + [0]
               + (seq(q, _ => 0 as byte) + WordBytes(fmt.order, m.count % 0x1_0000_0000)
                  + (WordBytes(fmt.order, m.timeStamp.sec % 0x1_0000_0000)
                     + (WordBytes(fmt.order, m.timeStamp.nsec % 0x1_0000_0000) + [m.subject])))
  {
    hide Encode, Pad, WordBytes, TextItems, LongBits;
    var last := Then(Raw([m.subject]), Done);
    var o1 := off + Pad(fmt, off) + 4 + |m.text| + 1;
    var o2 := o1 + Pad(fmt, o1) + 4;
    BitsOfLong(m.count);
    BitsOfLong(m.timeStamp.sec);
    BitsOfLong(m.timeStamp.nsec);
    PadBehindWord(fmt, o1);
    PadBehindWord(fmt, o2);
    TextBytes(fmt, off, m.text, TailItems(m, Done));
    WordFirst(fmt, o1, LongBits(m.count), TimeItems(m.timeStamp, last));
    WordFirst(fmt, o2, LongBits(m.timeStamp.sec), LongItems(m.timeStamp.nsec, last));
    WordFirst(fmt, o2 + 4, LongBits(m.timeStamp.nsec), last);
    LastByte(fmt, o2 + 8, m.subject);
  }

  lemma LastByte(fmt: Format, off: nat, c: byte)
    ensures Encode(fmt, off, Then(Raw([c]), Done)) == [c]
  {
    assert Encode(fmt, off + 1, Done) == [];
  }

  /** A string array is its strings one after another, without a length of its own. */
  lemma TextsBytes(fmt: Format, off: nat, ts: seq<Text>)
    requires AreTexts(ts)
    ensures Encode(fmt, off, TextsItems(ts))
         == if ts == [] then [] else
            var p := Pad(fmt, off);
            seq(p, _ => 0 as byte) + WordBytes(fmt.order, |ts[0]| + 1) + ts[0] + [0]
            + Encode(fmt, off + p + 4 + |ts[0]| + 1, TextsItems(ts[1..]))
  {
    hide Pad, WordBytes;
    if ts == [] {
    } else {
      TextBytes(fmt, off, ts[0], TextsItems(ts[1..]));
    }
  }

  /** An octet sequence is its length and its octets. */
  lemma ContentsBytes(fmt: Format, off: nat, b: BinaryContents)
    ensures Encode(fmt, off, ContentsItems(b))
         == seq(Pad(fmt, off), _ => 0 as byte) + WordBytes(fmt.order, |b|) + b
  {
    hide Pad, WordBytes;
    WordFirst(fmt, off, |b|, if |b| == 0 then Done else Then(Raw(b), Done));
  }

  // --------------------------------------------------------------- reading

  function TakeLong(fmt: Format, base: nat, d: seq<byte>, p: nat): (r: Read<Long>)
    requires p <= |d|
    ensures p <= r.pos <= |d|
  {
    var (x, p1) :- TakeWord(fmt, base, d, p);
    Read(Some(ToLong(x)), p1)
  }

  /** The last byte of a string is its terminator; an announced length of zero is read as the empty string. */
  function TakeText(fmt: Format, base: nat, d: seq<byte>, p: nat): (r: Read<Text>)
    requires p <= |d|
    ensures p <= r.pos <= |d|
  {
    var (n, p1) :- TakeWord(fmt, base, d, p);
    if n == 0 then Read(Some([]), p1) else
    var (bytes, p2) :- TakeRaw(d, p1, n);
    Read(Some(CString(bytes[..n - 1], NUL)), p2)
  }

  function TakeChar(d: seq<byte>, p: nat): (r: Read<byte>)
    requires p <= |d|
    ensures p <= r.pos <= |d|
  {
    var (bytes, p1) :- TakeRaw(d, p, 1);
    Read(Some(bytes[0]), p1)
  }

  function TakeTime(fmt: Format, base: nat, d: seq<byte>, p: nat): (r: Read<TimeSpec>)
    requires p <= |d|
    ensures p <= r.pos <= |d|
  {
    var (sec, p1) :- TakeLong(fmt, base, d, p);
    var (nsec, p2) :- TakeLong(fmt, base, d, p1);
    Read(Some(TimeSpec(sec, nsec)), p2)
  }

  function TakeMessage(fmt: Format, base: nat, d: seq<byte>, p: nat): (r: Read<Message<Text>>)
    requires p <= |d|
    ensures p <= r.pos <= |d|
  {
    var (text, p1) :- TakeText(fmt, base, d, p);
    var (count, p2) :- TakeLong(fmt, base, d, p1);
    var (time, p3) :- TakeTime(fmt, base, d, p2);
    var (subject, p4) :- TakeChar(d, p3);
    Read(Some(Message(text, count, time, subject)), p4)
  }

  function TakeMessages(fmt: Format, base: nat, d: seq<byte>, p: nat, n: nat): (r: Read<seq<Message<Text>>>)
    requires p <= |d|
    ensures p <= r.pos <= |d|
    ensures r.val.Some? ==> |r.val.value| == n
    decreases n
  {
    if n == 0 then Read(Some([]), p) else
    var (m, p1) :- TakeMessage(fmt, base, d, p);
    var (ms, p2) :- TakeMessages(fmt, base, d, p1, n - 1);
    Read(Some([m] + ms), p2)
  }

  function TakeTexts(fmt: Format, base: nat, d: seq<byte>, p: nat, n: nat): (r: Read<seq<Text>>)
    requires p <= |d|
    ensures p <= r.pos <= |d|
    ensures r.val.Some? ==> |r.val.value| == n
    decreases n
  {
    if n == 0 then Read(Some([]), p) else
    var (t, p1) :- TakeText(fmt, base, d, p);
    var (ts, p2) :- TakeTexts(fmt, base, d, p1, n - 1);
    Read(Some([t] + ts), p2)
  }

  function TakeContents(fmt: Format, base: nat, d: seq<byte>, p: nat): (r: Read<BinaryContents>)
    requires p <= |d|
    ensures p <= r.pos <= |d|
  {
    var (n, p1) :- TakeWord(fmt, base, d, p);
    if n > MAX_FILE_SIZE then Read(None, p1) else
    if n == 0 then Read(Some([]), p1) else
    TakeRaw(d, p1, n)
  }

  // ------------------------------------------------------------ round trip

  lemma CStringWhole(t: seq<byte>)
    requires NUL !in t
    ensures CString(t, NUL) == t
  {
    if t == [] {
    } else {
      CStringWhole(t[1..]);
    }
  }

  /** A text standing at `p`: its length word, its bytes, and what follows. */
  lemma TextAt(fmt: Format, base: nat, d: seq<byte>, p: nat, t: Text, rest: Items)
    requires IsText(t) && Stands(fmt, base, d, p, TextItems(t, rest))
    ensures var q := p + Pad(fmt, base + p) + 4 + |t| + 1;
            && q <= |d|
            && TakeWord(fmt, base, d, p) == Read(Some(|t| + 1), q - (|t| + 1))
            && TakeText(fmt, base, d, p) == Read(Some(t), q)
            && d[q - (|t| + 1)..q] == t + [NUL]
            && Stands(fmt, base, d, q, rest)
            && Length(fmt, base + p, TextItems(t, rest)) == q - p + Length(fmt, base + q, rest)
  {
    hide Stands, TakeWord, TakeRaw, Length;
    var p1 := p + Pad(fmt, base + p) + 4;
    WordAt(fmt, base, d, p, |t| + 1, Then(Raw(t + [NUL]), rest));
    RawAt(fmt, base, d, p1, t + [NUL], rest);
    assert (t + [NUL])[..|t|] == t;
    CStringWhole(t);
  }

  lemma LongAt(fmt: Format, base: nat, d: seq<byte>, p: nat, x: Long, rest: Items)
    requires Stands(fmt, base, d, p, LongItems(x, rest))
    ensures var q := p + Pad(fmt, base + p) + 4;
            && q <= |d|
            && TakeLong(fmt, base, d, p) == Read(Some(x), q)
            && Skip(fmt, base, d, p, 1, 4) == Read(Some(()), q)
            && Stands(fmt, base, d, q, rest)
  {
    WordAt(fmt, base, d, p, LongBits(x), rest);
    LongRoundTrip(x);
  }

  /** A timestamp standing at `p` is two words, the second immediately after the first. */
  lemma TimeAt(fmt: Format, base: nat, d: seq<byte>, p: nat, t: TimeSpec, rest: Items)
    requires Stands(fmt, base, d, p, TimeItems(t, rest))
    ensures var q := p + Pad(fmt, base + p) + 8;
            && q <= |d|
            && TakeLong(fmt, base, d, p) == Read(Some(t.sec), q - 4)
            && Skip(fmt, base, d, p, 1, 4) == Read(Some(()), q - 4)
            && TakeLong(fmt, base, d, q - 4) == Read(Some(t.nsec), q)
            && Skip(fmt, base, d, q - 4, 1, 4) == Read(Some(()), q)
            && TakeTime(fmt, base, d, p) == Read(Some(t), q)
            && Stands(fmt, base, d, q, rest)
  {
    LongAt(fmt, base, d, p, t.sec, LongItems(t.nsec, rest));
    LongAt(fmt, base, d, p + Pad(fmt, base + p) + 4, t.nsec, rest);
  }

  lemma CharAt(fmt: Format, base: nat, d: seq<byte>, p: nat, c: byte, rest: Items)
    requires Stands(fmt, base, d, p, Then(Raw([c]), rest))
    ensures p + 1 <= |d|
    ensures TakeChar(d, p) == Read(Some(c), p + 1)
    ensures Skip(fmt, base, d, p, 1, 1) == Read(Some(()), p + 1)
    ensures Stands(fmt, base, d, p + 1, rest)
  {
    assert d[p..p + 1][0] == c;
  }

  /** The tail of a message: its three fixed-size parts, each where the one before it ends. */
  lemma TailAt(fmt: Format, base: nat, d: seq<byte>, p: nat, m: Message<Text>, rest: Items)
    requires Stands(fmt, base, d, p, TailItems(m, rest))
    ensures var p1 := p + Pad(fmt, base + p) + 4;
            && p1 + 9 <= |d|
            && TakeLong(fmt, base, d, p) == Read(Some(m.count), p1)
            && Skip(fmt, base, d, p, 1, 4) == Read(Some(()), p1)
            && TakeTime(fmt, base, d, p1) == Read(Some(m.timeStamp), p1 + 8)
            && TakeLong(fmt, base, d, p1) == Read(Some(m.timeStamp.sec), p1 + 4)
            && Skip(fmt, base, d, p1, 1, 4) == Read(Some(()), p1 + 4)
            && TakeLong(fmt, base, d, p1 + 4) == Read(Some(m.timeStamp.nsec), p1 + 8)
            && Skip(fmt, base, d, p1 + 4, 1, 4) == Read(Some(()), p1 + 8)
            && TakeChar(d, p1 + 8) == Read(Some(m.subject), p1 + 9)
            && Skip(fmt, base, d, p1 + 8, 1, 1) == Read(Some(()), p1 + 9)
            && Stands(fmt, base, d, p1 + 9, rest)
  {
    hide Stands, TakeLong, TakeTime, TakeChar, Skip, LongItems, TimeItems;
    var last := Then(Raw([m.subject]), rest);
    LongAt(fmt, base, d, p, m.count, TimeItems(m.timeStamp, last));
    var p1 := p + Pad(fmt, base + p) + 4;
    assert Pad(fmt, base + p1) == 0;
    TimeAt(fmt, base, d, p1, m.timeStamp, last);
    CharAt(fmt, base, d, p1 + 8, m.subject, rest);
  }

  /** The length of a message that starts `off` bytes into the stream. */
  function MessageLength(fmt: Format, off: nat, m: Message<Text>): nat {
    var p1 := Pad(fmt, off) + 4 + |m.text| + 1;
    p1 + Pad(fmt, off + p1) + 4 + 8 + 1
  }

  /** The tail of a message is thirteen bytes after its alignment. */
  lemma MessageLengthSplit(fmt: Format, base: nat, p: nat, m: Message<Text>)
    ensures var q := p + Pad(fmt, base + p) + 4 + |m.text| + 1;
            p + MessageLength(fmt, base + p, m) == q + Pad(fmt, base + q) + 13
  {
  }

  /** Behind an aligned word no padding is needed. */
  lemma PadBehindWord(fmt: Format, p: nat)
    ensures Pad(fmt, p + Pad(fmt, p) + 4) == 0
  {
  }

  /** The length of a message at any offset, and where what follows it starts. */
  lemma LengthOfMessage(fmt: Format, off: nat, m: Message<Text>, rest: Items)
    ensures var n := MessageLength(fmt, off, m);
            Length(fmt, off, MessageItems(m, rest)) == n + Length(fmt, off + n, rest)
  {
    hide Pad;
    var last := Then(Raw([m.subject]), rest);
    var p1 := off + Pad(fmt, off) + 4 + |m.text| + 1;
    var p2 := p1 + Pad(fmt, p1) + 4;
    PadBehindWord(fmt, p1);
    LengthOfTime(fmt, p2, m.timeStamp, last);
    assert Length(fmt, p1, TailItems(m, rest))
        == p2 - p1 + Length(fmt, p2, TimeItems(m.timeStamp, last));
  }

  lemma LengthOfTime(fmt: Format, off: nat, t: TimeSpec, rest: Items)
    ensures var p := Pad(fmt, off) + 8;
            Length(fmt, off, TimeItems(t, rest)) == p + Length(fmt, off + p, rest)
  {
    assert Length(fmt, off, TimeItems(t, rest))
        == Pad(fmt, off) + 4 + Length(fmt, off + Pad(fmt, off) + 4, LongItems(t.nsec, rest));
  }

  /** The reader inverts the writer, at any start offset, and stops where the message ends. */
  lemma MessageAt(fmt: Format, base: nat, d: seq<byte>, p: nat, m: Message<Text>, rest: Items)
    requires IsText(m.text) && Stands(fmt, base, d, p, MessageItems(m, rest))
    ensures var q := p + MessageLength(fmt, base + p, m);
            && q <= |d|
            && TakeMessage(fmt, base, d, p) == Read(Some(m), q)
            && Stands(fmt, base, d, q, rest)
  {
    hide Stands, Length, Pad, TakeText, TakeLong, TakeTime, TakeChar, TextItems, TailItems;
    TextAt(fmt, base, d, p, m.text, TailItems(m, rest));
    TailAt(fmt, base, d, p + Pad(fmt, base + p) + 4 + |m.text| + 1, m, rest);
  }

  lemma {:induction false} StreamAt(fmt: Format, base: nat, d: seq<byte>, p: nat, ms: seq<Message<Text>>)
    requires AreMessages(ms) && Stands(fmt, base, d, p, StreamItems(ms))
    ensures p <= |d|
    ensures TakeMessages(fmt, base, d, p, |ms|)
         == Read(Some(ms), p + Length(fmt, base + p, StreamItems(ms)))
    decreases |ms|
  {
    hide Stands, TakeMessage, MessageItems, MessageLength, Length;
    NothingStands(fmt, base, d, p);
    StandsWithin(fmt, base, d, p, StreamItems(ms));
    if ms == [] {
    } else {
      MessageAt(fmt, base, d, p, ms[0], StreamItems(ms[1..]));
      LengthOfMessage(fmt, base + p, ms[0], StreamItems(ms[1..]));
      StreamAt(fmt, base, d, p + MessageLength(fmt, base + p, ms[0]), ms[1..]);
      assert ms == [ms[0]] + ms[1..];
    }
  }

  /**
   * Stream round trip: whatever was in the buffer before and however misaligned each
   * message is by the subject byte of the one before it, messages written back to back
   * read back as they were, and the reader ends exactly where the writer stopped.
   */
  lemma StreamRoundTrip(fmt: Format, s: Sink, ms: seq<Message<Text>>)
    requires AreMessages(ms)
    requires s.good && |s.bytes| <= s.cap
    ensures var t := PutItems(fmt, s, StreamItems(ms));
            t.good ==>
              && s.bytes <= t.bytes
              && TakeMessages(fmt, s.base, t.bytes, |s.bytes|, |ms|) == Read(Some(ms), |t.bytes|)
  {
    hide StreamItems, TakeMessages, PutItems, Stands, Length;
    PutStands(fmt, s, StreamItems(ms));
    var t := PutItems(fmt, s, StreamItems(ms));
    if t.good {
      PutExact(fmt, s, StreamItems(ms));
      StreamAt(fmt, s.base, t.bytes, |s.bytes|, ms);
    }
  }

  lemma {:induction false} TextsAt(fmt: Format, base: nat, d: seq<byte>, p: nat, ts: seq<Text>)
    requires AreTexts(ts) && Stands(fmt, base, d, p, TextsItems(ts))
    ensures p <= |d|
    ensures TakeTexts(fmt, base, d, p, |ts|)
         == Read(Some(ts), p + Length(fmt, base + p, TextsItems(ts)))
    decreases |ts|
  {
    hide Stands, TakeText, TakeWord, TextItems, Length;
    NothingStands(fmt, base, d, p);
    StandsWithin(fmt, base, d, p, TextsItems(ts));
    if ts == [] {
    } else {
      TextAt(fmt, base, d, p, ts[0], TextsItems(ts[1..]));
      TextsAt(fmt, base, d, p + Pad(fmt, base + p) + 4 + |ts[0]| + 1, ts[1..]);
      assert ts == [ts[0]] + ts[1..];
    }
  }

  lemma ContentsAt(fmt: Format, base: nat, d: seq<byte>, p: nat, b: BinaryContents)
    requires Stands(fmt, base, d, p, ContentsItems(b))
    ensures p <= |d|
    ensures TakeContents(fmt, base, d, p)
         == Read(Some(b), p + Length(fmt, base + p, ContentsItems(b)))
  {
    StandsWithin(fmt, base, d, p, ContentsItems(b));
    var p1 := p + Pad(fmt, base + p) + 4;
    if |b| != 0 {
      assert Stands(fmt, base, d, p1, Then(Raw(b), Done));
      assert Length(fmt, base + p1, Then(Raw(b), Done)) == |b|;
    }
  }

  /**
   * Reading an octet sequence accepts exactly what stands there: a legal sequence is read if
   * and only if its layout is at that place, so a length word beyond the bound is refused.
   */
  lemma ContentsReadIff(fmt: Format, base: nat, d: seq<byte>, p: nat, b: BinaryContents)
    requires p <= |d|
    ensures TakeContents(fmt, base, d, p).val == Some(b) <==> Stands(fmt, base, d, p, ContentsItems(b))
    ensures |b| <= 100_000
  {
    if Stands(fmt, base, d, p, ContentsItems(b)) {
      ContentsAt(fmt, base, d, p, b);
    }
    if TakeContents(fmt, base, d, p).val == Some(b) {
      var w := TakeWord(fmt, base, d, p);
      assert w.val == Some(|b|);
      if |b| != 0 {
        assert Stands(fmt, base, d, w.pos, Then(Raw(b), Done));
      }
    }
  }

  /** An array of strings is read back whole from what was written. */
  lemma ArrayRoundTrip(fmt: Format, s: Sink, ts: seq<Text>)
    requires |ts| == 100 && AreTexts(ts)
    requires s.good && |s.bytes| <= s.cap
    ensures var t := PutItems(fmt, s, TextsItems(ts));
            t.good ==>
              && |s.bytes| <= |t.bytes|
              && TakeTexts(fmt, s.base, t.bytes, |s.bytes|, 100) == Read(Some(ts), |t.bytes|)
  {
    hide TextsItems, TakeTexts, PutItems, Stands, Length;
    PutStands(fmt, s, TextsItems(ts));
    var t := PutItems(fmt, s, TextsItems(ts));
    if t.good {
      TextsAt(fmt, s.base, t.bytes, |s.bytes|, ts);
    }
  }

  /** So is a sequence of octets, up to its bound. */
  lemma ContentsRoundTrip(fmt: Format, s: Sink, b: seq<byte>)
    requires |b| <= 100_000
    requires s.good && |s.bytes| <= s.cap
    ensures var t := PutItems(fmt, s, ContentsItems(b));
            t.good ==>
              && |s.bytes| <= |t.bytes|
              && TakeContents(fmt, s.base, t.bytes, |s.bytes|) == Read(Some(b), |t.bytes|)
  {
    hide ContentsItems, TakeContents, PutItems, Stands, Length;
    PutStands(fmt, s, ContentsItems(b));
    var t := PutItems(fmt, s, ContentsItems(b));
    if t.good {
      ContentsAt(fmt, s.base, t.bytes, |s.bytes|, b);
    }
  }

  // ------------------------------------------------------------- locality

  lemma TextLocal(fmt: Format, base: nat, d: seq<byte>, p: nat, k: nat)
    requires p <= k <= |d|
    ensures Local(TakeText(fmt, base, d, p), TakeText(fmt, base, d[..k], p), k)
  {
    TakeWordLocal(fmt, base, d, p, k);
    var w := TakeWord(fmt, base, d, p);
    if w.val.Some? && w.pos <= k {
      TakeRawLocal(d, w.pos, w.val.value, k);
    }
  }

  lemma LongLocal(fmt: Format, base: nat, d: seq<byte>, p: nat, k: nat)
    requires p <= k <= |d|
    ensures Local(TakeLong(fmt, base, d, p), TakeLong(fmt, base, d[..k], p), k)
  {
    TakeWordLocal(fmt, base, d, p, k);
  }

  lemma MessageLocal(fmt: Format, base: nat, d: seq<byte>, p: nat, k: nat)
    requires p <= k <= |d|
    ensures Local(TakeMessage(fmt, base, d, p), TakeMessage(fmt, base, d[..k], p), k)
  {
    hide TakeText, TakeLong, TakeRaw;
    TextLocal(fmt, base, d, p, k);
    var text := TakeText(fmt, base, d, p);
    if text.val.Some? && text.pos <= k {
      LongLocal(fmt, base, d, text.pos, k);
      var count := TakeLong(fmt, base, d, text.pos);
      if count.val.Some? && count.pos <= k {
        LongLocal(fmt, base, d, count.pos, k);
        var sec := TakeLong(fmt, base, d, count.pos);
        if sec.val.Some? && sec.pos <= k {
          LongLocal(fmt, base, d, sec.pos, k);
          var nsec := TakeLong(fmt, base, d, sec.pos);
          if nsec.val.Some? && nsec.pos <= k {
            TakeRawLocal(d, nsec.pos, 1, k);
          }
        }
      }
    }
  }

  lemma {:induction false} TextsLocal(fmt: Format, base: nat, d: seq<byte>, p: nat, n: nat, k: nat)
    requires p <= k <= |d|
    ensures Local(TakeTexts(fmt, base, d, p, n), TakeTexts(fmt, base, d[..k], p, n), k)
    decreases n
  {
    hide TakeText, TakeLong, TakeRaw;
    if n == 0 {
    } else {
      TextLocal(fmt, base, d, p, k);
      var t := TakeText(fmt, base, d, p);
      if t.val.Some? && t.pos <= k {
        TextsLocal(fmt, base, d, t.pos, n - 1, k);
      }
    }
  }

  /** The reader fails on every strict prefix of an encoded message. */
  lemma MessagePrefixFails(fmt: Format, base: nat, d: seq<byte>, p: nat, m: Message<Text>, k: nat)
    requires IsText(m.text) && Stands(fmt, base, d, p, MessageItems(m, Done))
    requires p <= k < p + MessageLength(fmt, base + p, m)
    ensures k <= |d| && TakeMessage(fmt, base, d[..k], p).val.None?
  {
    MessageAt(fmt, base, d, p, m, Done);
    MessageLocal(fmt, base, d, p, k);
  }

  /** So does the array reader, in whichever of the strings the data ends. */
  lemma TextsPrefixFails(fmt: Format, base: nat, d: seq<byte>, p: nat, ts: seq<Text>, k: nat)
    requires AreTexts(ts) && Stands(fmt, base, d, p, TextsItems(ts))
    requires p <= k < p + Length(fmt, base + p, TextsItems(ts))
    ensures k <= |d| && TakeTexts(fmt, base, d[..k], p, |ts|).val.None?
  {
    TextsAt(fmt, base, d, p, ts);
    TextsLocal(fmt, base, d, p, |ts|, k);
  }

  lemma ContentsPrefixFails(fmt: Format, base: nat, d: seq<byte>, p: nat, b: BinaryContents, k: nat)
    requires Stands(fmt, base, d, p, ContentsItems(b))
    requires p <= k < p + Length(fmt, base + p, ContentsItems(b))
    ensures k <= |d| && TakeContents(fmt, base, d[..k], p).val.None?
  {
    ContentsAt(fmt, base, d, p, b);
    TakeWordLocal(fmt, base, d, p, k);
    var w := TakeWord(fmt, base, d, p);
    if w.pos <= k {
      TakeRawLocal(d, w.pos, w.val.value, k);
    }
  }
}
