/**
 * The byte format shared by the writer, the reader, the size predictor and the
 * skipper: OMG CDR (CORBA 3.0, sections 15.3.1.1, 15.3.2.5 and 15.3.2.7),
 * restricted to four-byte words and runs of single bytes, which is all that
 * the Messenger types use.
 *
 * A value is laid out as a list of items. Words are aligned to four bytes
 * counted from the start of the stream; runs of bytes are not aligned.
 */
module Cdr {
  import opened Common

  newtype byte = x: int | 0 <= x < 256

  type ULong = x: int | 0 <= x < 0x1_0000_0000
  type Long = x: int | -0x8000_0000 <= x < 0x8000_0000

  datatype ByteOrder = BigEndian | LittleEndian

  /** `aligned` selects padded CDR; without it no padding is ever produced. */
  datatype Format = Format(aligned: bool, order: ByteOrder)

  datatype Item = Word(x: ULong) | Raw(bytes: seq<byte>)

  /** What is laid out, front to back. A value's layout is given in front of what follows it. */
  datatype Items = Done | Then(item: Item, rest: Items)

  /** The outcome of taking a value off a stream: `None` is a failure, `pos` is where the stream stands. */
  datatype Read<+T> = Read(val: Option<T>, pos: nat) {
    predicate IsFailure() {
      val.None?
    }

    function PropagateFailure<U>(): Read<U>
      requires IsFailure()
    {
      Read(None, pos)
    }

    function Extract(): (T, nat)
      requires !IsFailure()
    {
      (val.value, pos)
    }
  }

  // ----------------------------------------------------------------- words

  /** A signed word is carried as its two's complement bit pattern. */
  function LongBits(x: Long): ULong {
    if x < 0 then x + 0x1_0000_0000 else x
  }

  /** Reinterpretation of a bit pattern, and truncation of a wider integer, to 32 signed bits. */
  function ToLong(x: int): Long {
    var u := x % 0x1_0000_0000;
    if u < 0x8000_0000 then u else u - 0x1_0000_0000
  }

  lemma LongRoundTrip(x: Long)
    ensures ToLong(LongBits(x)) == x && ToLong(x) == x
  {
  }

  function WordBytes(order: ByteOrder, x: ULong): (b: seq<byte>)
    ensures |b| == 4
  {
    var b3 := (x / 0x100_0000) as byte;
    var b2 := (x / 0x1_0000 % 0x100) as byte;
    var b1 := (x / 0x100 % 0x100) as byte;
    var b0 := (x % 0x100) as byte;
    match order
    case BigEndian => [b3, b2, b1, b0]
    case LittleEndian => [b0, b1, b2, b3]
  }

  function BytesWord(order: ByteOrder, b: seq<byte>): ULong
    requires |b| == 4
  {
    var n := (w: byte, x: byte, y: byte, z: byte) =>
      w as int * 0x100_0000 + x as int * 0x1_0000 + y as int * 0x100 + z as int;
    match order
    case BigEndian => n(b[0], b[1], b[2], b[3])
    case LittleEndian => n(b[3], b[2], b[1], b[0])
  }

  lemma WordRoundTrip(order: ByteOrder, x: ULong)
    ensures BytesWord(order, WordBytes(order, x)) == x
  {
    assert x / 0x1_0000 == x / 0x100_0000 * 0x100 + x / 0x1_0000 % 0x100;
    assert x / 0x100 == x / 0x1_0000 * 0x100 + x / 0x100 % 0x100;
  }

  /** The value of bytes as digits to the base 256, the most significant first. */
  function Digits(b: seq<byte>): nat {
    if b == [] then 0 else Digits(b[..|b| - 1]) * 0x100 + b[|b| - 1] as nat
  }

  /**
   * What the bytes of a word mean: in big-endian order they are its digits to the base 256,
   * which leaves no choice, and in little-endian order the same bytes reversed.
   */
  lemma ByteOrders(x: ULong)
    ensures Digits(WordBytes(BigEndian, x)) == x
    ensures forall b: seq<byte> :: |b| == 4 && Digits(b) == x ==> b == WordBytes(BigEndian, x)
    ensures forall i :: 0 <= i < 4 ==> WordBytes(LittleEndian, x)[i] == WordBytes(BigEndian, x)[3 - i]
  {
    forall b: seq<byte> | |b| == 4
      ensures Digits(b) == BytesWord(BigEndian, b)
    {
      DigitsOfFour(b);
    }
    WordRoundTrip(BigEndian, x);
    forall b: seq<byte> | |b| == 4 && Digits(b) == x
      ensures b == WordBytes(BigEndian, x)
    {
      DigitsOfFour(b);
      assert b[0] as int == x / 0x100_0000;
      assert b[1] as int == x / 0x1_0000 % 0x100;
      assert b[2] as int == x / 0x100 % 0x100;
    }
  }

  lemma DigitsOfFour(b: seq<byte>)
    requires |b| == 4
    ensures Digits(b) == BytesWord(BigEndian, b)
  {
    assert b[..3][..2] == b[..2] && b[..2][..1] == b[..1] && b[..1][..0] == [];
    assert Digits(b[..1]) == b[0] as nat;
    assert Digits(b[..2]) == Digits(b[..1]) * 0x100 + b[1] as nat;
    assert Digits(b[..3]) == Digits(b[..2]) * 0x100 + b[2] as nat;
  }

  // ------------------------------------------------------------ the layout

  /** Padding in front of a word that would start `off` bytes into the stream. */
  function Pad(fmt: Format, off: nat): (p: nat)
    ensures fmt.aligned ==> p < 4 && (off + p) % 4 == 0
    ensures !fmt.aligned ==> p == 0
  {
    if fmt.aligned && off % 4 != 0 then 4 - off % 4 else 0
  }

  function Zeros(n: nat): (z: seq<byte>)
    ensures |z| == n
  {
    seq(n, _ => 0)
  }

  function EncodeItem(fmt: Format, off: nat, it: Item): seq<byte> {
    match it
    case Word(x) => Zeros(Pad(fmt, off)) + WordBytes(fmt.order, x)
    case Raw(bytes) => bytes
  }

  /** The bytes of a list of items whose first byte is `off` bytes into the stream. */
  function Encode(fmt: Format, off: nat, items: Items): seq<byte>
    decreases items
  {
    match items
    case Done => []
    case Then(it, rest) =>
      var e := EncodeItem(fmt, off, it);
      e + Encode(fmt, off + |e|, rest)
  }

  // -------------------------------------------------------- size prediction

  /** Content and padding, counted apart. */
  datatype Extent = Extent(size: nat, padding: nat)

  function Grow(e: Extent, it: Item): Extent {
    match it
    case Word(_) =>
      var p := (e.size + e.padding) % 4;
      Extent(e.size + 4, e.padding + if p != 0 then 4 - p else 0)
    case Raw(bytes) => Extent(e.size + |bytes|, e.padding)
  }

  function Measure(e: Extent, items: Items): Extent
    decreases items
  {
    match items
    case Done => e
    case Then(it, rest) => Measure(Grow(e, it), rest)
  }

  /** What the predictor promises of an extent `e` grown to `r`. */
  ghost predicate Predicts(e: Extent, items: Items, r: Extent) {
    forall order, off: nat ::
      && r.size - e.size == |Encode(Format(false, order), off, items)|
      && r.size + r.padding - (e.size + e.padding)
         == |Encode(Format(true, order), e.size + e.padding, items)|
  }

  /**
   * The growth of `size` is the unaligned length, wherever the value starts, and the
   * growth of `size + padding` is the aligned length at that start offset.
   */
  lemma MeasureExact(e: Extent, items: Items)
    ensures Predicts(e, items, Measure(e, items))
  {
    forall order, off: nat {
      MeasureExactFor(e, items, order, off);
    }
  }

  lemma {:induction false} MeasureExactFor(e: Extent, items: Items, order: ByteOrder, off: nat)
    ensures Measure(e, items).size - e.size == |Encode(Format(false, order), off, items)|
    ensures Measure(e, items).size + Measure(e, items).padding - (e.size + e.padding)
         == |Encode(Format(true, order), e.size + e.padding, items)|
    decreases items
  {
    if items.Then? {
      var g := Grow(e, items.item);
      var plain := EncodeItem(Format(false, order), off, items.item);
      var padded := EncodeItem(Format(true, order), e.size + e.padding, items.item);
      assert g.size == e.size + |plain|;
      assert g.size + g.padding == e.size + e.padding + |padded|;
      MeasureExactFor(g, items.rest, order, off + |plain|);
    }
  }

  // ----------------------------------------------------------- writing side

  /**
   * A bounded output stream. `base` is how far into the stream the buffer starts;
   * `good` is cleared by the first write that does not fit, and stays cleared.
   */
  datatype Sink = Sink(bytes: seq<byte>, base: nat, cap: nat, good: bool)

  function PutRaw(s: Sink, bytes: seq<byte>): Sink {
    if s.good && |s.bytes| + |bytes| <= s.cap
    then s.(bytes := s.bytes + bytes)
    else s.(good := false)
  }

  function PutItem(fmt: Format, s: Sink, it: Item): Sink {
    match it
    case Word(x) =>
      var aligned := PutRaw(s, Zeros(Pad(fmt, s.base + |s.bytes|)));
      PutRaw(aligned, WordBytes(fmt.order, x))
    case Raw(bytes) => PutRaw(s, bytes)
  }

  function PutItems(fmt: Format, s: Sink, items: Items): Sink
    decreases items
  {
    if items.Done? then s else PutItems(fmt, PutItem(fmt, s, items.item), items.rest)
  }

  /** A stream that has failed ignores everything that follows. */
  lemma {:induction false} PutAfterFailure(fmt: Format, s: Sink, items: Items)
    requires !s.good
    ensures PutItems(fmt, s, items) == s
  {
    if items.Then? {
      assert PutItem(fmt, s, items.item) == s;
      PutAfterFailure(fmt, s, items.rest);
    }
  }

  /** The full meaning of writing items, `r` being the stream afterwards. */
  ghost predicate Writes(fmt: Format, s: Sink, items: Items, r: Sink) {
    var e := Encode(fmt, s.base + |s.bytes|, items);
    && r.base == s.base && r.cap == s.cap
    && (r.good <==> |s.bytes| + |e| <= s.cap)
    && s.bytes <= r.bytes <= s.bytes + e
    && if r.good then r.bytes == s.bytes + e else |r.bytes| <= s.cap
  }

  /**
   * Writing succeeds exactly when the whole encoding fits, in whichever item the
   * room runs out; then exactly the encoding is appended, and on failure only
   * a proper prefix of it has been.
   */
  lemma {:induction false} PutExact(fmt: Format, s: Sink, items: Items)
    requires s.good && |s.bytes| <= s.cap
    ensures Writes(fmt, s, items, PutItems(fmt, s, items))
    decreases items
  {
    if items.Done? {
      assert s.bytes + [] == s.bytes;
    } else {
      var t := PutItem(fmt, s, items.item);
      PutStep(fmt, s, items);
      hide PutItems, PutItem, Encode, EncodeItem;
      if t.good {
        PutExact(fmt, t, items.rest);
      } else {
        PutAfterFailure(fmt, t, items.rest);
      }
    }
  }

  /** One item written: what it does to the stream, and how the two encodings are related. */
  lemma PutStep(fmt: Format, s: Sink, items: Items)
    requires s.good && |s.bytes| <= s.cap && items.Then?
    ensures var t := PutItem(fmt, s, items.item);
            var whole := Encode(fmt, s.base + |s.bytes|, items);
            var e := EncodeItem(fmt, s.base + |s.bytes|, items.item);
            && PutItems(fmt, s, items) == PutItems(fmt, t, items.rest)
            && t.base == s.base && t.cap == s.cap
            && |e| <= |whole| && (t.good <==> |s.bytes| + |e| <= s.cap)
            && s.bytes <= t.bytes <= s.bytes + whole && |t.bytes| <= t.cap
            && (t.good ==>
                 && |t.bytes| == |s.bytes| + |e|
                 && s.bytes + whole == t.bytes + Encode(fmt, t.base + |t.bytes|, items.rest))
  {
    PutItemExact(fmt, s, items.item);
    var e := EncodeItem(fmt, s.base + |s.bytes|, items.item);
    AppendTwo(s.bytes, e, Encode(fmt, s.base + |s.bytes| + |e|, items.rest));
    hide PutItem, EncodeItem;
  }

  lemma AppendTwo(a: seq<byte>, e: seq<byte>, f: seq<byte>)
    ensures a + (e + f) == (a + e) + f
    ensures a + e <= a + (e + f)
  {
  }

  lemma PutItemExact(fmt: Format, s: Sink, it: Item)
    requires s.good && |s.bytes| <= s.cap
    ensures var t := PutItem(fmt, s, it); var e := EncodeItem(fmt, s.base + |s.bytes|, it);
            && t.base == s.base && t.cap == s.cap
            && (t.good <==> |s.bytes| + |e| <= s.cap)
            && s.bytes <= t.bytes <= s.bytes + e && |t.bytes| <= t.cap
            && (t.good ==> t.bytes == s.bytes + e)
  {
    if it.Word? {
      var z := Zeros(Pad(fmt, s.base + |s.bytes|));
      var w := WordBytes(fmt.order, it.x);
      assert s.bytes + z + w == s.bytes + (z + w);
    }
  }

  /** The number of bytes the predictor announces for items written at stream offset `off`. */
  function Announced(fmt: Format, off: nat, items: Items): int {
    var start := Extent(off, 0);
    var r := Measure(start, items);
    if fmt.aligned then r.size + r.padding - off else r.size - off
  }

  /** A write succeeds exactly when the room left is at least what the predictor announces. */
  lemma PutSucceedsIff(fmt: Format, s: Sink, items: Items)
    requires s.good && |s.bytes| <= s.cap
    ensures PutItems(fmt, s, items).good
       <==> Announced(fmt, s.base + |s.bytes|, items) <= s.cap - |s.bytes|
  {
    var off := s.base + |s.bytes|;
    PutExact(fmt, s, items);
    MeasureExactFor(Extent(off, 0), items, fmt.order, off);
    assert fmt == Format(fmt.aligned, fmt.order);
  }

  // ----------------------------------------------------------- reading side

  function TakeRaw(d: seq<byte>, p: nat, n: nat): (r: Read<seq<byte>>)
    requires p <= |d|
    ensures p <= r.pos <= |d|
  {
    if p + n <= |d| then Read(Some(d[p..p + n]), p + n) else Read(None, p)
  }

  /** Skips `n` units of `unit` bytes; units wider than a byte are aligned first. */
  function Skip(fmt: Format, base: nat, d: seq<byte>, p: nat, n: nat, unit: nat): (r: Read<()>)
    requires p <= |d|
    ensures p <= r.pos <= |d|
  {
    var q := p + if unit > 1 then Pad(fmt, base + p) else 0;
    if q + Units(n, unit) <= |d| then Read(Some(()), q + Units(n, unit)) else Read(None, p)
  }

  function Units(n: nat, unit: nat): nat {
    n * unit
  }

  function TakeWord(fmt: Format, base: nat, d: seq<byte>, p: nat): (r: Read<ULong>)
    requires p <= |d|
    ensures p <= r.pos <= |d|
  {
    var q := p + Pad(fmt, base + p);
    if q + 4 <= |d| then Read(Some(BytesWord(fmt.order, d[q..q + 4])), q + 4) else Read(None, p)
  }

  /** The length of a layout that starts `off` bytes into the stream. */
  function Length(fmt: Format, off: nat, items: Items): nat
    decreases items
  {
    match items
    case Done => 0
    case Then(Word(_), rest) => Pad(fmt, off) + 4 + Length(fmt, off + Pad(fmt, off) + 4, rest)
    case Then(Raw(bytes), rest) => |bytes| + Length(fmt, off + |bytes|, rest)
  }

  /** The items stand at position `p` of the data `d`, whose first byte is `base` bytes into the stream. */
  ghost predicate Stands(fmt: Format, base: nat, d: seq<byte>, p: nat, items: Items)
    decreases items
  {
    match items
    case Done => p <= |d|
    case Then(Word(x), rest) =>
      var q := p + Pad(fmt, base + p);
      && q + 4 <= |d|
      && BytesWord(fmt.order, d[q..q + 4]) == x
      && Stands(fmt, base, d, q + 4, rest)
    case Then(Raw(bytes), rest) =>
      && p + |bytes| <= |d|
      && d[p..p + |bytes|] == bytes
      && Stands(fmt, base, d, p + |bytes|, rest)
  }

  lemma {:induction false} EncodedLength(fmt: Format, off: nat, items: Items)
    ensures |Encode(fmt, off, items)| == Length(fmt, off, items)
    decreases items
  {
    if items.Then? {
      EncodedLength(fmt, off + |EncodeItem(fmt, off, items.item)|, items.rest);
    }
  }

  /** An encoding found at `p` in the data is the items standing there. */
  lemma {:induction false} EncodingStands(fmt: Format, base: nat, d: seq<byte>, p: nat, items: Items)
    requires p <= |d| && Encode(fmt, base + p, items) <= d[p..]
    ensures Stands(fmt, base, d, p, items)
    decreases items
  {
    match items
    case Done =>
    case Then(it, rest) =>
      var e := EncodeItem(fmt, base + p, it);
      PrefixSplit(d, p, e, Encode(fmt, base + p + |e|, rest));
      EncodingStands(fmt, base, d, p + |e|, rest);
      StandsItem(fmt, base, d, p, it, rest);
  }

  lemma StandsItem(fmt: Format, base: nat, d: seq<byte>, p: nat, it: Item, rest: Items)
    requires var e := EncodeItem(fmt, base + p, it);
             && p + |e| <= |d| && d[p..p + |e|] == e
             && Stands(fmt, base, d, p + |e|, rest)
    ensures Stands(fmt, base, d, p, Then(it, rest))
  {
    hide WordBytes, BytesWord, Pad, Zeros;
    if it.Word? {
      WordStands(fmt, base, d, p, it.x);
    }
  }

  lemma PrefixSplit(d: seq<byte>, p: nat, e: seq<byte>, f: seq<byte>)
    requires p <= |d| && e + f <= d[p..]
    ensures p + |e| <= |d| && d[p..p + |e|] == e && f <= d[p + |e|..]
  {
    assert d[p..p + |e|] == (e + f)[..|e|];
    assert d[p + |e|..][..|f|] == d[p..][..|e + f|][|e|..] == f;
  }

  lemma WordStands(fmt: Format, base: nat, d: seq<byte>, p: nat, x: ULong)
    requires var e := EncodeItem(fmt, base + p, Word(x)); p + |e| <= |d| && d[p..p + |e|] == e
    ensures var q := p + Pad(fmt, base + p); BytesWord(fmt.order, d[q..q + 4]) == x
  {
    var z := Pad(fmt, base + p);
    assert d[p + z..p + z + 4] == d[p..p + z + 4][z..] == WordBytes(fmt.order, x);
    WordRoundTrip(fmt.order, x);
  }

  lemma {:induction false} StandsWithin(fmt: Format, base: nat, d: seq<byte>, p: nat, items: Items)
    requires Stands(fmt, base, d, p, items)
    ensures p + Length(fmt, base + p, items) <= |d|
    decreases items
  {
    hide Pad, BytesWord;
    match items
    case Done =>
    case Then(Word(x), rest) => StandsWithin(fmt, base, d, p + Pad(fmt, base + p) + 4, rest);
    case Then(Raw(bytes), rest) => StandsWithin(fmt, base, d, p + |bytes|, rest);
  }

  /** After a successful write the items stand where the stream was, and end where it is. */
  lemma PutStands(fmt: Format, s: Sink, items: Items)
    requires s.good && |s.bytes| <= s.cap
    ensures var t := PutItems(fmt, s, items);
            t.good ==>
              && |t.bytes| == |s.bytes| + Length(fmt, s.base + |s.bytes|, items)
              && Stands(fmt, s.base, t.bytes, |s.bytes|, items)
  {
    hide PutItems, Encode, Stands, Length;
    PutExact(fmt, s, items);
    var t := PutItems(fmt, s, items);
    if t.good {
      assert t.bytes[|s.bytes|..] == Encode(fmt, s.base + |s.bytes|, items);
      EncodedLength(fmt, s.base + |s.bytes|, items);
      EncodingStands(fmt, s.base, t.bytes, |s.bytes|, items);
    }
  }

  lemma NothingStands(fmt: Format, base: nat, d: seq<byte>, p: nat)
    ensures Length(fmt, base + p, Done) == 0
    ensures Stands(fmt, base, d, p, Done) <==> p <= |d|
  {
  }

  /** A word standing at `p` is what is read there, and skipping it ends in the same place. */
  lemma WordAt(fmt: Format, base: nat, d: seq<byte>, p: nat, x: ULong, rest: Items)
    requires Stands(fmt, base, d, p, Then(Word(x), rest))
    ensures var q := p + Pad(fmt, base + p) + 4;
            && q <= |d|
            && TakeWord(fmt, base, d, p) == Read(Some(x), q)
            && Skip(fmt, base, d, p, 1, 4) == Read(Some(()), q)
            && Stands(fmt, base, d, q, rest)
            && Length(fmt, base + p, Then(Word(x), rest)) == q - p + Length(fmt, base + q, rest)
  {
  }

  lemma RawAt(fmt: Format, base: nat, d: seq<byte>, p: nat, bytes: seq<byte>, rest: Items)
    requires Stands(fmt, base, d, p, Then(Raw(bytes), rest))
    ensures var q := p + |bytes|;
            && q <= |d|
            && d[p..q] == bytes
            && TakeRaw(d, p, |bytes|) == Read(Some(bytes), q)
            && Skip(fmt, base, d, p, |bytes|, 1) == Read(Some(()), q)
            && Stands(fmt, base, d, q, rest)
            && Length(fmt, base + p, Then(Raw(bytes), rest)) == |bytes| + Length(fmt, base + q, rest)
  {
  }

  /**
   * Reads are local: cutting the data at `k` changes nothing when the read stayed
   * below `k`, and makes it fail otherwise.
   */
  ghost predicate Local<T>(full: Read<T>, cut: Read<T>, k: nat) {
    full.val.Some? ==> if full.pos <= k then cut == full else cut.val.None?
  }

  lemma TakeWordLocal(fmt: Format, base: nat, d: seq<byte>, p: nat, k: nat)
    requires p <= k <= |d|
    ensures Local(TakeWord(fmt, base, d, p), TakeWord(fmt, base, d[..k], p), k)
  {
    var q := p + Pad(fmt, base + p);
    if q + 4 <= k {
      assert d[..k][q..q + 4] == d[q..q + 4];
    }
  }

  lemma TakeRawLocal(d: seq<byte>, p: nat, n: nat, k: nat)
    requires p <= k <= |d|
    ensures Local(TakeRaw(d, p, n), TakeRaw(d[..k], p, n), k)
  {
    if p + n <= k {
      assert d[..k][p..p + n] == d[p..p + n];
    }
  }
}
