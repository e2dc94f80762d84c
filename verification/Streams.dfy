/**
 * The stream object: one fixed buffer with a read and a write position. Only the
 * primitives the Messenger types use are modelled; each is proved against the
 * corresponding function of module Cdr.
 */
module Streams {
  import opened Common
  import opened Cdr
  import opened MessengerTypes

  class Serializer {
    const fmt: Format
    /** How far into the stream the buffer starts; alignment counts from the start of the stream. */
    const base: nat
    const block: array<byte>
    var rd: nat
    var wr: nat
    var good: bool

    ghost predicate Valid()
      reads this
    {
      rd <= wr <= block.Length
    }

    /** The stream as written so far. */
    ghost function Out(): Sink
      reads this, block
      requires Valid()
    {
      Sink(block[..wr], base, block.Length, good)
    }

    /** The bytes there are to read. */
    ghost function Data(): seq<byte>
      reads this, block
      requires Valid()
    {
      block[..wr]
    }

    constructor (fmt: Format, base: nat, capacity: nat)
      ensures Valid() && fresh(block) && good && rd == 0
      ensures this.fmt == fmt && Out() == Sink([], base, capacity, true)
    {
      this.fmt, this.base := fmt, base;
      block := new byte[capacity];
      rd, wr, good := 0, 0, true;
    }

    // ------------------------------------------------------------- writing

    method WriteRaw(bytes: seq<byte>) returns (ok: bool)
      requires Valid()
      modifies this, block
      ensures Valid() && rd == old(rd)
      ensures Out() == PutRaw(old(Out()), bytes) && ok == good
    {
      if good && wr + |bytes| <= block.Length {
        forall i | 0 <= i < |bytes| {
          block[wr + i] := bytes[i];
        }
        assert block[..wr + |bytes|] == old(block[..wr]) + bytes;
        wr := wr + |bytes|;
      } else {
        good := false;
      }
      ok := good;
    }

    method WriteULong(x: ULong) returns (ok: bool)
      requires Valid()
      modifies this, block
      ensures Valid() && rd == old(rd)
      ensures Out() == PutItem(fmt, old(Out()), Word(x)) && ok == good
    {
      ok := WriteRaw(Zeros(Pad(fmt, base + wr)));
      ok := WriteRaw(WordBytes(fmt.order, x));
    }

    method WriteText(t: Text) returns (ok: bool)
      requires Valid()
      modifies this, block
      ensures Valid() && rd == old(rd)
      ensures Out() == PutItems(fmt, old(Out()), TextItems(t, Done)) && ok == good
    {
      ghost var s := Out();
      ghost var raw := Then(Raw(t + [NUL]), Done);
      ok := WriteULong((|t| + 1) % 0x1_0000_0000);
      assert PutItems(fmt, s, TextItems(t, Done)) == PutItems(fmt, Out(), raw);
      assert PutItems(fmt, Out(), raw) == PutRaw(Out(), t + [NUL]);
      ok := WriteRaw(t + [NUL]);
    }

    // ------------------------------------------------------------- reading

    /** What a read of `r` does to a stream that stood at `rd0`; a stream that has failed reads nothing. */
    ghost predicate Took<T>(r: Read<T>, good0: bool, rd0: nat, ok: bool, x: Option<T>)
      reads this
    {
      && ok == good
      && if good0 then rd == r.pos && good == r.val.Some? && x == r.val
         else rd == rd0 && !good && x == None
    }

    /** The same for lookups that may fail on a stream that is still good. */
    ghost predicate Gave<T>(r: Read<T>, good0: bool, rd0: nat, x: Option<T>)
      reads this
    {
      if good0 then rd == r.pos && x == r.val && (x.Some? ==> good)
      else rd == rd0 && x == None && !good
    }

    method ReadRaw(n: nat) returns (ok: bool, x: Option<seq<byte>>)
      requires Valid()
      modifies this`rd, this`good
      ensures Valid()
      ensures Took(TakeRaw(Data(), old(rd), n), old(good), old(rd), ok, x)
    {
      x := None;
      if good && rd + n <= wr {
        x := Some(block[rd..rd + n]);
        assert block[rd..rd + n] == block[..wr][rd..rd + n];
        rd := rd + n;
      } else {
        good := false;
      }
      ok := good;
    }

    method ReadULong() returns (ok: bool, x: Option<ULong>)
      requires Valid()
      modifies this`rd, this`good
      ensures Valid()
      ensures Took(TakeWord(fmt, base, Data(), old(rd)), old(good), old(rd), ok, x)
    {
      x := None;
      var at := rd + Pad(fmt, base + rd);
      if good && at + 4 <= wr {
        assert block[at..at + 4] == block[..wr][at..at + 4];
        x := Some(BytesWord(fmt.order, block[at..at + 4]));
        rd := at + 4;
      } else {
        good := false;
      }
      ok := good;
    }

    method ReadLong() returns (ok: bool, x: Option<Long>)
      requires Valid()
      modifies this`rd, this`good
      ensures Valid()
      ensures Took(TakeLong(fmt, base, Data(), old(rd)), old(good), old(rd), ok, x)
    {
      var u;
      ok, u := ReadULong();
      x := if ok then Some(ToLong(u.value)) else None;
    }

    method ReadChar() returns (ok: bool, x: Option<byte>)
      requires Valid()
      modifies this`rd, this`good
      ensures Valid()
      ensures Took(TakeChar(Data(), old(rd)), old(good), old(rd), ok, x)
    {
      var b;
      ok, b := ReadRaw(1);
      x := if ok then Some(b.value[0]) else None;
    }

    method ReadText() returns (ok: bool, x: Option<Text>)
      requires Valid()
      modifies this`rd, this`good
      ensures Valid()
      ensures Took(TakeText(fmt, base, Data(), old(rd)), old(good), old(rd), ok, x)
    {
      x := None;
      var n, b;
      ok, n := ReadULong();
      if !ok {
        return;
      }
      if n.value == 0 {
        x := Some([]);
        return;
      }
      ok, b := ReadRaw(n.value);
      if ok {
        x := Some(CString(b.value[..n.value - 1], NUL));
      }
    }

    /** Passes over `n` units; the count is 16 bits wide. */
    method SkipUnits(n: nat, unit: nat) returns (ok: bool)
      requires Valid() && n < 0x1_0000
      modifies this`rd, this`good
      ensures Valid()
      ensures Took(Skip(fmt, base, Data(), old(rd), n, unit), old(good), old(rd), ok, if ok then Some(()) else None)
    {
      var at := rd + if unit > 1 then Pad(fmt, base + rd) else 0;
      hide Units;
      var span := Units(n, unit);
      if good && at + span <= wr {
        rd := at + span;
      } else {
        good := false;
      }
      ok := good;
    }
  }
}
