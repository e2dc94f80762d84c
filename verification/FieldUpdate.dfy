/** Raw field access, assignment and comparison by field name. */
module FieldUpdate {
  import opened Common
  import opened Cdr
  import opened MessengerTypes
  import opened FieldAccess

  const FIELD_NAMES: seq<string> := ["text", "count", "time_stamp", "subject"]

  datatype Raw = RawText(s: Text) | RawLong(x: Long) | RawTime(t: TimeSpec) | RawChar(c: byte)

  function RawField(m: Message<Text>, field: string): Option<Raw> {
    if field == "text" then Some(RawText(m.text))
    else if field == "count" then Some(RawLong(m.count))
    else if field == "time_stamp" then Some(RawTime(m.timeStamp))
    else if field == "subject" then Some(RawChar(m.subject))
    else None
  }

  /** Comparison of one field; `None` is the exception, which the timestamp raises too. */
  function Compare(l: Message<Text>, r: Message<Text>, field: string): Option<bool> {
    if field == "text" then Some(l.text == r.text)
    else if field == "count" then Some(l.count == r.count)
    else if field == "subject" then Some(l.subject == r.subject)
    else None
  }

  predicate SameKind(a: Raw, b: Raw) {
    a.RawText? == b.RawText? && a.RawLong? == b.RawLong? && a.RawTime? == b.RawTime?
  }

  /** A message held in memory, whose fields are assigned one at a time. */
  class Holder {
    var text: Text
    var count: Long
    var timeStamp: TimeSpec
    var subject: byte

    function Get(): Message<Text>
      reads this
    {
      Message(text, count, timeStamp, subject)
    }

    constructor (m: Message<Text>)
      ensures Get() == m
    {
      text, count, timeStamp, subject := m.text, m.count, m.timeStamp, m.subject;
    }

    /**
     * Assigns a field from a field of another message. The original casts the source to the
     * target's type unchecked, so the two must be of one kind; an unknown name on either
     * side is an exception and changes nothing.
     */
    method Assign(field: string, rhs: Message<Text>, rhsField: string) returns (ok: bool)
      requires RawField(Get(), field).Some? && RawField(rhs, rhsField).Some?
               ==> SameKind(RawField(Get(), field).value, RawField(rhs, rhsField).value)
      modifies this
      ensures ok <==> RawField(old(Get()), field).Some? && RawField(rhs, rhsField).Some?
      ensures !ok ==> Get() == old(Get())
      ensures ok ==> RawField(Get(), field) == RawField(rhs, rhsField)
      ensures forall other :: other != field ==> RawField(Get(), other) == RawField(old(Get()), other)
      ensures field == rhsField == "text" ==> ok && Get() == old(Get()).(text := rhs.text)
      ensures field == rhsField == "count" ==> ok && Get() == old(Get()).(count := rhs.count)
      ensures field == rhsField == "time_stamp" ==> ok && Get() == old(Get()).(timeStamp := rhs.timeStamp)
      ensures field == rhsField == "subject" ==> ok && Get() == old(Get()).(subject := rhs.subject)
    {
      var raw := RawField(rhs, rhsField);
      if field in FIELD_NAMES && raw.None? {
        return false;
      }
      if field == "text" {
        text := raw.value.s;
        return true;
      }
      if field == "count" {
        count := raw.value.x;
        return true;
      }
      if field == "time_stamp" {
        timeStamp := raw.value.t;
        return true;
      }
      if field == "subject" {
        subject := raw.value.c;
        return true;
      }
      return false;
    }
  }

  /** The listed names are those of the raw fields, and messages that agree on them are equal. */
  lemma RawFieldsComplete(l: Message<Text>, r: Message<Text>)
    ensures FIELD_NAMES == ["text", "count", "time_stamp", "subject"]
    ensures forall field :: RawField(l, field).Some? <==> field in FIELD_NAMES
    ensures RawField(l, "text") == Some(RawText(l.text)) && RawField(l, "count") == Some(RawLong(l.count))
    ensures RawField(l, "time_stamp") == Some(RawTime(l.timeStamp))
    ensures RawField(l, "subject") == Some(RawChar(l.subject))
    ensures (forall field :: field in FIELD_NAMES ==> RawField(l, field) == RawField(r, field)) <==> l == r
  {
    assert forall i :: 0 <= i < 4 ==> FIELD_NAMES[i] in FIELD_NAMES;
    assert FIELD_NAMES[0] == "text" && FIELD_NAMES[1] == "count";
    assert FIELD_NAMES[2] == "time_stamp" && FIELD_NAMES[3] == "subject";
  }

  /**
   * Comparison by name agrees with the in-memory lookup wherever it is defined. Of the listed
   * names it fails on exactly one, the timestamp, whose parts only the lookup can reach.
   */
  lemma CompareIff(l: Message<Text>, r: Message<Text>, field: string)
    ensures Compare(l, r, field).Some? ==>
              (Compare(l, r, field).value <==> FieldValue(l, field) == FieldValue(r, field))
    ensures field in FIELD_NAMES ==> (Compare(l, r, field).None? <==> field == "time_stamp")
    ensures FieldValue(l, field).Some? && Compare(l, r, field).None? <==>
              field == "time_stamp.tv_sec" || field == "time_stamp.tv_nsec"
  {
    if TIME_PREFIX <= field {
      assert field == TIME_PREFIX + field[|TIME_PREFIX|..];
    }
    assert "time_stamp.tv_sec"[|TIME_PREFIX|..] == "tv_sec";
    assert "time_stamp.tv_nsec"[|TIME_PREFIX|..] == "tv_nsec";
  }
}
