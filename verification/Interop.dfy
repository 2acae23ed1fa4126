/** Two schema versions reading each other's bytes. A program built with the older schema keeps what it
    does not know as unknown records and writes it back after the fields it knows; because a newer
    schema only adds larger field numbers, nothing is lost or moved. */
module Interop {
  import opened Wire
  import opened Schema
  import opened Message
  import opened Codec
  import opened MergeLaws

  /** A message as the older schema `o` sees it: the fields beyond its own become unknown records, in
      front of the ones that were unknown already, at every level of nesting. */
  function Down(o: Schema, m: Msg): Msg
    decreases m
  {
    var k := |o.cases(m.n)|;
    if k <= |m.fields| then
      Msg(m.n, seq(k, i requires 0 <= i < k => DownValue(o, m.fields[i])), RecordsFrom(m, k))
    else m
  }

  function DownValue(o: Schema, x: Value): Value
    decreases x
  {
    match x
    case VOne(p) => if p.Some? then VOne(Some(Down(o, p.value))) else x
    case VMany(ms) => VMany(seq(|ms|, i requires 0 <= i < |ms| => Down(o, ms[i])))
    case _ => x
  }

  lemma {:induction false} DownFieldRecords(o: Schema, number: nat, x: Value)
    ensures FieldRecords(number, DownValue(o, x)) == FieldRecords(number, x)
    decreases x
  {
    match x
    case VOne(p) => if p.Some? { DownSerialize(o, p.value); }
    case VMany(ms) =>
      var ns := DownValue(o, x).ms;
      ManyRecordsAt(number, ms);
      ManyRecordsAt(number, ns);
      forall i | 0 <= i < |ms| ensures Serialize(ns[i]) == Serialize(ms[i]) {
        DownSerialize(o, ms[i]);
      }
      assert ManyRecords(number, ns) == ManyRecords(number, ms);
    case _ =>
  }

  lemma {:induction false} DownRecords(o: Schema, m: Msg, i: nat)
    requires i <= |o.cases(m.n)| <= |m.fields|
    ensures RecordsFrom(Down(o, m), i) == RecordsFrom(m, i)
    decreases m, 0, |m.fields| - i
  {
    if i < |o.cases(m.n)| {
      DownFieldRecords(o, i + 1, m.fields[i]);
      DownRecords(o, m, i + 1);
    }
  }

  /** The older view of a message is written as the same bytes. */
  lemma {:induction false} DownSerialize(o: Schema, m: Msg)
    ensures Serialize(Down(o, m)) == Serialize(m)
    decreases m, 1
  {
    if |o.cases(m.n)| <= |m.fields| {
      DownRecords(o, m, 0);
    }
  }

  lemma FieldRecordNumbers(number: nat, x: Value)
    ensures forall j :: 0 <= j < |FieldRecords(number, x)| ==> FieldRecords(number, x)[j].number == number
  {
    if x.VMany? { ManyRecordsAt(number, x.ms); }
  }

  lemma UnknownToOlder(s: Schema, o: Schema, n: MsgName, rs: seq<Record>)
    requires Extends(s, o) && UnknownOk(s, n, rs)
    ensures UnknownOk(o, n, rs)
  {
    assert o.cases(n) <= s.cases(n);
    forall j | 0 <= j < |rs| ensures !o.Matches(n, TagOf(rs[j])) {
      assert !s.Matches(n, TagOf(rs[j]));
    }
  }

  lemma AddedField(s: Schema, o: Schema, n: MsgName, i: nat, x: Value)
    requires s.Ok() && |o.cases(n)| <= i < |s.cases(n)|
    requires |EncodeRecords(FieldRecords(i + 1, x))| <= MAX_SIZE
    ensures UnknownOk(o, n, FieldRecords(i + 1, x))
  {
    hide FieldRecords, EncodeRecords;
    var rs := FieldRecords(i + 1, x);
    FieldRecordsOk(s, n, i, x);
    FieldRecordNumbers(i + 1, x);
    forall j | 0 <= j < |rs| ensures !o.Matches(n, TagOf(rs[j])) {
      TagNumber(rs[j]);
    }
  }

  /** What lies beyond the older schema's cases is unknown to it. */
  lemma {:induction false} TailUnknown(s: Schema, o: Schema, m: Msg, i: nat)
    requires s.Ok() && |m.fields| == |s.cases(m.n)| && UnknownOk(o, m.n, m.unknown)
    requires |o.cases(m.n)| <= i <= |m.fields| && |Serialize(m)| <= MAX_SIZE
    ensures UnknownOk(o, m.n, RecordsFrom(m, i))
    decreases |m.fields| - i
  {
    if i >= |m.fields| {
    } else {
      FieldSize(m, i);
      AddedField(s, o, m.n, i, m.fields[i]);
      TailUnknown(s, o, m, i + 1);
      UnknownAppend(o, m.n, FieldRecords(i + 1, m.fields[i]), RecordsFrom(m, i + 1));
    }
  }

  lemma UnknownAppend(o: Schema, n: MsgName, a: seq<Record>, b: seq<Record>)
    requires UnknownOk(o, n, a) && UnknownOk(o, n, b)
    ensures UnknownOk(o, n, a + b)
  {
  }

  lemma {:induction false} DownValueKind(s: Schema, o: Schema, k: Kind, x: Value, number: nat)
    requires s.Ok() && o.Ok() && Extends(s, o) && FitsKind(s, k, x)
    requires |EncodeRecords(FieldRecords(number, x))| <= MAX_SIZE
    ensures FitsKind(o, k, DownValue(o, x))
    decreases x
  {
    var rs := FieldRecords(number, x);
    match x
    case VOne(p) =>
      if p.Some? {
        EncodedPayloadSize(rs, 0);
        DownGood(s, o, p.value);
      }
    case VMany(ms) =>
      ManyRecordsAt(number, ms);
      forall i | 0 <= i < |ms| ensures Good(o, Down(o, ms[i])) && Down(o, ms[i]).n == ms[i].n {
        EncodedPayloadSize(rs, i);
        DownGood(s, o, ms[i]);
      }
    case _ =>
  }

  /** The older view is a well-formed message of the older schema. */
  lemma {:induction false} DownGood(s: Schema, o: Schema, m: Msg)
    requires s.Ok() && o.Ok() && Extends(s, o) && Good(s, m) && |Serialize(m)| <= MAX_SIZE
    ensures Good(o, Down(o, m)) && Down(o, m).n == m.n
    decreases m
  {
    var k := |o.cases(m.n)|;
    assert o.cases(m.n) <= s.cases(m.n);
    forall i | 0 <= i < k ensures FitsKind(o, o.cases(m.n)[i].kind, DownValue(o, m.fields[i])) {
      FieldSize(m, i);
      DownValueKind(s, o, s.cases(m.n)[i].kind, m.fields[i], i + 1);
    }
    UnknownToOlder(s, o, m.n, m.unknown);
    TailUnknown(s, o, m, k);
  }

  lemma {:induction false} DownValueUtf8(o: Schema, x: Value)
    requires Utf8OkValue(x)
    ensures Utf8OkValue(DownValue(o, x))
    decreases x
  {
    match x
    case VOne(p) => if p.Some? { DownUtf8(o, p.value); }
    case VMany(ms) =>
      forall i | 0 <= i < |ms| ensures Utf8Ok(Down(o, ms[i])) {
        DownUtf8(o, ms[i]);
      }
    case _ =>
  }

  lemma {:induction false} DownUtf8(o: Schema, m: Msg)
    requires Utf8Ok(m)
    ensures Utf8Ok(Down(o, m))
    decreases m
  {
    if |o.cases(m.n)| <= |m.fields| {
      forall i | 0 <= i < |o.cases(m.n)| ensures Utf8OkValue(DownValue(o, m.fields[i])) {
        DownValueUtf8(o, m.fields[i]);
      }
    }
  }

  /** Reading a newer message with the older schema succeeds exactly when the strings that the older
      schema knows are valid; writing it back then gives the very bytes that were read, unknown
      records of the newer message included. */
  lemma PassThrough(s: Schema, o: Schema, m: Msg)
    requires s.Ok() && o.Ok() && Extends(s, o) && Good(s, m) && |Serialize(m)| <= MAX_SIZE
    ensures var r := Parse(o, Default(o, m.n), Serialize(m));
            && r.Some? == Utf8Ok(Down(o, m))
            && (r.Some? ==> r.value == Normal(Down(o, m)) && Serialize(r.value) == Serialize(m))
    ensures Utf8Ok(m) ==> Utf8Ok(Down(o, m))
  {
    DownGood(s, o, m);
    DownSerialize(o, m);
    RoundTrip(o, Down(o, m));
    SerializeIgnoresZeroSigns(Down(o, m));
    if Utf8Ok(m) { DownUtf8(o, m); }
  }

  /** A message that passes through a program built with the older schema and back is the copy that
      CopyFrom would have made. */
  lemma ThereAndBack(s: Schema, o: Schema, m: Msg)
    requires s.Ok() && o.Ok() && Extends(s, o) && Good(s, m) && Utf8Ok(m) && |Serialize(m)| <= MAX_SIZE
    ensures Parse(o, Default(o, m.n), Serialize(m)).Some?
    ensures var middle := Parse(o, Default(o, m.n), Serialize(m)).value;
            Parse(s, Default(s, m.n), Serialize(middle)) == Some(Copy(s, m))
  {
    PassThrough(s, o, m);
    RoundTrip(s, m);
    CopyIsNormal(s, m);
  }

  /** The two schemas of the repository, for every message they share. */
  lemma LabelPassThrough(m: Msg)
    requires Good(NewSchema(), m) && Utf8Ok(m) && |Serialize(m)| <= MAX_SIZE
    ensures var r := Parse(OldSchema(), Default(OldSchema(), m.n), Serialize(m));
            r.Some? && Serialize(r.value) == Serialize(m)
  {
    NewSchemaOk();
    OldSchemaOk();
    NewExtendsOld();
    PassThrough(NewSchema(), OldSchema(), m);
  }
}
