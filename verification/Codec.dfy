/** Facts about parsing and serializing that hold for every schema: parsing keeps messages
    well-formed, parsing bytes is folding over records, and parsing what was serialized merges. */
module Codec {
  import opened Wire
  import opened Schema
  import opened Message
  import Utf8

  // ---------------------------------------------------------------- well-formedness is kept

  lemma DefaultGood(s: Schema, n: MsgName)
    ensures Good(s, Default(s, n)) && Utf8Ok(Default(s, n))
  {
  }

  lemma TagNumber(r: Record)
    requires RecordOk(r)
    ensures TagOf(r) / 8 == r.number && TagOf(r) % 8 == WireType(r.payload)
  {
    TagParts(r);
  }

  /** Whatever a parse accepts leaves a well-formed message well-formed. */
  lemma {:induction false} ParseKeepsGood(s: Schema, m: Msg, b: Bytes)
    requires Good(s, m)
    ensures Parse(s, m, b).Some? ==> Good(s, Parse(s, m, b).value) && Parse(s, m, b).value.n == m.n
    decreases |b|, 0
  {
    if b != [] && ReadRecord(b).Some? {
      var p := ReadRecord(b).value;
      ApplyKeepsGood(s, m, p.0);
      if Apply(s, m, p.0).Some? {
        ParseKeepsGood(s, Apply(s, m, p.0).value, b[p.1..]);
      }
    }
  }

  lemma {:induction false} ApplyValueKeepsKind(s: Schema, k: Kind, x: Value, p: Payload)
    requires FitsKind(s, k, x)
    ensures ApplyValue(s, k, x, p).Some? ==> FitsKind(s, k, ApplyValue(s, k, x, p).value)
    decreases PayloadSize(p), 1
  {
    if p.Delimited? {
      match k
      case One(n) =>
        DefaultGood(s, n);
        ParseKeepsGood(s, if x.o.Some? then x.o.value else Default(s, n), p.b);
      case Many(n) =>
        DefaultGood(s, n);
        ParseKeepsGood(s, Default(s, n), p.b);
      case _ =>
    }
  }

  lemma {:induction false} ApplyKeepsGood(s: Schema, m: Msg, r: Record)
    requires Good(s, m) && RecordOk(r)
    ensures Apply(s, m, r).Some? ==> Good(s, Apply(s, m, r).value) && Apply(s, m, r).value.n == m.n
    decreases PayloadSize(r.payload), 2
  {
    if s.Matches(m.n, TagOf(r)) {
      var i := TagOf(r) / 8 - 1;
      ApplyValueKeepsKind(s, s.cases(m.n)[i].kind, m.fields[i], r.payload);
    }
  }

  lemma {:induction false} MergeValueKeepsKind(s: Schema, k: Kind, x: Value, y: Value)
    requires FitsKind(s, k, x) && FitsKind(s, k, y)
    ensures FitsKind(s, k, MergeValue(s, x, y))
    decreases y, 0
  {
    match y
    case VOne(p) =>
      if p.Some? {
        DefaultGood(s, p.value.n);
        MergeKeepsGood(s, if x.o.Some? then x.o.value else Default(s, p.value.n), p.value);
      }
    case VMany(ns) =>
      forall i | 0 <= i < |ns| ensures Good(s, Copy(s, ns[i])) && Copy(s, ns[i]).n == ns[i].n {
        DefaultGood(s, ns[i].n);
        MergeKeepsGood(s, Default(s, ns[i].n), ns[i]);
      }
    case _ =>
  }

  lemma {:induction false} MergeKeepsGood(s: Schema, m: Msg, from: Msg)
    requires Good(s, m) && Good(s, from) && m.n == from.n
    ensures Good(s, Merge(s, m, from)) && Merge(s, m, from).n == m.n
    decreases from, 1
  {
    forall i | 0 <= i < |m.fields|
      ensures FitsKind(s, s.cases(m.n)[i].kind, MergeValue(s, m.fields[i], from.fields[i]))
    {
      MergeValueKeepsKind(s, s.cases(m.n)[i].kind, m.fields[i], from.fields[i]);
    }
  }

  // ---------------------------------------------------------------- bytes and records

  lemma RecordsOkAppend(a: seq<Record>, b: seq<Record>)
    requires RecordsOk(a) && RecordsOk(b)
    ensures RecordsOk(a + b)
  {
  }

  /** Parsing bytes is decoding them into records and folding over those. */
  lemma {:induction false} ParseIsFold(s: Schema, m: Msg, b: Bytes)
    ensures Parse(s, m, b) ==
            if DecodeRecords(b).Some? then Fold(s, m, DecodeRecords(b).value) else None
    decreases |b|
  {
    if b != [] && ReadRecord(b).Some? {
      var p := ReadRecord(b).value;
      var rest := b[p.1..];
      if DecodeRecords(rest).Some? {
        var rs := DecodeRecords(rest).value;
        assert ([p.0] + rs)[1..] == rs;
      }
      if Apply(s, m, p.0).Some? {
        ParseIsFold(s, Apply(s, m, p.0).value, rest);
      }
    }
  }

  lemma ParseEncoded(s: Schema, m: Msg, rs: seq<Record>)
    requires RecordsOk(rs)
    ensures Parse(s, m, EncodeRecords(rs)) == Fold(s, m, rs)
  {
    RecordsRoundTrip(rs);
    ParseIsFold(s, m, EncodeRecords(rs));
  }

  lemma {:induction false} FoldAppend(s: Schema, m: Msg, a: seq<Record>, b: seq<Record>)
    ensures Fold(s, m, a + b) ==
            if Fold(s, m, a).Some? then Fold(s, Fold(s, m, a).value, b) else None
    decreases |a|
  {
    if a == [] {
      assert a + b == b;
    } else {
      assert (a + b)[1..] == a[1..] + b;
      if Apply(s, m, a[0]).Some? {
        FoldAppend(s, Apply(s, m, a[0]).value, a[1..], b);
      }
    }
  }

  lemma FoldOne(s: Schema, m: Msg, r: Record)
    ensures Fold(s, m, [r]) == Apply(s, m, r)
  {
    assert [r][1..] == [];
  }

  /** A record with the number and wire type of a field goes to that field. */
  lemma ApplyMatched(s: Schema, m: Msg, i: nat, p: Payload)
    requires s.Ok() && |m.fields| == |s.cases(m.n)| && i < |m.fields|
    requires WireType(p) == WireOf(s.cases(m.n)[i].kind)
    ensures var x := ApplyValue(s, s.cases(m.n)[i].kind, m.fields[i], p);
            Apply(s, m, Record(i + 1, p)) ==
            if x.Some? then Some(m.(fields := m.fields[i := x.value])) else None
  {
    var r := Record(i + 1, p);
    assert TagOf(r) / 8 == i + 1 && TagOf(r) % 8 == WireType(p);
    s.MatchesIff(m.n, TagOf(r));
  }

  lemma {:induction false} FoldUnknown(s: Schema, m: Msg, rs: seq<Record>)
    requires UnknownOk(s, m.n, rs)
    ensures Fold(s, m, rs) == Some(m.(unknown := m.unknown + rs))
    decreases |rs|
  {
    if rs == [] {
      assert m.unknown + rs == m.unknown;
    } else {
      var m' := m.(unknown := m.unknown + [rs[0]]);
      FoldUnknown(s, m', rs[1..]);
      assert m'.unknown + rs[1..] == m.unknown + rs;
    }
  }

  // ---------------------------------------------------------------- serialize, then parse

  /** Field numbers are small, because their tags fit in one byte. */
  lemma FieldNumberSmall(s: Schema, n: MsgName, i: nat)
    requires s.Ok() && i < |s.cases(n)|
    ensures i + 1 < 32
  {
    assert s.CaseOk(n, i, s.cases(n)[i]);
  }

  lemma {:induction false} ManyRecordsAt(number: nat, ms: seq<Msg>)
    ensures |ManyRecords(number, ms)| == |ms|
    ensures forall j :: 0 <= j < |ms| ==>
              ManyRecords(number, ms)[j] == Record(number, Delimited(Serialize(ms[j])))
  {
    if ms == [] {
    } else {
      ManyRecordsAt(number, ms[1..]);
    }
  }

  /** The records of a field can be written when they are not too long. */
  lemma FieldRecordsOk(s: Schema, n: MsgName, i: nat, y: Value)
    requires s.Ok() && i < |s.cases(n)|
    requires |EncodeRecords(FieldRecords(i + 1, y))| <= MAX_SIZE
    ensures RecordsOk(FieldRecords(i + 1, y))
  {
    FieldNumberSmall(s, n, i);
    var rs := FieldRecords(i + 1, y);
    if y.VMany? { ManyRecordsAt(i + 1, y.ms); }
    forall j | 0 <= j < |rs| ensures RecordOk(rs[j]) {
      EncodedPayloadSize(rs, j);
    }
  }

  ghost predicate AllUtf8Ok(ms: seq<Msg>) {
    forall j :: 0 <= j < |ms| ==> Utf8Ok(ms[j])
  }

  function Copies(s: Schema, ms: seq<Msg>): seq<Msg> {
    seq(|ms|, i requires 0 <= i < |ms| => Copy(s, ms[i]))
  }

  /** Field `i` of `m` replaced by `x`. */
  function WithField(m: Msg, i: nat, x: Value): Msg
    requires i < |m.fields|
  {
    m.(fields := m.fields[i := x])
  }

  /** Parsing one element of a repeated field appends its copy. */
  lemma {:induction false} ManyStep(s: Schema, m: Msg, i: nat, y: Msg)
    requires s.Ok() && Good(s, m) && i < |m.fields| && s.cases(m.n)[i].kind == Many(y.n)
    requires m.fields[i].VMany? && Good(s, y) && |Serialize(y)| <= MAX_SIZE
    ensures Apply(s, m, Record(i + 1, Delimited(Serialize(y)))) ==
            if Utf8Ok(y) then Some(WithField(m, i, VMany(m.fields[i].ms + [Copy(s, y)]))) else None
    ensures Utf8Ok(y) ==> Good(s, WithField(m, i, VMany(m.fields[i].ms + [Copy(s, y)])))
    decreases y, 3
  {
    var r := Record(i + 1, Delimited(Serialize(y)));
    DefaultGood(s, y.n);
    SerializeThenParse(s, Default(s, y.n), y);
    ApplyMatched(s, m, i, Delimited(Serialize(y)));
    FieldNumberSmall(s, m.n, i);
    ApplyKeepsGood(s, m, r);
  }

  lemma ManyTail(s: Schema, m: Msg, i: nat, ms: seq<Msg>)
    requires ms != [] && i < |m.fields| && m.fields[i].VMany?
    ensures ManyRecords(i + 1, ms)[1..] == ManyRecords(i + 1, ms[1..])
    ensures AllUtf8Ok(ms) <==> (Utf8Ok(ms[0]) && AllUtf8Ok(ms[1..]))
    ensures var m' := WithField(m, i, VMany(m.fields[i].ms + [Copy(s, ms[0])]));
            WithField(m', i, VMany(m'.fields[i].ms + Copies(s, ms[1..]))) ==
            WithField(m, i, VMany(m.fields[i].ms + Copies(s, ms)))
  {
    var m' := WithField(m, i, VMany(m.fields[i].ms + [Copy(s, ms[0])]));
    assert m'.fields[i].ms + Copies(s, ms[1..]) == m.fields[i].ms + Copies(s, ms);
  }

  lemma {:induction false} ManyFold(s: Schema, m: Msg, i: nat, ms: seq<Msg>)
    requires s.Ok() && Good(s, m) && i < |m.fields| && s.cases(m.n)[i].kind.Many?
    requires m.fields[i].VMany? && FitsKind(s, s.cases(m.n)[i].kind, VMany(ms))
    requires forall j :: 0 <= j < |ms| ==> |Serialize(ms[j])| <= MAX_SIZE
    ensures Fold(s, m, ManyRecords(i + 1, ms)) ==
            if AllUtf8Ok(ms) then Some(WithField(m, i, VMany(m.fields[i].ms + Copies(s, ms)))) else None
    decreases ms
  {
    if ms == [] {
      assert m.fields[i].ms + Copies(s, ms) == m.fields[i].ms;
      assert m.fields[i := m.fields[i]] == m.fields;
    } else {
      ManyStep(s, m, i, ms[0]);
      ManyTail(s, m, i, ms);
      if Utf8Ok(ms[0]) {
        ManyFold(s, WithField(m, i, VMany(m.fields[i].ms + [Copy(s, ms[0])])), i, ms[1..]);
      }
    }
  }

  /** A field whose records are none is left as it is by parsing and by merging. */
  lemma FieldAbsent(s: Schema, m: Msg, i: nat, y: Value)
    requires i < |m.fields| && FieldRecords(i + 1, y) == [] && !y.VMany?
    ensures Utf8OkValue(y)
    ensures Fold(s, m, []) == Some(WithField(m, i, MergeValue(s, m.fields[i], y)))
  {
    assert m.fields[i := m.fields[i]] == m.fields;
  }

  lemma {:induction false} OneFold(s: Schema, m: Msg, i: nat, y: Msg)
    requires s.Ok() && Good(s, m) && i < |m.fields| && s.cases(m.n)[i].kind == One(y.n)
    requires m.fields[i].VOne? && Good(s, y) && |Serialize(y)| <= MAX_SIZE
    ensures Apply(s, m, Record(i + 1, Delimited(Serialize(y)))) ==
            if Utf8Ok(y) then Some(WithField(m, i, MergeValue(s, m.fields[i], VOne(Some(y))))) else None
    decreases y, 3
  {
    DefaultGood(s, y.n);
    assert FitsKind(s, s.cases(m.n)[i].kind, m.fields[i]);
    SerializeThenParse(s, if m.fields[i].o.Some? then m.fields[i].o.value else Default(s, y.n), y);
    ApplyMatched(s, m, i, Delimited(Serialize(y)));
  }

  lemma EnumRoundTrip(e: int32)
    ensures VarintToEnum(EnumToVarint(e)) == e
  {
  }

  lemma ScalarFold(s: Schema, m: Msg, i: nat, y: Value)
    requires s.Ok() && Good(s, m) && i < |m.fields| && FitsKind(s, s.cases(m.n)[i].kind, y)
    requires !y.VOne? && !y.VMany? && FieldRecords(i + 1, y) != []
    ensures Apply(s, m, FieldRecords(i + 1, y)[0]) ==
            if Utf8OkValue(y) then Some(WithField(m, i, MergeValue(s, m.fields[i], y))) else None
  {
    assert FitsKind(s, s.cases(m.n)[i].kind, m.fields[i]);
    ApplyMatched(s, m, i, FieldRecords(i + 1, y)[0].payload);
    if y.VEnum? { EnumRoundTrip(y.e); }
  }

  lemma ElementSizes(number: nat, ms: seq<Msg>)
    ensures forall j :: 0 <= j < |ms| ==>
              |Serialize(ms[j])| < |EncodeRecords(ManyRecords(number, ms))|
  {
    ManyRecordsAt(number, ms);
    forall j | 0 <= j < |ms|
      ensures |Serialize(ms[j])| < |EncodeRecords(ManyRecords(number, ms))|
    {
      EncodedPayloadSize(ManyRecords(number, ms), j);
    }
  }

  lemma {:induction false} SingleFold(s: Schema, m: Msg, i: nat, y: Value)
    requires s.Ok() && Good(s, m) && i < |m.fields| && FitsKind(s, s.cases(m.n)[i].kind, y)
    requires !y.VMany? && |EncodeRecords(FieldRecords(i + 1, y))| <= MAX_SIZE
    ensures Fold(s, m, FieldRecords(i + 1, y)) ==
            if Utf8OkValue(y) then Some(WithField(m, i, MergeValue(s, m.fields[i], y))) else None
    decreases y, 0
  {
    var rs := FieldRecords(i + 1, y);
    if rs == [] {
      FieldAbsent(s, m, i, y);
    } else {
      FoldOne(s, m, rs[0]);
      if y.VOne? {
        EncodedPayloadSize(rs, 0);
        assert FitsKind(s, s.cases(m.n)[i].kind, m.fields[i]);
        OneFold(s, m, i, y.o.value);
      } else {
        ScalarFold(s, m, i, y);
      }
    }
  }

  /** Parsing the records of one field merges that field and touches nothing else. */
  lemma {:induction false} FieldFold(s: Schema, m: Msg, i: nat, y: Value)
    requires s.Ok() && Good(s, m) && i < |m.fields| && FitsKind(s, s.cases(m.n)[i].kind, y)
    requires |EncodeRecords(FieldRecords(i + 1, y))| <= MAX_SIZE
    ensures Fold(s, m, FieldRecords(i + 1, y)) ==
            if Utf8OkValue(y) then Some(WithField(m, i, MergeValue(s, m.fields[i], y))) else None
    decreases y, 1
  {
    hide EncodeRecords, Fold, Serialize, ManyRecords;
    if y.VMany? {
      assert FitsKind(s, s.cases(m.n)[i].kind, m.fields[i]);
      ElementSizes(i + 1, y.ms);
      ManyFold(s, m, i, y.ms);
    } else {
      SingleFold(s, m, i, y);
    }
  }

  /** `m` with the fields below index `i` already merged. */
  function MergedUpTo(s: Schema, m: Msg, from: Msg, i: nat): Msg
    requires i <= |m.fields| == |from.fields|
  {
    m.(fields := Merge(s, m, from).fields[..i] + m.fields[i..])
  }

  lemma MergedUpToGood(s: Schema, m: Msg, b: Msg, i: nat)
    requires Good(s, m) && Good(s, b) && m.n == b.n && i <= |b.fields|
    ensures Good(s, MergedUpTo(s, m, b, i))
  {
    MergeKeepsGood(s, m, b);
  }

  lemma MergedStep(s: Schema, m: Msg, b: Msg, i: nat)
    requires i < |m.fields| == |b.fields|
    ensures var mi := MergedUpTo(s, m, b, i);
            && mi.fields[i] == m.fields[i]
            && WithField(mi, i, MergeValue(s, m.fields[i], b.fields[i])) == MergedUpTo(s, m, b, i + 1)
  {
    var mi := MergedUpTo(s, m, b, i);
    assert WithField(mi, i, MergeValue(s, m.fields[i], b.fields[i])).fields
        == MergedUpTo(s, m, b, i + 1).fields;
  }

  ghost predicate Utf8OkFrom(b: Msg, i: nat) {
    forall j :: i <= j < |b.fields| ==> Utf8OkValue(b.fields[j])
  }

  lemma Utf8OkStep(b: Msg, i: nat)
    requires i < |b.fields|
    ensures Utf8OkFrom(b, i) <==> (Utf8OkValue(b.fields[i]) && Utf8OkFrom(b, i + 1))
  {
  }

  lemma MergedAll(s: Schema, m: Msg, b: Msg)
    requires |m.fields| == |b.fields| && UnknownOk(s, m.n, b.unknown)
    ensures Fold(s, MergedUpTo(s, m, b, |b.fields|), b.unknown) == Some(Merge(s, m, b))
  {
    var all := MergedUpTo(s, m, b, |b.fields|);
    FoldUnknown(s, all, b.unknown);
    assert all.(unknown := m.unknown + b.unknown) == Merge(s, m, b);
  }

  lemma {:induction false} RecordsStep(s: Schema, m: Msg, b: Msg, i: nat)
    requires s.Ok() && Good(s, m) && Good(s, b) && m.n == b.n && i < |b.fields|
    requires |EncodeRecords(RecordsFrom(b, i))| <= MAX_SIZE
    ensures |EncodeRecords(RecordsFrom(b, i + 1))| <= MAX_SIZE
    ensures Fold(s, MergedUpTo(s, m, b, i), RecordsFrom(b, i)) ==
            if Utf8OkValue(b.fields[i])
            then Fold(s, MergedUpTo(s, m, b, i + 1), RecordsFrom(b, i + 1)) else None
    decreases b, 0
  {
    var mi := MergedUpTo(s, m, b, i);
    var rs, rest := FieldRecords(i + 1, b.fields[i]), RecordsFrom(b, i + 1);
    EncodeAppend(rs, rest);
    FoldAppend(s, mi, rs, rest);
    MergedUpToGood(s, m, b, i);
    MergedStep(s, m, b, i);
    FieldFold(s, mi, i, b.fields[i]);
  }

  lemma {:induction false} RecordsFold(s: Schema, m: Msg, b: Msg, i: nat)
    requires s.Ok() && Good(s, m) && Good(s, b) && m.n == b.n && i <= |b.fields|
    requires |EncodeRecords(RecordsFrom(b, i))| <= MAX_SIZE
    ensures Fold(s, MergedUpTo(s, m, b, i), RecordsFrom(b, i)) ==
            if Utf8OkFrom(b, i) then Some(Merge(s, m, b)) else None
    decreases b, 1, |b.fields| - i
  {
    if i == |b.fields| {
      MergedAll(s, m, b);
    } else {
      RecordsStep(s, m, b, i);
      RecordsFold(s, m, b, i + 1);
      Utf8OkStep(b, i);
    }
  }

  /** The main law of the codec: parsing a serialized message into `m` succeeds exactly when all its
      strings are valid UTF-8, and then does what merging the message itself does. */
  lemma {:induction false} SerializeThenParse(s: Schema, m: Msg, b: Msg)
    requires s.Ok() && Good(s, m) && Good(s, b) && m.n == b.n
    requires |Serialize(b)| <= MAX_SIZE
    ensures Parse(s, m, Serialize(b)) == if Utf8Ok(b) then Some(Merge(s, m, b)) else None
    decreases b, 2
  {
    MessageRecordsOk(s, b, 0);
    ParseEncoded(s, m, RecordsFrom(b, 0));
    assert MergedUpTo(s, m, b, 0) == m;
    RecordsFold(s, m, b, 0);
  }

  lemma {:induction false} MessageRecordsOk(s: Schema, b: Msg, i: nat)
    requires s.Ok() && i <= |b.fields| == |s.cases(b.n)| && RecordsOk(b.unknown)
    requires |Serialize(b)| <= MAX_SIZE
    ensures RecordsOk(RecordsFrom(b, i))
    decreases |b.fields| - i
  {
    if i == |b.fields| {
    } else {
      FieldSize(b, i);
      FieldRecordsOk(s, b.n, i, b.fields[i]);
      MessageRecordsOk(s, b, i + 1);
      RecordsOkAppend(FieldRecords(i + 1, b.fields[i]), RecordsFrom(b, i + 1));
    }
  }

  lemma SplitSize(m: Msg, i: nat)
    requires i < |m.fields|
    ensures |EncodeRecords(RecordsFrom(m, i))| ==
            |EncodeRecords(FieldRecords(i + 1, m.fields[i]))| + |EncodeRecords(RecordsFrom(m, i + 1))|
  {
    EncodeAppend(FieldRecords(i + 1, m.fields[i]), RecordsFrom(m, i + 1));
  }

  lemma {:induction false} RecordsSplit(m: Msg, i: nat) returns (front: seq<Record>)
    requires i <= |m.fields|
    ensures RecordsFrom(m, 0) == front + RecordsFrom(m, i)
  {
    if i == 0 {
      front := [];
    } else {
      front := RecordsSplit(m, i - 1);
      front := front + FieldRecords(i, m.fields[i - 1]);
    }
  }

  /** A field takes no more bytes than the message it is part of. */
  lemma FieldSize(m: Msg, i: nat)
    requires i < |m.fields|
    ensures |EncodeRecords(FieldRecords(i + 1, m.fields[i]))| <= |Serialize(m)|
  {
    var front := RecordsSplit(m, i);
    EncodeAppend(front, RecordsFrom(m, i));
    SplitSize(m, i);
  }
}
