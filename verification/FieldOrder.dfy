/** Fields may arrive in any order and interleaved: a parse depends only on the records of each field
    number taken by themselves (Protocol Buffers "Encoding" guide, sections "Field Order" and "Last One
    Wins"). */
module FieldOrder {
  import opened Wire
  import opened Schema
  import opened Message
  import opened Codec

  /** The records with a given field number, in order. */
  function Of(rs: seq<Record>, number: nat): seq<Record> {
    if rs == [] then []
    else if rs[0].number == number then [rs[0]] + Of(rs[1..], number)
    else Of(rs[1..], number)
  }

  /** The records that no case of message `n` takes, in order. */
  function Leftover(s: Schema, n: MsgName, rs: seq<Record>): seq<Record> {
    if rs == [] then []
    else if s.Matches(n, TagOf(rs[0])) then Leftover(s, n, rs[1..])
    else [rs[0]] + Leftover(s, n, rs[1..])
  }

  /** What the records of one field number make of the field alone. Records of the wrong wire type do
      not count. */
  function FoldValue(s: Schema, k: Kind, x: Value, rs: seq<Record>): Option<Value>
    decreases |rs|
  {
    if rs == [] then Some(x)
    else if WireType(rs[0].payload) != WireOf(k) then FoldValue(s, k, x, rs[1..])
    else match ApplyValue(s, k, x, rs[0].payload)
      case None => None
      case Some(y) => FoldValue(s, k, y, rs[1..])
  }

  /** What the records `rs` make of field `i` of `m`. */
  function FieldResult(s: Schema, m: Msg, rs: seq<Record>, i: nat): Option<Value>
    requires i < |m.fields| == |s.cases(m.n)|
  {
    FoldValue(s, s.cases(m.n)[i].kind, m.fields[i], Of(rs, i + 1))
  }

  /** One turn of the loop touches one field at most, and fails only on behalf of that field. */
  lemma ApplyFieldwise(s: Schema, m: Msg, r: Record, rest: seq<Record>, i: nat)
    requires s.Ok() && i < |m.fields| == |s.cases(m.n)| && RecordOk(r)
    ensures var m' := Apply(s, m, r);
            && (m'.Some? ==> m'.value.n == m.n && |m'.value.fields| == |m.fields|)
            && (m'.Some? ==> FieldResult(s, m, [r] + rest, i) == FieldResult(s, m'.value, rest, i))
    ensures Apply(s, m, r).None? && r.number == i + 1 ==> FieldResult(s, m, [r] + rest, i).None?
  {
    TagNumber(r);
    s.MatchesIff(m.n, TagOf(r));
    var rs := [r] + rest;
    assert rs[0] == r && rs[1..] == rest;
    var own := Of(rest, i + 1);
    if r.number == i + 1 {
      assert Of(rs, i + 1) == [r] + own;
      assert ([r] + own)[0] == r && ([r] + own)[1..] == own;
    }
  }

  ghost predicate AllFieldsFold(s: Schema, m: Msg, rs: seq<Record>)
    requires |m.fields| == |s.cases(m.n)|
  {
    forall i :: 0 <= i < |m.fields| ==> FieldResult(s, m, rs, i).Some?
  }

  lemma StepFieldwise(s: Schema, m: Msg, r: Record, rest: seq<Record>)
    requires s.Ok() && |m.fields| == |s.cases(m.n)| && RecordOk(r)
    ensures var m' := Apply(s, m, r);
            && (m'.None? ==> !AllFieldsFold(s, m, [r] + rest))
            && (m'.Some? ==> m'.value.n == m.n && |m'.value.fields| == |m.fields|)
            && (m'.Some? ==> AllFieldsFold(s, m, [r] + rest) == AllFieldsFold(s, m'.value, rest))
  {
    forall i | 0 <= i < |m.fields|
      ensures Apply(s, m, r).Some? ==>
                && Apply(s, m, r).value.n == m.n && |Apply(s, m, r).value.fields| == |m.fields|
                && FieldResult(s, m, [r] + rest, i) == FieldResult(s, Apply(s, m, r).value, rest, i)
    {
      ApplyFieldwise(s, m, r, rest, i);
    }
    if Apply(s, m, r).None? {
      TagNumber(r);
      s.MatchesIff(m.n, TagOf(r));
      ApplyFieldwise(s, m, r, rest, r.number - 1);
    }
  }

  /** Every field of `v` is what the records make of that field of `m`. */
  ghost predicate FieldsAre(s: Schema, m: Msg, rs: seq<Record>, v: Msg)
    requires |m.fields| == |s.cases(m.n)|
  {
    && v.n == m.n && |v.fields| == |m.fields|
    && (forall i :: 0 <= i < |m.fields| ==> FieldResult(s, m, rs, i) == Some(v.fields[i]))
  }

  lemma FieldsAreStep(s: Schema, m: Msg, r: Record, rest: seq<Record>, v: Msg)
    requires s.Ok() && |m.fields| == |s.cases(m.n)| && RecordOk(r) && Apply(s, m, r).Some?
    requires var m' := Apply(s, m, r).value;
             m'.n == m.n && |m'.fields| == |m.fields| && FieldsAre(s, m', rest, v)
    ensures FieldsAre(s, m, [r] + rest, v)
  {
    forall i | 0 <= i < |m.fields| ensures FieldResult(s, m, [r] + rest, i) == Some(v.fields[i]) {
      ApplyFieldwise(s, m, r, rest, i);
    }
  }

  lemma LeftoverStep(s: Schema, m: Msg, r: Record, rest: seq<Record>)
    requires Apply(s, m, r).Some?
    ensures var m' := Apply(s, m, r).value;
            m'.unknown + Leftover(s, m.n, rest) == m.unknown + Leftover(s, m.n, [r] + rest)
  {
    assert ([r] + rest)[0] == r && ([r] + rest)[1..] == rest;
  }

  /** Parsing records succeeds exactly when every field, taken alone, accepts its own records; each
      field then holds what its own records make of it, and the rest is kept in order. */
  lemma {:induction false} FoldIsFieldwise(s: Schema, m: Msg, rs: seq<Record>)
    requires s.Ok() && |m.fields| == |s.cases(m.n)| && RecordsOk(rs)
    ensures Fold(s, m, rs).Some? <==> AllFieldsFold(s, m, rs)
    ensures Fold(s, m, rs).Some? ==>
              var v := Fold(s, m, rs).value;
              FieldsAre(s, m, rs, v) && v.unknown == m.unknown + Leftover(s, m.n, rs)
    decreases |rs|
  {
    if rs == [] {
      assert m.unknown + [] == m.unknown;
    } else {
      var r, rest := rs[0], rs[1..];
      assert [r] + rest == rs;
      StepFieldwise(s, m, r, rest);
      if Apply(s, m, r).Some? {
        var m' := Apply(s, m, r).value;
        FoldIsFieldwise(s, m', rest);
        if Fold(s, m', rest).Some? {
          FieldsAreStep(s, m, r, rest, Fold(s, m', rest).value);
          LeftoverStep(s, m, r, rest);
        }
      }
    }
  }

  ghost predicate SamePerField(a: seq<Record>, b: seq<Record>) {
    forall number: nat :: Of(a, number) == Of(b, number)
  }

  /** Two inputs whose records agree field number by field number are both rejected, or both accepted
      with the same values in every known field. */
  lemma FieldOrderIrrelevant(s: Schema, m: Msg, a: Bytes, b: Bytes)
    requires s.Ok() && Good(s, m)
    requires DecodeRecords(a).Some? && DecodeRecords(b).Some?
    requires SamePerField(DecodeRecords(a).value, DecodeRecords(b).value)
    ensures Parse(s, m, a).Some? <==> Parse(s, m, b).Some?
    ensures Parse(s, m, a).Some? ==> Parse(s, m, a).value.fields == Parse(s, m, b).value.fields
  {
    var ra, rb := DecodeRecords(a).value, DecodeRecords(b).value;
    ParseIsFold(s, m, a);
    ParseIsFold(s, m, b);
    DecodedRecordsOk(a);
    DecodedRecordsOk(b);
    FoldIsFieldwise(s, m, ra);
    FoldIsFieldwise(s, m, rb);
    assert forall i :: 0 <= i < |m.fields| ==> FieldResult(s, m, ra, i) == FieldResult(s, m, rb, i);
  }

  // ---------------------------------------------------------------- one field at a time

  /** For numbers and strings the last record of the right wire type wins, provided all of them are
      acceptable. */
  lemma {:induction false} LastOneWins(s: Schema, k: Kind, x: Value, rs: seq<Record>, r: Record)
    requires k.Float? || k.Enum? || k.Str?
    requires WireType(r.payload) == WireOf(k) && FoldValue(s, k, x, rs).Some?
    ensures FoldValue(s, k, x, rs + [r]) == ApplyValue(s, k, x, r.payload)
    decreases |rs|
  {
    if rs == [] {
      assert rs + [r] == [r] && [r][1..] == [];
    } else {
      assert (rs + [r])[0] == rs[0] && (rs + [r])[1..] == rs[1..] + [r];
      if WireType(rs[0].payload) != WireOf(k) {
        LastOneWins(s, k, x, rs[1..], r);
      } else {
        var y := ApplyValue(s, k, x, rs[0].payload).value;
        LastOneWins(s, k, y, rs[1..], r);
      }
    }
  }

  /** The messages that the payloads of some records hold, each parsed on its own. */
  function ParseEach(s: Schema, n: MsgName, rs: seq<Record>): Option<seq<Msg>> {
    if rs == [] then Some([])
    else if !rs[0].payload.Delimited? then None
    else match (Parse(s, Default(s, n), rs[0].payload.b), ParseEach(s, n, rs[1..]))
      case (Some(y), Some(ys)) => Some([y] + ys)
      case _ => None
  }

  /** A repeated field grows by one element for each of its records. */
  lemma {:induction false} RepeatedAppends(s: Schema, n: MsgName, ms: seq<Msg>, rs: seq<Record>)
    requires forall j :: 0 <= j < |rs| ==> rs[j].payload.Delimited?
    ensures FoldValue(s, Many(n), VMany(ms), rs) ==
            if ParseEach(s, n, rs).Some? then Some(VMany(ms + ParseEach(s, n, rs).value)) else None
    decreases |rs|
  {
    if rs == [] {
      assert ms + [] == ms;
    } else {
      var y := Parse(s, Default(s, n), rs[0].payload.b);
      if y.Some? {
        RepeatedAppends(s, n, ms + [y.value], rs[1..]);
        if ParseEach(s, n, rs[1..]).Some? {
          var ys := ParseEach(s, n, rs[1..]).value;
          assert (ms + [y.value]) + ys == ms + ([y.value] + ys);
        }
      }
    }
  }

  function Joined(rs: seq<Record>): Bytes
    requires forall j :: 0 <= j < |rs| ==> rs[j].payload.Delimited?
  {
    if rs == [] then [] else rs[0].payload.b + Joined(rs[1..])
  }

  lemma {:induction false} PresentJoins(s: Schema, n: MsgName, y: Msg, rs: seq<Record>)
    requires forall j :: 0 <= j < |rs| ==> rs[j].payload.Delimited?
    requires FoldValue(s, One(n), VOne(Some(y)), rs).Some?
    ensures Parse(s, y, Joined(rs)).Some?
    ensures FoldValue(s, One(n), VOne(Some(y)), rs) == Some(VOne(Parse(s, y, Joined(rs))))
    decreases |rs|
  {
    if rs == [] {
    } else {
      var z := Parse(s, y, rs[0].payload.b).value;
      PresentJoins(s, n, z, rs[1..]);
      ParseConcat(s, y, rs[0].payload.b, Joined(rs[1..]));
    }
  }

  /** The records of a submessage field merge: when all of them are accepted, taking them one after another
      is parsing their payloads as one, into the submessage or, if there is none, into a new one. */
  lemma SubmessageJoins(s: Schema, n: MsgName, o: Option<Msg>, rs: seq<Record>)
    requires rs != [] && forall j :: 0 <= j < |rs| ==> rs[j].payload.Delimited?
    requires FoldValue(s, One(n), VOne(o), rs).Some?
    ensures var start := if o.Some? then o.value else Default(s, n);
            && Parse(s, start, Joined(rs)).Some?
            && FoldValue(s, One(n), VOne(o), rs) == Some(VOne(Parse(s, start, Joined(rs))))
  {
    var start := if o.Some? then o.value else Default(s, n);
    hide Parse, Default;
    var z := Parse(s, start, rs[0].payload.b).value;
    PresentJoins(s, n, z, rs[1..]);
    ParseConcat(s, start, rs[0].payload.b, Joined(rs[1..]));
  }

  // ---------------------------------------------------------------- bytes that follow

  lemma {:induction false} ReadVarintPrefix(a: Bytes, b: Bytes, max: nat)
    requires ReadVarint(a, max).Some?
    ensures ReadVarint(a + b, max) == ReadVarint(a, max)
    decreases max
  {
    if a[0] >= 128 {
      assert (a + b)[1..] == a[1..] + b;
      ReadVarintPrefix(a[1..], b, max - 1);
    }
  }

  lemma ReadPayloadPrefix(wire: nat, a: Bytes, b: Bytes)
    requires ReadPayload(wire, a).Some?
    ensures ReadPayload(wire, a + b) == ReadPayload(wire, a)
  {
    match wire
    case 0 => ReadVarintPrefix(a, b, BYTES_64);
    case 1 => assert (a + b)[..8] == a[..8];
    case 2 =>
      ReadVarintPrefix(a, b, BYTES_32);
      var p := ReadVarint(a, BYTES_32).value;
      assert (a + b)[p.1..p.1 + p.0] == a[p.1..p.1 + p.0];
    case 5 => assert (a + b)[..4] == a[..4];
    case _ =>
  }

  lemma ReadTagPrefix(a: Bytes, b: Bytes)
    requires ReadTag(a).Some?
    ensures ReadTag(a + b) == ReadTag(a)
  {
    ReadVarintPrefix(a, b, BYTES_32);
  }

  lemma ReadRecordPrefix(a: Bytes, b: Bytes)
    requires ReadRecord(a).Some?
    ensures ReadRecord(a + b) == ReadRecord(a)
  {
    hide ReadTag, ReadPayload, RecordOk, PayloadSize;
    var t := ReadTag(a).value;
    ReadTagPrefix(a, b);
    var tail := a[t.1..];
    assert (a + b)[t.1..] == tail + b;
    ReadPayloadPrefix(t.0 % 8, tail, b);
  }

  /** Parsing continues where it stopped: whatever follows an accepted input is parsed into the result. */
  lemma {:induction false} ParseConcat(s: Schema, m: Msg, a: Bytes, b: Bytes)
    requires Parse(s, m, a).Some?
    ensures Parse(s, m, a + b) == Parse(s, Parse(s, m, a).value, b)
    decreases |a|
  {
    if a == [] {
      assert a + b == b;
    } else {
      var p := ReadRecord(a).value;
      ReadRecordPrefix(a, b);
      assert (a + b)[p.1..] == a[p.1..] + b;
      ParseConcat(s, Apply(s, m, p.0).value, a[p.1..], b);
    }
  }
}
