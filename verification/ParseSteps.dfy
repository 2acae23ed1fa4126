/** The turns of a parse loop, as equations about `Parse` at a position of the input. */
module ParseSteps {
  import opened Wire
  import opened Schema
  import opened Message
  import opened Codec

  /** What the case for a field of kind `k` makes of the bytes behind its tag: the new value of the
      field and the length of the payload. */
  function CaseResult(s: Schema, k: Kind, x: Value, b: Bytes): (r: Option<(Value, nat)>)
    ensures r.Some? ==> r.value.1 <= |b|
  {
    match ReadPayload(WireOf(k), b)
    case None => None
    case Some(p) =>
      match ApplyValue(s, k, x, p.0)
      case None => None
      case Some(y) => Some((y, p.1))
  }

  /** The outcome of a parse that has just read a tag of field `i` and stands at position `p`. */
  function AfterTag(s: Schema, m: Msg, i: nat, b: Bytes, p: nat): Option<Msg>
    requires i < |m.fields| == |s.cases(m.n)| && p <= |b|
  {
    match CaseResult(s, s.cases(m.n)[i].kind, m.fields[i], b[p..])
    case None => None
    case Some(r) => Parse(s, WithField(m, i, r.0), b[p + r.1..])
  }

  lemma AfterTagUnfolds(s: Schema, m: Msg, i: nat, b: Bytes, p: nat)
    requires i < |m.fields| == |s.cases(m.n)| && p <= |b|
    ensures var r := CaseResult(s, s.cases(m.n)[i].kind, m.fields[i], b[p..]);
            && (r.None? ==> AfterTag(s, m, i, b, p).None?)
            && (r.Some? ==> 0 < r.value.1 <= |b| - p)
            && (r.Some? ==>
                  AfterTag(s, m, i, b, p) == Parse(s, WithField(m, i, r.value.0), b[p + r.value.1..]))
  {
    hide ApplyValue, Parse;
  }

  lemma NoTag(s: Schema, m: Msg, c: Bytes)
    requires c != [] && ReadTag(c).None?
    ensures Parse(s, m, c).None?
  {
  }

  /** A turn, by the tag and the payload it reads. */
  lemma TurnReads(s: Schema, m: Msg, c: Bytes)
    requires ReadTag(c).Some?
    ensures var t := ReadTag(c).value;
            var u := ReadPayload(t.0 % 8, c[t.1..]);
            Parse(s, m, c) ==
            if t.0 / 8 == 0 || u.None? then None
            else var r := Apply(s, m, Record(t.0 / 8, u.value.0));
                 if r.None? then None else Parse(s, r.value, c[t.1 + u.value.1..])
  {
    hide ApplyValue, ReadPayload, ReadTag;
  }

  lemma Rest(b: Bytes, p: nat, k: nat)
    requires p + k <= |b|
    ensures b[p..][k..] == b[p + k..]
  {
  }

  lemma TagRebuilt(tag: nat, p: Payload)
    requires tag < TWO_32 && WireType(p) == tag % 8 && PayloadOk(p)
    ensures TagOf(Record(tag / 8, p)) == tag
    ensures tag / 8 != 0 ==> RecordOk(Record(tag / 8, p))
  {
  }

  /** A turn in which the switch accepts the tag. */
  lemma MatchedTurn(s: Schema, m: Msg, b: Bytes, p: nat)
    requires s.Ok() && p < |b| && |m.fields| == |s.cases(m.n)|
    requires ReadTag(b[p..]).Some? && s.Matches(m.n, ReadTag(b[p..]).value.0)
    ensures var t := ReadTag(b[p..]).value;
            Parse(s, m, b[p..]) == AfterTag(s, m, t.0 / 8 - 1, b, p + t.1)
  {
    hide ApplyValue, ReadPayload, ReadTag, Parse;
    var t := ReadTag(b[p..]).value;
    TurnReads(s, m, b[p..]);
    s.MatchesIff(m.n, t.0);
    Rest(b, p, t.1);
    var u := ReadPayload(t.0 % 8, b[p + t.1..]);
    if u.Some? {
      TagRebuilt(t.0, u.value.0);
      Rest(b, p, t.1 + u.value.1);
    }
  }

  /** A turn in which no case accepts the tag: the record is kept as unknown. */
  lemma UnmatchedTurn(s: Schema, m: Msg, b: Bytes, p: nat)
    requires p < |b| && ReadTag(b[p..]).Some? && !s.Matches(m.n, ReadTag(b[p..]).value.0)
    ensures var t := ReadTag(b[p..]).value;
            var u := ReadPayload(t.0 % 8, b[p + t.1..]);
            && (t.0 / 8 == 0 || u.None? ==> Parse(s, m, b[p..]).None?)
            && (t.0 / 8 != 0 && u.Some? ==>
                  var r := Record(t.0 / 8, u.value.0);
                  && RecordOk(r) && TagOf(r) == t.0
                  && Parse(s, m, b[p..]) ==
                     Parse(s, m.(unknown := m.unknown + [r]), b[p + t.1 + u.value.1..]))
  {
    hide ApplyValue, ReadPayload, ReadTag;
    var t := ReadTag(b[p..]).value;
    TurnReads(s, m, b[p..]);
    Rest(b, p, t.1);
    var u := ReadPayload(t.0 % 8, b[p + t.1..]);
    if u.Some? {
      TagRebuilt(t.0, u.value.0);
      Rest(b, p, t.1 + u.value.1);
    }
  }

  lemma ShortTag(c: Bytes)
    requires c != [] && c[0] < 128
    ensures ReadTag(c) == Some((c[0] as nat, 1))
  {
  }

  /** When the next byte is the one-byte tag of field `i`, the switch would have come to its case. */
  lemma FastPath(s: Schema, m: Msg, i: nat, b: Bytes, p: nat)
    requires s.Ok() && p < |b| && i < |m.fields| == |s.cases(m.n)|
    requires s.cases(m.n)[i].kind.Many? && b[p] == s.cases(m.n)[i].tag
    ensures Parse(s, m, b[p..]) == AfterTag(s, m, i, b, p + 1)
  {
    hide ApplyValue, ReadPayload, ReadTag;
    assert s.CaseOk(m.n, i, s.cases(m.n)[i]);
    ShortTag(b[p..]);
    MatchedTurn(s, m, b, p);
  }
}
