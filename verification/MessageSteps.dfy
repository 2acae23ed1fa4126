/** The loops of MergeFrom, ByteSizeLong and serialization, as equations about messages. */
module MessageSteps {
  import opened Common
  import opened Wire
  import opened Schema
  import opened Message
  import opened Codec

  // ---------------------------------------------------------------- merging in layout order

  /** `from` merged into `m`, but only for the field numbers in `done`. */
  function PartMerge(s: Schema, m: Msg, from: Msg, done: seq<nat>): Msg
    requires |m.fields| == |from.fields|
  {
    Msg(m.n,
        seq(|m.fields|, i requires 0 <= i < |m.fields| =>
          if i + 1 in done then MergeValue(s, m.fields[i], from.fields[i]) else m.fields[i]),
        m.unknown + from.unknown)
  }

  lemma PartMergeNone(s: Schema, m: Msg, from: Msg)
    requires |m.fields| == |from.fields|
    ensures PartMerge(s, m, from, []) == m.(unknown := m.unknown + from.unknown)
  {
    assert PartMerge(s, m, from, []).fields == m.fields;
  }

  /** A field that is not done yet still has its old value; merging it adds its number. */
  lemma PartMergeStep(s: Schema, m: Msg, from: Msg, order: seq<nat>, k: nat)
    requires |m.fields| == |from.fields| && IsFieldOrder(order, |m.fields|) && k < |order|
    ensures var p := PartMerge(s, m, from, order[..k]);
            var i := order[k] - 1;
            && p.fields[i] == m.fields[i]
            && WithField(p, i, MergeValue(s, m.fields[i], from.fields[i])) ==
               PartMerge(s, m, from, order[..k + 1])
  {
    var i := order[k] - 1;
    assert i + 1 !in order[..k];
    assert order[..k + 1] == order[..k] + [order[k]];
    var p := PartMerge(s, m, from, order[..k]);
    assert WithField(p, i, MergeValue(s, m.fields[i], from.fields[i])).fields ==
           PartMerge(s, m, from, order[..k + 1]).fields;
  }

  lemma PartMergeAll(s: Schema, m: Msg, from: Msg, order: seq<nat>)
    requires |m.fields| == |from.fields| && IsFieldOrder(order, |m.fields|)
    ensures PartMerge(s, m, from, order) == Merge(s, m, from)
  {
    assert PartMerge(s, m, from, order).fields == Merge(s, m, from).fields;
  }

  lemma CopiesStep(s: Schema, ms: seq<Msg>, k: nat)
    requires k < |ms|
    ensures Copies(s, ms[..k + 1]) == Copies(s, ms[..k]) + [Copy(s, ms[k])]
  {
  }

  // ---------------------------------------------------------------- sizes in layout order

  /** The sum of `sizes[number - 1]` over the numbers in `order`. */
  function Total(sizes: seq<nat>, order: seq<nat>): nat
    requires forall i :: 0 <= i < |order| ==> 1 <= order[i] <= |sizes|
  {
    if order == [] then 0
    else Total(sizes, order[..|order| - 1]) + sizes[order[|order| - 1] - 1]
  }

  function Sum(sizes: seq<nat>): nat {
    if sizes == [] then 0 else Sum(sizes[..|sizes| - 1]) + sizes[|sizes| - 1]
  }

  lemma {:induction false} TotalWithout(sizes: seq<nat>, order: seq<nat>, p: nat)
    requires forall i :: 0 <= i < |order| ==> 1 <= order[i] <= |sizes|
    requires p < |order|
    ensures Total(sizes, order) == Total(sizes, Without(order, p)) + sizes[order[p] - 1]
  {
    var last := |order| - 1;
    if p == last {
      assert Without(order, p) == order[..last];
    } else {
      TotalWithout(sizes, order[..last], p);
      assert Without(order, p)[..last - 1] == Without(order[..last], p);
    }
  }

  lemma {:induction false} TotalOfFewer(sizes: seq<nat>, order: seq<nat>)
    requires sizes != [] && forall i :: 0 <= i < |order| ==> 1 <= order[i] < |sizes|
    ensures Total(sizes, order) == Total(sizes[..|sizes| - 1], order)
  {
    if order == [] {
    } else {
      TotalOfFewer(sizes, order[..|order| - 1]);
    }
  }

  lemma FieldOrderWithout(order: seq<nat>, p: nat)
    requires p < |order| && IsFieldOrder(order, |order|) && order[p] == |order|
    ensures IsFieldOrder(Without(order, p), |order| - 1)
  {
    var fewer := Without(order, p);
    forall i | 0 <= i < |fewer| ensures 1 <= fewer[i] <= |order| - 1 {
      assert fewer[i] == order[if i < p then i else i + 1];
    }
    forall number | 1 <= number <= |order| - 1 ensures number in fewer {
      assert number in order;
      var i :| 0 <= i < |order| && order[i] == number;
      assert fewer[if i < p then i else i - 1] == number;
    }
  }

  /** Adding up in another order gives the same sum. */
  lemma {:induction false} TotalIsSum(sizes: seq<nat>, order: seq<nat>)
    requires IsFieldOrder(order, |sizes|)
    ensures Total(sizes, order) == Sum(sizes)
    decreases |sizes|
  {
    if sizes == [] {
    } else {
      assert |sizes| in order;
      var p :| 0 <= p < |order| && order[p] == |sizes|;
      FieldOrderWithout(order, p);
      TotalWithout(sizes, order, p);
      TotalOfFewer(sizes, Without(order, p));
      TotalIsSum(sizes[..|sizes| - 1], Without(order, p));
    }
  }

  /** The bytes that field `i` takes when it is written. */
  function FieldBytes(m: Msg, i: nat): nat
    requires i < |m.fields|
  {
    |EncodeRecords(FieldRecords(i + 1, m.fields[i]))|
  }

  function AllFieldBytes(m: Msg): (sizes: seq<nat>)
    ensures |sizes| == |m.fields|
  {
    seq(|m.fields|, i requires 0 <= i < |m.fields| => FieldBytes(m, i))
  }

  lemma {:induction false} SerializedFrom(m: Msg, i: nat)
    requires i <= |m.fields|
    ensures |Serialize(m)| == Sum(AllFieldBytes(m)[..i]) + |EncodeRecords(RecordsFrom(m, i))|
  {
    if i == 0 {
    } else {
      SerializedFrom(m, i - 1);
      SplitSize(m, i - 1);
      assert AllFieldBytes(m)[..i][..i - 1] == AllFieldBytes(m)[..i - 1];
    }
  }

  /** The sizes of the fields, added up in layout order, and the size of the unknown records make the
      size of the message, although the fields are written in another order. */
  lemma SizeInLayoutOrder(m: Msg, order: seq<nat>)
    requires IsFieldOrder(order, |m.fields|)
    ensures |Serialize(m)| == Total(AllFieldBytes(m), order) + |EncodeRecords(m.unknown)|
  {
    SerializedFrom(m, |m.fields|);
    assert AllFieldBytes(m)[..|m.fields|] == AllFieldBytes(m);
    TotalIsSum(AllFieldBytes(m), order);
  }

  lemma TotalNone(sizes: seq<nat>, order: seq<nat>)
    ensures Total(sizes, order[..0]) == 0
  {
  }

  lemma TotalStep(m: Msg, order: seq<nat>, k: nat)
    requires IsFieldOrder(order, |m.fields|) && k < |order|
    ensures Total(AllFieldBytes(m), order[..k + 1]) ==
            Total(AllFieldBytes(m), order[..k]) + FieldBytes(m, order[k] - 1)
  {
    assert order[..k + 1][..k] == order[..k];
  }

  /** The size of a length-delimited payload of `size` bytes, its prefix included. */
  function DelimitedSize(size: nat): nat {
    |Varint(size)| + size
  }

  /** A record takes the tag cost of its field and its payload. */
  lemma OneRecordBytes(s: Schema, n: MsgName, i: nat, p: Payload)
    requires s.Ok() && i < |s.cases(n)| && WireType(p) == WireOf(s.cases(n)[i].kind)
    ensures |EncodeRecords([Record(i + 1, p)])| == s.cost(n, i + 1) + |EncodePayload(p)|
  {
    assert s.CaseOk(n, i, s.cases(n)[i]);
    EncodeOne(Record(i + 1, p));
  }

  lemma ManyRecordsStep(number: nat, ms: seq<Msg>, k: nat)
    requires k < |ms|
    ensures ManyRecords(number, ms[..k + 1]) ==
            ManyRecords(number, ms[..k]) + [Record(number, Delimited(Serialize(ms[k])))]
  {
    ManyRecordsAt(number, ms[..k]);
    ManyRecordsAt(number, ms[..k + 1]);
  }

  lemma ShortVarint(v: nat)
    requires v < 128
    ensures |Varint(v)| == 1
  {
  }

  lemma ManyBytesNone(number: nat)
    ensures |EncodeRecords(ManyRecords(number, []))| == 0
  {
  }

  /** One more element of a repeated field adds its tag and its delimited size. */
  lemma ManyBytesStep(s: Schema, n: MsgName, i: nat, ms: seq<Msg>, k: nat)
    requires s.Ok() && i < |s.cases(n)| && s.cases(n)[i].kind.Many? && k < |ms|
    ensures |EncodeRecords(ManyRecords(i + 1, ms[..k + 1]))| ==
            |EncodeRecords(ManyRecords(i + 1, ms[..k]))| + 1 + DelimitedSize(|Serialize(ms[k])|)
  {
    hide EncodeRecords, ManyRecords, Serialize, Varint;
    var r := Record(i + 1, Delimited(Serialize(ms[k])));
    assert s.cost(n, i + 1) == 1 by {
      assert s.CaseOk(n, i, s.cases(n)[i]);
      ShortVarint(s.cases(n)[i].tag);
    }
    ManyRecordsStep(i + 1, ms, k);
    EncodeAppend(ManyRecords(i + 1, ms[..k]), [r]);
    OneRecordBytes(s, n, i, r.payload);
  }

  /** What ByteSizeLong adds for a number or a string whose tag costs `cost`. */
  function ScalarSize(cost: nat, v: Value): nat {
    match v
    case VFloat(f) => if Nonzero(f) then cost + 4 else 0
    case VEnum(e) => if e != 0 then cost + |Varint(EnumToVarint(e))| else 0
    case VStr(b) => if b != [] then cost + DelimitedSize(|b|) else 0
    case _ => 0
  }

  lemma ScalarBytes(s: Schema, m: Msg, i: nat)
    requires s.Ok() && Good(s, m) && i < |m.fields| && !m.fields[i].VOne? && !m.fields[i].VMany?
    ensures FieldBytes(m, i) == ScalarSize(s.cost(m.n, i + 1), m.fields[i])
  {
    assert FitsKind(s, s.cases(m.n)[i].kind, m.fields[i]);
    var rs := FieldRecords(i + 1, m.fields[i]);
    if rs != [] {
      OneRecordBytes(s, m.n, i, rs[0].payload);
    }
  }

  /** What ByteSizeLong adds for a submessage. */
  lemma OneBytes(s: Schema, m: Msg, i: nat)
    requires s.Ok() && Good(s, m) && i < |m.fields| && m.fields[i].VOne?
    ensures FieldBytes(m, i) ==
            if m.fields[i].o.Some? then s.cost(m.n, i + 1) + DelimitedSize(|Serialize(m.fields[i].o.value)|) else 0
  {
    assert FitsKind(s, s.cases(m.n)[i].kind, m.fields[i]);
    if m.fields[i].o.Some? {
      OneRecordBytes(s, m.n, i, Delimited(Serialize(m.fields[i].o.value)));
    }
  }

  // ---------------------------------------------------------------- writing in field-number order

  /** The bytes of one record of field `i`, as they are written: the tag and the payload. */
  lemma OneRecordWritten(s: Schema, n: MsgName, i: nat, p: Payload)
    requires s.Ok() && i < |s.cases(n)| && WireType(p) == WireOf(s.cases(n)[i].kind)
    ensures EncodeRecords([Record(i + 1, p)]) == Varint(8 * (i + 1) + WireOf(s.cases(n)[i].kind)) + EncodePayload(p)
  {
    EncodeOne(Record(i + 1, p));
  }

  lemma ManyWritten(number: nat, ms: seq<Msg>, k: nat)
    requires k < |ms|
    ensures EncodeRecords(ManyRecords(number, ms[..k + 1])) ==
            EncodeRecords(ManyRecords(number, ms[..k])) +
            EncodeRecords([Record(number, Delimited(Serialize(ms[k])))])
  {
    ManyRecordsStep(number, ms, k);
    EncodeAppend(ManyRecords(number, ms[..k]), [Record(number, Delimited(Serialize(ms[k])))]);
  }

  /** What is left to write shrinks by the bytes of the field that is written. */
  lemma WrittenStep(m: Msg, i: nat, out: Bytes)
    requires i < |m.fields|
    requires out + EncodeRecords(RecordsFrom(m, i)) == Serialize(m)
    ensures (out + EncodeRecords(FieldRecords(i + 1, m.fields[i]))) + EncodeRecords(RecordsFrom(m, i + 1))
         == Serialize(m)
  {
    EncodeAppend(FieldRecords(i + 1, m.fields[i]), RecordsFrom(m, i + 1));
  }
}
