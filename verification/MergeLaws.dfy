/** The algebra of MergeFrom, Clear and CopyFrom, and what it says about parsing. */
module MergeLaws {
  import opened Wire
  import opened Schema
  import opened Message
  import opened Codec

  /** The message with every -0.0, at every level, turned into +0.0. */
  function Normal(m: Msg): Msg
    decreases m
  {
    m.(fields := seq(|m.fields|, i requires 0 <= i < |m.fields| => NormalValue(m.fields[i])))
  }

  function NormalValue(x: Value): Value
    decreases x
  {
    match x
    case VFloat(f) => VFloat(if Nonzero(f) then f else ZERO)
    case VOne(o) => if o.Some? then VOne(Some(Normal(o.value))) else x
    case VMany(ms) => VMany(seq(|ms|, i requires 0 <= i < |ms| => Normal(ms[i])))
    case _ => x
  }

  lemma {:induction false} CopyValueIsNormal(s: Schema, k: Kind, y: Value)
    requires FitsKind(s, k, y)
    ensures MergeValue(s, DefaultValue(k), y) == NormalValue(y)
    decreases y
  {
    match y
    case VOne(o) => if o.Some? { CopyIsNormal(s, o.value); }
    case VMany(ms) =>
      forall i | 0 <= i < |ms| ensures Copy(s, ms[i]) == Normal(ms[i]) {
        CopyIsNormal(s, ms[i]);
      }
      assert [] + Copies(s, ms) == Copies(s, ms);
    case _ =>
  }

  /** CopyFrom copies everything but the sign of zeros. */
  lemma {:induction false} CopyIsNormal(s: Schema, m: Msg)
    requires Good(s, m)
    ensures Copy(s, m) == Normal(m)
    decreases m
  {
    forall i | 0 <= i < |m.fields|
      ensures MergeValue(s, Default(s, m.n).fields[i], m.fields[i]) == NormalValue(m.fields[i])
    {
      CopyValueIsNormal(s, s.cases(m.n)[i].kind, m.fields[i]);
    }
    assert Copy(s, m).fields == Normal(m).fields;
    assert [] + m.unknown == m.unknown;
  }

  lemma {:induction false} NormalValueIdempotent(x: Value)
    ensures NormalValue(NormalValue(x)) == NormalValue(x)
    decreases x
  {
    match x
    case VOne(o) => if o.Some? { NormalIdempotent(o.value); }
    case VMany(ms) =>
      forall i | 0 <= i < |ms| ensures Normal(Normal(ms[i])) == Normal(ms[i]) {
        NormalIdempotent(ms[i]);
      }
      assert NormalValue(NormalValue(x)).ms == NormalValue(x).ms;
    case _ =>
  }

  lemma {:induction false} NormalIdempotent(m: Msg)
    ensures Normal(Normal(m)) == Normal(m)
    decreases m
  {
    forall i | 0 <= i < |m.fields|
      ensures NormalValue(NormalValue(m.fields[i])) == NormalValue(m.fields[i])
    {
      NormalValueIdempotent(m.fields[i]);
    }
    assert Normal(Normal(m)).fields == Normal(m).fields;
  }

  lemma CopyGood(s: Schema, m: Msg)
    requires Good(s, m)
    ensures Good(s, Copy(s, m)) && Copy(s, m).n == m.n
  {
    DefaultGood(s, m.n);
    MergeKeepsGood(s, Default(s, m.n), m);
  }

  /** Copying a copy changes nothing more. */
  lemma CopyIdempotent(s: Schema, m: Msg)
    requires Good(s, m)
    ensures Copy(s, Copy(s, m)) == Copy(s, m)
  {
    CopyGood(s, m);
    CopyIsNormal(s, m);
    CopyIsNormal(s, Copy(s, m));
    NormalIdempotent(m);
  }

  /** The sign of a zero is not written, so a message and its copy have the same bytes. */
  lemma {:induction false} SerializeIgnoresZeroSigns(m: Msg)
    ensures Serialize(Normal(m)) == Serialize(m)
    decreases m, 1
  {
    NormalRecordsFrom(m, 0);
  }

  lemma {:induction false} NormalRecordsFrom(m: Msg, i: nat)
    requires i <= |m.fields|
    ensures RecordsFrom(Normal(m), i) == RecordsFrom(m, i)
    decreases m, 0, |m.fields| - i
  {
    if i >= |m.fields| {
    } else {
      NormalFieldRecords(i + 1, m.fields[i]);
      NormalRecordsFrom(m, i + 1);
    }
  }

  lemma {:induction false} NormalFieldRecords(number: nat, x: Value)
    ensures FieldRecords(number, NormalValue(x)) == FieldRecords(number, x)
    decreases x
  {
    match x
    case VOne(o) => if o.Some? { SerializeIgnoresZeroSigns(o.value); }
    case VMany(ms) =>
      var ns := NormalValue(x).ms;
      ManyRecordsAt(number, ms);
      ManyRecordsAt(number, ns);
      forall i | 0 <= i < |ms| ensures Serialize(ns[i]) == Serialize(ms[i]) {
        SerializeIgnoresZeroSigns(ms[i]);
      }
      assert ManyRecords(number, ns) == ManyRecords(number, ms);
    case _ =>
  }

  // ---------------------------------------------------------------- identity and associativity

  /** Merging a cleared message changes nothing. */
  lemma MergeDefault(s: Schema, m: Msg)
    requires Good(s, m)
    ensures Merge(s, m, Default(s, m.n)) == m
  {
    var d := Default(s, m.n);
    forall i | 0 <= i < |m.fields| ensures MergeValue(s, m.fields[i], d.fields[i]) == m.fields[i] {
      assert FitsKind(s, s.cases(m.n)[i].kind, m.fields[i]);
      if m.fields[i].VMany? { assert m.fields[i].ms + Copies(s, []) == m.fields[i].ms; }
    }
    assert Merge(s, m, d).fields == m.fields;
    assert m.unknown + [] == m.unknown;
  }

  lemma {:induction false} OneAssociative(s: Schema, n: MsgName, x: Value, y: Value, z: Value)
    requires FitsKind(s, One(n), x) && FitsKind(s, One(n), y) && FitsKind(s, One(n), z)
    ensures MergeValue(s, MergeValue(s, x, y), z) == MergeValue(s, x, MergeValue(s, y, z))
    decreases z, 0
  {
    if z.o.Some? {
      var d, c := Default(s, n), z.o.value;
      DefaultGood(s, n);
      var a := if x.o.Some? then x.o.value else d;
      if y.o.Some? {
        MergeAssociative(s, a, y.o.value, c);
      } else if x.o.Some? {
        MergeAssociative(s, a, d, c);
        MergeDefault(s, a);
      } else {
        CopyIdempotent(s, c);
      }
    }
  }

  lemma ManyAssociative(s: Schema, n: MsgName, x: Value, y: Value, z: Value)
    requires FitsKind(s, Many(n), x) && FitsKind(s, Many(n), y) && FitsKind(s, Many(n), z)
    ensures MergeValue(s, MergeValue(s, x, y), z) == MergeValue(s, x, MergeValue(s, y, z))
  {
    forall i | 0 <= i < |z.ms| ensures Copy(s, Copy(s, z.ms[i])) == Copy(s, z.ms[i]) {
      CopyIdempotent(s, z.ms[i]);
    }
    assert Copies(s, y.ms + Copies(s, z.ms)) == Copies(s, y.ms) + Copies(s, z.ms);
    assert (x.ms + Copies(s, y.ms)) + Copies(s, z.ms) == x.ms + (Copies(s, y.ms) + Copies(s, z.ms));
  }

  /** MergeFrom is associative, through all nested messages. */
  lemma {:induction false} MergeAssociative(s: Schema, a: Msg, b: Msg, c: Msg)
    requires Good(s, a) && Good(s, b) && Good(s, c) && a.n == b.n == c.n
    ensures Merge(s, Merge(s, a, b), c) == Merge(s, a, Merge(s, b, c))
    decreases c, 1
  {
    forall i | 0 <= i < |a.fields|
      ensures MergeValue(s, MergeValue(s, a.fields[i], b.fields[i]), c.fields[i]) ==
              MergeValue(s, a.fields[i], MergeValue(s, b.fields[i], c.fields[i]))
    {
      var k := s.cases(a.n)[i].kind;
      assert FitsKind(s, k, a.fields[i]) && FitsKind(s, k, b.fields[i]) && FitsKind(s, k, c.fields[i]);
      match k
      case One(n) => OneAssociative(s, n, a.fields[i], b.fields[i], c.fields[i]);
      case Many(n) => ManyAssociative(s, n, a.fields[i], b.fields[i], c.fields[i]);
      case _ =>
    }
    assert Merge(s, Merge(s, a, b), c).fields == Merge(s, a, Merge(s, b, c)).fields;
    assert (a.unknown + b.unknown) + c.unknown == a.unknown + (b.unknown + c.unknown);
  }

  // ---------------------------------------------------------------- what this says about bytes

  /** Parsing a serialized message into a fresh one gives what CopyFrom gives: the message with its
      negative zeros turned positive. It fails exactly when some string is not valid UTF-8. */
  lemma RoundTrip(s: Schema, b: Msg)
    requires s.Ok() && Good(s, b) && |Serialize(b)| <= MAX_SIZE
    ensures Parse(s, Default(s, b.n), Serialize(b)) == if Utf8Ok(b) then Some(Normal(b)) else None
  {
    DefaultGood(s, b.n);
    SerializeThenParse(s, Default(s, b.n), b);
    CopyIsNormal(s, b);
  }

  /** No float, at any level, is -0.0. */
  ghost predicate ZerosPositive(m: Msg)
    decreases m
  {
    forall i :: 0 <= i < |m.fields| ==> ZerosPositiveValue(m.fields[i])
  }

  ghost predicate ZerosPositiveValue(x: Value)
    decreases x
  {
    match x
    case VFloat(f) => Nonzero(f) || f == ZERO
    case VOne(o) => o.Some? ==> ZerosPositive(o.value)
    case VMany(ms) => forall i :: 0 <= i < |ms| ==> ZerosPositive(ms[i])
    case _ => true
  }

  lemma {:induction false} NormalValueIff(x: Value)
    ensures NormalValue(x) == x <==> ZerosPositiveValue(x)
    decreases x
  {
    match x
    case VOne(o) => if o.Some? { NormalIff(o.value); }
    case VMany(ms) =>
      forall i | 0 <= i < |ms| ensures Normal(ms[i]) == ms[i] <==> ZerosPositive(ms[i]) {
        NormalIff(ms[i]);
      }
      var ns := NormalValue(x).ms;
      assert ns == ms <==> forall i :: 0 <= i < |ms| ==> ns[i] == ms[i];
    case _ =>
  }

  lemma {:induction false} NormalIff(m: Msg)
    ensures Normal(m) == m <==> ZerosPositive(m)
    decreases m
  {
    forall i | 0 <= i < |m.fields| ensures NormalValue(m.fields[i]) == m.fields[i] <==> ZerosPositiveValue(m.fields[i]) {
      NormalValueIff(m.fields[i]);
    }
    var fs := Normal(m).fields;
    assert fs == m.fields <==> forall i :: 0 <= i < |m.fields| ==> fs[i] == m.fields[i];
  }

  /** A message comes back unchanged exactly when its strings are valid UTF-8 and it has no -0.0. */
  lemma RoundTripExact(s: Schema, b: Msg)
    requires s.Ok() && Good(s, b) && |Serialize(b)| <= MAX_SIZE
    ensures Parse(s, Default(s, b.n), Serialize(b)) == Some(b) <==> Utf8Ok(b) && ZerosPositive(b)
  {
    RoundTrip(s, b);
    NormalIff(b);
  }

  /** Parsing one serialized message after another is the same as merging the two messages first and
      parsing the result. */
  lemma ParseTwice(s: Schema, m: Msg, a: Msg, b: Msg)
    requires s.Ok() && Good(s, m) && Good(s, a) && Good(s, b) && m.n == a.n == b.n
    requires Utf8Ok(a) && Utf8Ok(b)
    requires |Serialize(a)| <= MAX_SIZE && |Serialize(b)| <= MAX_SIZE
    ensures Parse(s, m, Serialize(a)).Some?
    ensures Parse(s, Parse(s, m, Serialize(a)).value, Serialize(b)) == Some(Merge(s, m, Merge(s, a, b)))
  {
    SerializeThenParse(s, m, a);
    MergeKeepsGood(s, m, a);
    SerializeThenParse(s, Merge(s, m, a), b);
    MergeAssociative(s, m, a, b);
  }
}
