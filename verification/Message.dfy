/** Message values and what the generated code means by serializing, parsing and merging them. The
    functions are stated for any schema; the class in MessageObject.dfy does the same work in place. */
module Message {
  import opened Wire
  import opened Schema
  import Utf8

  /** A float is kept as its four bytes, least significant first. */
  type Float32 = b: Bytes | |b| == 4 witness [0, 0, 0, 0]

  type int32 = x: int | -0x8000_0000 <= x < 0x8000_0000

  datatype Value =
    | VFloat(f: Float32)
    | VEnum(e: int32)
    | VStr(b: Bytes)
    | VOne(o: Option<Msg>)
    | VMany(ms: seq<Msg>)

  /** `fields[i]` is the field with number `i + 1`; `unknown` are the records that no case took. */
  datatype Msg = Msg(n: MsgName, fields: seq<Value>, unknown: seq<Record>)

  const ZERO: Float32 := [0, 0, 0, 0]

  /** The test `!(x <= 0 && x >= 0)`: everything but +0.0 and -0.0, not-a-number included. */
  predicate Nonzero(f: Float32) {
    !(f[0] == 0 && f[1] == 0 && f[2] == 0 && (f[3] == 0 || f[3] == 0x80))
  }

  /** An enum is written as its sign-extended 64-bit value and read back from the low 32 bits. */
  function EnumToVarint(e: int32): (v: nat)
    ensures v < TWO_64
  {
    if e < 0 then TWO_64 + e else e
  }

  function VarintToEnum(v: nat): int32 {
    var low := v % TWO_32;
    if low >= 0x8000_0000 then low - TWO_32 else low
  }

  /** A float counts as zero when all bits of its exponent and fraction are zero, whatever its sign. */
  lemma NonzeroBits(f: Float32)
    ensures Nonzero(f) <==>
            f[0] as int + 0x100 * (f[1] as int) + 0x1_0000 * (f[2] as int) + 0x100_0000 * (f[3] as int % 0x80) != 0
  {
  }

  /** The number on the wire is the enum's modulo 2^64, and what is read is the signed number of 32 bits that
      is the same modulo 2^32. */
  lemma EnumNumbers(e: int32, v: nat)
    ensures (EnumToVarint(e) - e) % TWO_64 == 0 && (e >= 0 ==> EnumToVarint(e) == e)
    ensures (v - VarintToEnum(v)) % TWO_32 == 0
  {
  }

  function DefaultValue(k: Kind): Value {
    match k
    case Float => VFloat(ZERO)
    case Enum => VEnum(0)
    case Str => VStr([])
    case One(_) => VOne(None)
    case Many(_) => VMany([])
  }

  /** A cleared message. */
  function Default(s: Schema, n: MsgName): Msg {
    Msg(n, seq(|s.cases(n)|, i requires 0 <= i < |s.cases(n)| => DefaultValue(s.cases(n)[i].kind)), [])
  }

  // ---------------------------------------------------------------- well-formed messages

  ghost predicate FitsKind(s: Schema, k: Kind, x: Value)
    decreases x
  {
    match k
    case Float => x.VFloat?
    case Enum => x.VEnum?
    case Str => x.VStr?
    case One(n) => x.VOne? && (x.o.Some? ==> x.o.value.n == n && Good(s, x.o.value))
    case Many(n) => x.VMany? && forall i :: 0 <= i < |x.ms| ==> x.ms[i].n == n && Good(s, x.ms[i])
  }

  ghost predicate UnknownOk(s: Schema, n: MsgName, rs: seq<Record>) {
    forall i :: 0 <= i < |rs| ==> RecordOk(rs[i]) && !s.Matches(n, TagOf(rs[i]))
  }

  /** Every field has the kind its schema says, and the unknown records are ones that no case takes. */
  ghost predicate Good(s: Schema, m: Msg)
    decreases m
  {
    && |m.fields| == |s.cases(m.n)|
    && (forall i :: 0 <= i < |m.fields| ==> FitsKind(s, s.cases(m.n)[i].kind, m.fields[i]))
    && UnknownOk(s, m.n, m.unknown)
  }

  /** All strings, at every level, are valid UTF-8. */
  ghost predicate Utf8Ok(m: Msg)
    decreases m
  {
    forall i :: 0 <= i < |m.fields| ==> Utf8OkValue(m.fields[i])
  }

  ghost predicate Utf8OkValue(x: Value)
    decreases x
  {
    match x
    case VStr(b) => Utf8.Valid(b)
    case VOne(o) => o.Some? ==> Utf8Ok(o.value)
    case VMany(ms) => forall i :: 0 <= i < |ms| ==> Utf8Ok(ms[i])
    case _ => true
  }

  // ---------------------------------------------------------------- serializing

  /** The records a field is written as: none for a number that is zero, an empty string or an absent
      submessage, one for each element of a repeated field. */
  function FieldRecords(number: nat, x: Value): seq<Record>
    decreases x, 0
  {
    match x
    case VFloat(f) => if Nonzero(f) then [Record(number, Fixed32(f))] else []
    case VEnum(e) => if e != 0 then [Record(number, VarintP(EnumToVarint(e)))] else []
    case VStr(b) => if b != [] then [Record(number, Delimited(b))] else []
    case VOne(o) => if o.Some? then [Record(number, Delimited(Serialize(o.value)))] else []
    case VMany(ms) => ManyRecords(number, ms)
  }

  function ManyRecords(number: nat, ms: seq<Msg>): seq<Record>
    decreases ms, 0
  {
    if ms == [] then []
    else [Record(number, Delimited(Serialize(ms[0])))] + ManyRecords(number, ms[1..])
  }

  /** The records of the fields from index `i` on, in field-number order, then the unknown ones. */
  function RecordsFrom(m: Msg, i: nat): seq<Record>
    requires i <= |m.fields|
    decreases m, |m.fields| - i
  {
    if i == |m.fields| then m.unknown
    else FieldRecords(i + 1, m.fields[i]) + RecordsFrom(m, i + 1)
  }

  function Serialize(m: Msg): Bytes
    decreases m, |m.fields| + 1
  {
    EncodeRecords(RecordsFrom(m, 0))
  }

  // ---------------------------------------------------------------- parsing

  /** What the case for a field of kind `k` does with its payload. Strings and numbers are replaced, a
      submessage is parsed into the one that is there, a repeated field grows by one. */
  function ApplyValue(s: Schema, k: Kind, x: Value, p: Payload): Option<Value>
    decreases PayloadSize(p), 1
  {
    match (k, p, x)
    case (Float, Fixed32(b), _) => if |b| == 4 then Some(VFloat(b)) else None
    case (Enum, VarintP(v), _) => Some(VEnum(VarintToEnum(v)))
    case (Str, Delimited(b), _) => if Utf8.Valid(b) then Some(VStr(b)) else None
    case (One(n), Delimited(b), VOne(o)) =>
      (match Parse(s, if o.Some? then o.value else Default(s, n), b)
       case None => None
       case Some(y) => Some(VOne(Some(y))))
    case (Many(n), Delimited(b), VMany(ms)) =>
      (match Parse(s, Default(s, n), b)
       case None => None
       case Some(y) => Some(VMany(ms + [y])))
    case _ => None
  }

  /** One turn of the parse loop. */
  function Apply(s: Schema, m: Msg, r: Record): Option<Msg>
    decreases PayloadSize(r.payload), 2
  {
    if s.Matches(m.n, TagOf(r)) then
      var i := TagOf(r) / 8 - 1;
      if i < |m.fields| then
        match ApplyValue(s, s.cases(m.n)[i].kind, m.fields[i], r.payload)
        case None => None
        case Some(x) => Some(m.(fields := m.fields[i := x]))
      else None
    else Some(m.(unknown := m.unknown + [r]))
  }

  /** Parses `b` into `m`, one record per turn. `None` is the failure of the parse. */
  function Parse(s: Schema, m: Msg, b: Bytes): Option<Msg>
    decreases |b|, 0
  {
    if b == [] then Some(m)
    else match ReadRecord(b)
      case None => None
      case Some(p) =>
        match Apply(s, m, p.0)
        case None => None
        case Some(m') => Parse(s, m', b[p.1..])
  }

  /** The same on records that are already separated. */
  function Fold(s: Schema, m: Msg, rs: seq<Record>): Option<Msg>
    decreases |rs|
  {
    if rs == [] then Some(m)
    else match Apply(s, m, rs[0])
      case None => None
      case Some(m') => Fold(s, m', rs[1..])
  }

  // ---------------------------------------------------------------- merging

  function MergeValue(s: Schema, x: Value, y: Value): Value
    decreases y
  {
    match (x, y)
    case (VFloat(_), VFloat(f)) => if Nonzero(f) then y else x
    case (VEnum(_), VEnum(e)) => if e != 0 then y else x
    case (VStr(_), VStr(b)) => if b != [] then y else x
    case (VOne(o), VOne(p)) =>
      if p.Some? then VOne(Some(Merge(s, if o.Some? then o.value else Default(s, p.value.n), p.value)))
      else x
    case (VMany(ms), VMany(ns)) => VMany(ms + seq(|ns|, i requires 0 <= i < |ns| => Copy(s, ns[i])))
    case _ => x
  }

  /** `from` merged into `m`. */
  function Merge(s: Schema, m: Msg, from: Msg): Msg
    decreases from, 0
  {
    Msg(m.n,
        seq(|m.fields|, i requires 0 <= i < |m.fields| =>
          if i < |from.fields| then MergeValue(s, m.fields[i], from.fields[i]) else m.fields[i]),
        m.unknown + from.unknown)
  }

  /** Clear, then merge. */
  function Copy(s: Schema, from: Msg): Msg
    decreases from, 1
  {
    Merge(s, Default(s, from.n), from)
  }
}
