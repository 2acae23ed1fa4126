/** The wire format that the generated message code reads and writes: base-128 varints, tags and
    records (Protocol Buffers "Encoding" guide, sections "Base 128 Varints", "Message Structure"
    and "Length-Delimited Records"). The reading primitives are partial: `None` stands for the null
    pointer that the parse loops test for. */
module Wire {

  type byte = x: int | 0 <= x < 256
  type Bytes = seq<byte>

  datatype Option<+T> = None | Some(value: T)

  const TWO_32: nat := 0x1_0000_0000
  const TWO_64: nat := 0x1_0000_0000_0000_0000
  /** The largest length prefix that is accepted: INT_MAX less the 16 slop bytes of the reader. */
  const MAX_SIZE: nat := 0x7FFF_FFFF - 16

  /** The longest encodings that are read of a 32-bit and of a 64-bit value. */
  const BYTES_32: nat := 5
  const BYTES_64: nat := 10

  // ---------------------------------------------------------------- varints

  function Varint(v: nat): (r: Bytes)
    ensures |r| >= 1
  {
    if v < 128 then [v] else [v % 128 + 128] + Varint(v / 128)
  }

  /** The value and the length of the varint at the front of `s`, which may take at most `max` bytes.
      Encodings that are longer than needed are accepted. */
  function ReadVarint(s: Bytes, max: nat): (r: Option<(nat, nat)>)
    ensures r.Some? ==> 1 <= r.value.1 <= |s| && r.value.1 <= max
    decreases max
  {
    if s == [] || max == 0 then None
    else if s[0] < 128 then Some((s[0], 1))
    else match ReadVarint(s[1..], max - 1)
      case None => None
      case Some(p) => Some((s[0] - 128 + 128 * p.0, p.1 + 1))
  }

  function Pow128(n: nat): nat {
    if n == 0 then 1 else 128 * Pow128(n - 1)
  }

  lemma {:induction false} VarintRoundTrip(v: nat, max: nat, rest: Bytes)
    requires max > 0 && v < Pow128(max)
    ensures |Varint(v)| <= max
    ensures ReadVarint(Varint(v) + rest, max) == Some((v, |Varint(v)|))
    decreases max
  {
    var s := Varint(v) + rest;
    if v < 128 {
    } else {
      assert v / 128 < Pow128(max - 1);
      VarintRoundTrip(v / 128, max - 1, rest);
      assert s[1..] == Varint(v / 128) + rest;
    }
  }

  // ---------------------------------------------------------------- what the digits mean

  lemma DivideTwice(v: nat, p: nat)
    requires p > 0
    ensures v / 128 / p == v / (128 * p)
  {
    var q := v / 128;
    var t, u := q / p, q % p;
    assert q == p * t + u;
    assert 128 * (p * t) == (128 * p) * t;
    assert v == (128 * p) * t + (128 * u + v % 128);
    QuotientIs(v, 128 * p, t, 128 * u + v % 128);
  }

  lemma QuotientIs(v: nat, d: nat, t: nat, r: nat)
    requires d > 0 && v == d * t + r && r < d
    ensures v / d == t
  {
    var q, u := v / d, v % d;
    assert v == d * q + u;
    if q < t {
      NextMultiple(d, q, t);
    } else if t < q {
      NextMultiple(d, t, q);
    }
  }

  lemma {:induction false} NextMultiple(d: nat, a: nat, b: nat)
    requires a < b
    ensures d * a + d <= d * b
    decreases b
  {
    if b == a + 1 {
    } else {
      NextMultiple(d, a, b - 1);
    }
    assert d * b == d * (b - 1) + d;
  }

  lemma Pow128Positive(n: nat)
    ensures Pow128(n) > 0
  {
  }

  /** The bytes of a varint are the digits of the number to base 128, the lowest first; all but the last
      have their high bit set. */
  lemma {:induction false} VarintDigits(v: nat, k: nat)
    requires k < |Varint(v)|
    ensures Pow128(k) > 0 && Varint(v)[k] % 128 == v / Pow128(k) % 128
    ensures Varint(v)[k] >= 128 <==> k + 1 < |Varint(v)|
    decreases k
  {
    Pow128Positive(k);
    if k == 0 {
    } else {
      VarintDigits(v / 128, k - 1);
      DivideTwice(v, Pow128(k - 1));
    }
  }

  /** No shorter sequence of digits would do. */
  lemma {:induction false} VarintShortest(v: nat)
    ensures v < Pow128(|Varint(v)|)
    ensures |Varint(v)| > 1 ==> Pow128(|Varint(v)| - 1) <= v
  {
    if v < 128 {
      assert Pow128(1) == 128 * Pow128(0);
    } else {
      VarintShortest(v / 128);
      if |Varint(v / 128)| == 1 {
        assert Pow128(1) == 128 * Pow128(0);
      }
    }
  }

  /** The first `n` bytes of `s` as digits to base 128, the lowest first. */
  function DigitSum(s: Bytes, n: nat): nat
    requires n <= |s|
  {
    if n == 0 then 0 else DigitSum(s, n - 1) + s[n - 1] % 128 * Pow128(n - 1)
  }

  lemma {:induction false} DigitSumTail(s: Bytes, n: nat)
    requires 0 < n <= |s|
    ensures DigitSum(s, n) == s[0] % 128 + 128 * DigitSum(s[1..], n - 1)
    decreases n
  {
    if n == 1 {
      assert DigitSum(s, 1) == DigitSum(s, 0) + s[0] % 128 * Pow128(0);
    } else {
      DigitSumTail(s, n - 1);
      var d, p := s[n - 1] % 128, Pow128(n - 2);
      assert s[1..][n - 2] == s[n - 1];
      assert d * (128 * p) == 128 * (d * p);
    }
  }

  lemma DigitSumOne(s: Bytes)
    requires s != []
    ensures DigitSum(s, 1) == s[0] % 128
  {
    assert DigitSum(s, 1) == DigitSum(s, 0) + s[0] % 128 * Pow128(0);
  }

  /** What is read: the value of the digits up to the first byte below 128, however many of them are zero.
      It fails exactly when there is no such byte among the first `max`. */
  lemma {:induction false} ReadVarintDigits(s: Bytes, max: nat)
    ensures var r := ReadVarint(s, max);
            && (r.None? <==> forall k :: 0 <= k < |s| && k < max ==> s[k] >= 128)
            && (r.Some? ==>
                  var (v, n) := r.value;
                  && 0 < n <= |s| && n <= max && s[n - 1] < 128
                  && (forall k :: 0 <= k < n - 1 ==> s[k] >= 128)
                  && v == DigitSum(s, n))
    decreases max
  {
    if s == [] || max == 0 {
    } else if s[0] < 128 {
      DigitSumOne(s);
      hide DigitSum;
    } else {
      hide DigitSum, Pow128;
      ReadVarintDigits(s[1..], max - 1);
      assert forall k :: 0 < k < |s| ==> s[k] == s[1..][k - 1];
      var r := ReadVarint(s[1..], max - 1);
      if r.Some? {
        DigitSumTail(s, r.value.1 + 1);
      }
    }
  }

  /** A tag is the value of at most five digits modulo 2^32, a 64-bit number that of at most ten modulo
      2^64. */
  lemma ReadNumbers(s: Bytes)
    ensures ReadTag(s).Some? ==> var (v, n) := ReadTag(s).value; n <= 5 && v == DigitSum(s, n) % 0x1_0000_0000
    ensures ReadVarint64(s).Some? ==>
              var (v, n) := ReadVarint64(s).value; n <= 10 && v == DigitSum(s, n) % 0x1_0000_0000_0000_0000
    ensures ReadTag(s).None? <==> forall k :: 0 <= k < |s| && k < 5 ==> s[k] >= 128
    ensures ReadVarint64(s).None? <==> forall k :: 0 <= k < |s| && k < 10 ==> s[k] >= 128
  {
    ReadVarintDigits(s, BYTES_32);
    ReadVarintDigits(s, BYTES_64);
    hide DigitSum, ReadVarint;
  }

  /** A length-delimited payload is read exactly when its length is at most 2^31 - 17 and that many bytes
      follow, and it is those bytes. */
  lemma ReadDelimitedExact(s: Bytes)
    ensures var r, size := ReadDelimited(s), ReadVarint(s, 5);
            && (r.Some? <==> size.Some? && size.value.0 <= 0x7FFF_FFEF && size.value.1 + size.value.0 <= |s|)
            && (r.Some? ==>
                  r.value == (s[size.value.1..size.value.1 + size.value.0], size.value.1 + size.value.0))
  {
    hide ReadVarint;
  }

  lemma Pow128Values()
    ensures TWO_32 <= Pow128(BYTES_32) && TWO_64 <= Pow128(BYTES_64)
  {
    assert Pow128(5) == 128 * 128 * 128 * 128 * 128;
    assert Pow128(10) == 128 * 128 * 128 * 128 * 128 * Pow128(5);
  }

  /** A tag takes at most five bytes and is kept modulo 2^32. */
  function ReadTag(s: Bytes): (r: Option<(nat, nat)>)
    ensures r.Some? ==> r.value.0 < TWO_32 && 1 <= r.value.1 <= |s|
  {
    match ReadVarint(s, BYTES_32)
    case None => None
    case Some(p) => Some((p.0 % TWO_32, p.1))
  }

  function ReadVarint64(s: Bytes): (r: Option<(nat, nat)>)
    ensures r.Some? ==> r.value.0 < TWO_64 && 1 <= r.value.1 <= |s|
  {
    match ReadVarint(s, BYTES_64)
    case None => None
    case Some(p) => Some((p.0 % TWO_64, p.1))
  }

  /** The payload of a length-delimited record: the length prefix and that many bytes, which must all
      be there. The result is the payload and the length of prefix and payload together. */
  function ReadDelimited(s: Bytes): (r: Option<(Bytes, nat)>)
    ensures r.Some? ==> |r.value.0| <= MAX_SIZE && |r.value.0| < r.value.1 <= |s|
  {
    match ReadVarint(s, BYTES_32)
    case None => None
    case Some(p) =>
      if p.0 > MAX_SIZE || p.1 + p.0 > |s| then None
      else Some((s[p.1..p.1 + p.0], p.1 + p.0))
  }

  // ---------------------------------------------------------------- records

  datatype Payload = VarintP(v: nat) | Fixed64(b: Bytes) | Delimited(b: Bytes) | Fixed32(b: Bytes)

  datatype Record = Record(number: nat, payload: Payload)

  function WireType(p: Payload): nat {
    match p
    case VarintP(_) => 0
    case Fixed64(_) => 1
    case Delimited(_) => 2
    case Fixed32(_) => 5
  }

  function PayloadSize(p: Payload): nat {
    match p
    case VarintP(_) => 0
    case Fixed64(b) => |b|
    case Delimited(b) => |b|
    case Fixed32(b) => |b|
  }

  predicate PayloadOk(p: Payload) {
    match p
    case VarintP(v) => v < TWO_64
    case Fixed64(b) => |b| == 8
    case Delimited(b) => |b| <= MAX_SIZE
    case Fixed32(b) => |b| == 4
  }

  /** What a record on the wire can hold: a field number from 1 to 2^29 - 1 and a payload in range. */
  predicate RecordOk(r: Record) {
    1 <= r.number < 0x2000_0000 && PayloadOk(r.payload)
  }

  function TagOf(r: Record): nat {
    r.number * 8 + WireType(r.payload)
  }

  function EncodePayload(p: Payload): Bytes {
    match p
    case VarintP(v) => Varint(v)
    case Fixed64(b) => b
    case Delimited(b) => Varint(|b|) + b
    case Fixed32(b) => b
  }

  function EncodeRecord(r: Record): Bytes {
    Varint(TagOf(r)) + EncodePayload(r.payload)
  }

  function EncodeRecords(rs: seq<Record>): Bytes {
    if rs == [] then [] else EncodeRecord(rs[0]) + EncodeRecords(rs[1..])
  }

  /** The payload that a tag of wire type `wire` announces, and its length in bytes. Group tags
      (3 and 4) and the unassigned wire types give `None`. */
  function ReadPayload(wire: nat, s: Bytes): (r: Option<(Payload, nat)>)
    ensures r.Some? ==> PayloadOk(r.value.0) && WireType(r.value.0) == wire
    ensures r.Some? ==> PayloadSize(r.value.0) <= r.value.1 <= |s|
  {
    match wire
    case 0 => (match ReadVarint64(s)
               case None => None
               case Some(p) => Some((VarintP(p.0), p.1)))
    case 1 => if |s| < 8 then None else Some((Fixed64(s[..8]), 8))
    case 2 => (match ReadDelimited(s)
               case None => None
               case Some(p) => Some((Delimited(p.0), p.1)))
    case 5 => if |s| < 4 then None else Some((Fixed32(s[..4]), 4))
    case _ => None
  }

  function ReadRecord(s: Bytes): (r: Option<(Record, nat)>)
    ensures r.Some? ==> RecordOk(r.value.0) && PayloadSize(r.value.0.payload) < r.value.1 <= |s|
  {
    match ReadTag(s)
    case None => None
    case Some(t) =>
      if t.0 / 8 == 0 then None
      else match ReadPayload(t.0 % 8, s[t.1..])
        case None => None
        case Some(p) => Some((Record(t.0 / 8, p.0), t.1 + p.1))
  }

  /** All the records of `s`, or `None` when `s` is not a whole number of readable records. */
  function DecodeRecords(s: Bytes): Option<seq<Record>> {
    if s == [] then Some([])
    else match ReadRecord(s)
      case None => None
      case Some(p) =>
        match DecodeRecords(s[p.1..])
        case None => None
        case Some(rs) => Some([p.0] + rs)
  }

  ghost predicate RecordsOk(rs: seq<Record>) {
    forall i :: 0 <= i < |rs| ==> RecordOk(rs[i])
  }

  // ---------------------------------------------------------------- round trip

  lemma Varint64RoundTrip(v: nat, rest: Bytes)
    requires v < TWO_64
    ensures ReadVarint64(Varint(v) + rest) == Some((v, |Varint(v)|))
  {
    Pow128Values();
    VarintRoundTrip(v, BYTES_64, rest);
  }

  lemma DelimitedRoundTrip(b: Bytes, rest: Bytes)
    requires |b| <= MAX_SIZE
    ensures ReadDelimited(Varint(|b|) + b + rest) == Some((b, |Varint(|b|)| + |b|))
  {
    Pow128Values();
    VarintRoundTrip(|b|, BYTES_32, b + rest);
    var n := |Varint(|b|)|;
    var s := Varint(|b|) + b + rest;
    assert s == Varint(|b|) + (b + rest);
    assert s[n..n + |b|] == b;
  }

  lemma PayloadRoundTrip(p: Payload, rest: Bytes)
    requires PayloadOk(p)
    ensures ReadPayload(WireType(p), EncodePayload(p) + rest) == Some((p, |EncodePayload(p)|))
  {
    match p
    case VarintP(v) => Varint64RoundTrip(v, rest);
    case Delimited(b) => DelimitedRoundTrip(b, rest);
    case Fixed64(b) => assert (b + rest)[..8] == b;
    case Fixed32(b) => assert (b + rest)[..4] == b;
  }

  lemma TagParts(r: Record)
    requires RecordOk(r)
    ensures TagOf(r) / 8 == r.number && TagOf(r) % 8 == WireType(r.payload)
    ensures TagOf(r) < TWO_32
  {
  }

  lemma TagRoundTrip(tag: nat, rest: Bytes)
    requires tag < TWO_32
    ensures ReadTag(Varint(tag) + rest) == Some((tag, |Varint(tag)|))
  {
    Pow128Values();
    VarintRoundTrip(tag, BYTES_32, rest);
  }

  lemma RecordRoundTrip(r: Record, rest: Bytes)
    requires RecordOk(r)
    ensures ReadRecord(EncodeRecord(r) + rest) == Some((r, |EncodeRecord(r)|))
    ensures |EncodeRecord(r)| > PayloadSize(r.payload)
  {
    var tag, tail := Varint(TagOf(r)), EncodePayload(r.payload) + rest;
    TagParts(r);
    TagRoundTrip(TagOf(r), tail);
    assert EncodeRecord(r) + rest == tag + tail;
    assert (tag + tail)[|tag|..] == tail;
    PayloadRoundTrip(r.payload, rest);
  }

  /** Every sequence of records is read back from its encoding. */
  lemma {:induction false} RecordsRoundTrip(rs: seq<Record>)
    requires RecordsOk(rs)
    ensures DecodeRecords(EncodeRecords(rs)) == Some(rs)
  {
    if rs == [] {
    } else {
      var rest := EncodeRecords(rs[1..]);
      RecordRoundTrip(rs[0], rest);
      assert EncodeRecords(rs)[|EncodeRecord(rs[0])|..] == rest;
      RecordsRoundTrip(rs[1..]);
      assert [rs[0]] + rs[1..] == rs;
    }
  }

  lemma {:induction false} DecodedRecordsOk(s: Bytes)
    ensures DecodeRecords(s).Some? ==> RecordsOk(DecodeRecords(s).value)
    decreases |s|
  {
    if s != [] && ReadRecord(s).Some? {
      DecodedRecordsOk(s[ReadRecord(s).value.1..]);
    }
  }

  lemma {:induction false} EncodeAppend(a: seq<Record>, b: seq<Record>)
    ensures EncodeRecords(a + b) == EncodeRecords(a) + EncodeRecords(b)
  {
    if a == [] {
      assert a + b == b;
    } else {
      assert (a + b)[1..] == a[1..] + b;
      EncodeAppend(a[1..], b);
    }
  }

  lemma EncodeOne(r: Record)
    ensures EncodeRecords([r]) == EncodeRecord(r)
  {
    assert EncodeRecords([r][1..]) == [];
  }

  /** Payloads are no longer than the encoding they are part of. */
  lemma {:induction false} EncodedPayloadSize(rs: seq<Record>, i: nat)
    requires i < |rs|
    ensures PayloadSize(rs[i].payload) < |EncodeRecords(rs)|
  {
    if i == 0 {
    } else {
      EncodedPayloadSize(rs[1..], i - 1);
    }
  }
}
