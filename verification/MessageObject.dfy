/** The generated message classes: objects that are parsed into, merged, cleared, sized and written in
    place. One class stands for all of them; which fields an object has and how its parse switch looks
    is given by the tables of its schema. */
module MessageObjects {
  import opened Wire
  import opened Schema
  import opened Message
  import opened Codec
  import opened MessageSteps
  import opened ParseSteps
  import Utf8

  /** The storage of one field. */
  datatype Slot =
    | Scalar(v: Value)
    | One(o: MessageObject?)
    | Many(os: seq<MessageObject>)

  /** The storage of the unknown records: a set of records, or the bytes they are written as. */
  datatype Store = FieldSet(recs: seq<Record>) | Raw(bytes: Bytes)

  ghost predicate StoreOk(store: Store, raw: bool, rs: seq<Record>) {
    match store
    case FieldSet(recs) => !raw && recs == rs
    case Raw(bytes) => raw && bytes == EncodeRecords(rs)
  }

  class MessageObject {
    const schema: Schema
    const n: MsgName
    var slots: seq<Slot>
    var unknown: Store
    var cachedSize: nat

    /** The message that this object holds, the objects it is made of, and those of each field. */
    ghost var val: Msg
    ghost var Repr: set<MessageObject>
    ghost var foot: seq<set<MessageObject>>

    ghost predicate Valid()
      reads this`slots, this`unknown, this`val, this`Repr, this`foot
      reads Repr`slots, Repr`unknown, Repr`val, Repr`Repr, Repr`foot
      ensures Valid() ==>
                this in Repr && val.n == n && |slots| == |foot| == |val.fields| == |schema.cases(n)|
      decreases Repr, 0
    {
      && Shape()
      && (forall i :: 0 <= i < |foot| ==> SlotOk(schema, slots[i], val.fields[i], foot[i]))
    }

    /** The part of validity that concerns this object alone. The submessages of different fields have
        nothing in common. */
    ghost predicate Shape()
      reads this`slots, this`unknown, this`val, this`Repr, this`foot
    {
      && this in Repr
      && val.n == n && Good(schema, val) && StoreOk(unknown, schema.raw, val.unknown)
      && |slots| == |foot| == |val.fields|
      && (forall i :: 0 <= i < |foot| ==> foot[i] <= Repr && this !in foot[i])
      && (forall i, j :: 0 <= i < j < |foot| ==> foot[i] !! foot[j])
    }

    /** Valid, but for field `k`, whose submessages are being changed. */
    ghost predicate ValidBut(k: nat)
      reads this`slots, this`unknown, this`val, this`Repr, this`foot
      reads Repr`slots, Repr`unknown, Repr`val, Repr`Repr, Repr`foot
    {
      && Shape()
      && (forall i :: 0 <= i < |foot| && i != k ==> SlotOk(schema, slots[i], val.fields[i], foot[i]))
    }

    static ghost predicate SlotOk(s: Schema, slot: Slot, x: Value, foot: set<MessageObject>)
      reads foot`slots, foot`unknown, foot`val, foot`Repr, foot`foot
      decreases foot, 2
    {
      match slot
      case Scalar(v) => x == v && !v.VOne? && !v.VMany?
      case One(o) => if o == null then x == VOne(None) else ChildOk(s, o, foot) && x == VOne(Some(o.val))
      case Many(os) =>
        && x.VMany? && |x.ms| == |os|
        && (forall j :: 0 <= j < |os| ==> ChildOk(s, os[j], foot) && os[j].val == x.ms[j])
        && (forall j, k :: 0 <= j < k < |os| ==> os[j].Repr !! os[k].Repr)
    }

    static ghost predicate ChildOk(s: Schema, o: MessageObject, foot: set<MessageObject>)
      reads foot`slots, foot`unknown, foot`val, foot`Repr, foot`foot
      ensures ChildOk(s, o, foot) ==> o in foot
      decreases foot, 1
    {
      && o in foot && o.Repr <= foot && o.schema == s && o.Valid()
    }

    static function DefaultSlot(k: Kind): Slot {
      match k
      case One(_) => Slot.One(null)
      case Many(_) => Slot.Many([])
      case _ => Scalar(DefaultValue(k))
    }

    constructor (schema: Schema, n: MsgName)
      ensures Valid() && fresh(Repr) && this.schema == schema && this.n == n
      ensures val == Default(schema, n)
    {
      this.schema, this.n := schema, n;
      slots := seq(|schema.cases(n)|, i requires 0 <= i < |schema.cases(n)| => DefaultSlot(schema.cases(n)[i].kind));
      unknown := if schema.raw then Raw([]) else FieldSet([]);
      cachedSize := 0;
      val, Repr := Default(schema, n), {this};
      foot := seq(|schema.cases(n)|, i => {});
      new;
      DefaultGood(schema, n);
    }

    method Clear()
      requires Valid()
      modifies this
      ensures Valid() && Repr == {this}
      ensures val == Default(schema, n)
    {
      slots := seq(|schema.cases(n)|, i requires 0 <= i < |schema.cases(n)| => DefaultSlot(schema.cases(n)[i].kind));
      unknown := if schema.raw then Raw([]) else FieldSet([]);
      val, Repr := Default(schema, n), {this};
      foot := seq(|schema.cases(n)|, i => {});
      DefaultGood(schema, n);
    }

    /** Assigns a number, an enum or a string. */
    method SetScalar(i: nat, v: Value)
      requires Valid() && i < |slots|
      requires FitsKind(schema, schema.cases(n)[i].kind, v) && !v.VOne? && !v.VMany?
      modifies this`slots, this`val
      ensures Valid() && |old(val).fields| == |slots|
      ensures val == WithField(old(val), i, v)
    {
      slots := slots[i := Scalar(v)];
      val := WithField(val, i, v);
    }

    method AddUnknown(r: Record)
      requires Valid() && RecordOk(r) && !schema.Matches(n, TagOf(r))
      modifies this`unknown, this`val
      ensures Valid()
      ensures val == old(val).(unknown := old(val).unknown + [r])
    {
      unknown := match unknown
        case FieldSet(recs) => FieldSet(recs + [r])
        case Raw(bytes) => Raw(bytes + EncodeRecord(r));
      EncodeAppend(val.unknown, [r]);
      EncodeOne(r);
      val := val.(unknown := val.unknown + [r]);
    }

    // -------------------------------------------------------------- submessages

    /** The submessage of field `i`, made on first use. */
    method MutableOne(i: nat) returns (child: MessageObject)
      requires Valid() && i < |slots| && schema.cases(n)[i].kind.One?
      modifies this
      ensures Valid() && fresh(Repr - old(Repr))
      ensures slots[i] == Slot.One(child) && i < |foot| && ChildOk(schema, child, foot[i])
      ensures child.n == schema.cases(n)[i].kind.n
      ensures old(val).fields[i].VOne? && |val.fields| == |old(val).fields|
      ensures val == WithField(old(val), i, VOne(Some(child.val)))
      ensures child.val == if old(val).fields[i].o.Some? then old(val).fields[i].o.value
                           else Default(schema, child.n)
    {
      assert FitsKind(schema, schema.cases(n)[i].kind, val.fields[i]);
      if slots[i].o != null {
        child := slots[i].o;
        assert SlotOk(schema, slots[i], val.fields[i], foot[i]);
        assert child.Valid();
        assert val.fields[i := VOne(Some(child.val))] == val.fields;
      } else {
        assert SlotOk(schema, slots[i], val.fields[i], foot[i]);
        child := MakeOne(i);
      }
    }

    method MakeOne(i: nat) returns (child: MessageObject)
      requires Valid() && i < |slots| && schema.cases(n)[i].kind.One?
      modifies this
      ensures Valid() && fresh(Repr - old(Repr))
      ensures slots[i] == Slot.One(child) && i < |foot| && ChildOk(schema, child, foot[i])
      ensures child.n == schema.cases(n)[i].kind.n && child.val == Default(schema, child.n)
      ensures |val.fields| == |old(val).fields| && val == WithField(old(val), i, VOne(Some(child.val)))
    {
      child := new MessageObject(schema, schema.cases(n)[i].kind.n);
      GoodMade(schema, val, i, child.val);
      slots := slots[i := Slot.One(child)];
      foot := foot[i := child.Repr];
      Repr := Repr + child.Repr;
      val := WithField(val, i, VOne(Some(child.val)));
    }

    static lemma GoodMade(s: Schema, m: Msg, i: nat, y: Msg)
      requires Good(s, m) && Good(s, y) && i < |m.fields| == |s.cases(m.n)| && s.cases(m.n)[i].kind == Kind.One(y.n)
      ensures Good(s, WithField(m, i, VOne(Some(y))))
    {
    }

    /** Makes the object valid again after the submessage of field `i` has changed. */
    ghost method OneChanged(i: nat, child: MessageObject)
      requires ValidBut(i) && i < |foot| && slots[i] == Slot.One(child)
      requires child.Valid() && child.schema == schema && schema.cases(n)[i].kind == Kind.One(child.n)
      requires this !in child.Repr
      requires forall j :: 0 <= j < |foot| && j != i ==> foot[j] !! child.Repr
      modifies this`val, this`foot, this`Repr
      ensures Valid() && Repr == old(Repr) + child.Repr
      ensures val == WithField(old(val), i, VOne(Some(child.val)))
    {
      val := WithField(val, i, VOne(Some(child.val)));
      foot := foot[i := foot[i] + child.Repr];
      Repr := Repr + child.Repr;
    }

    /** Appends a new element to the repeated field `i`. The object is valid again after `ManyGrown`. */
    method AddElement(i: nat) returns (child: MessageObject)
      requires Valid() && i < |slots| && schema.cases(n)[i].kind.Many?
      modifies this`slots
      ensures ValidBut(i) && i < |foot| && old(slots[i]).Many?
      ensures slots == old(slots)[i := Slot.Many(old(slots[i]).os + [child])]
      ensures SlotOk(schema, Slot.Many(old(slots[i]).os), val.fields[i], foot[i])
      ensures fresh(child) && fresh(child.Repr) && child.Valid()
      ensures child.schema == schema && child.n == schema.cases(n)[i].kind.n
      ensures child.val == Default(schema, child.n)
    {
      assert FitsKind(schema, schema.cases(n)[i].kind, val.fields[i]);
      assert SlotOk(schema, slots[i], val.fields[i], foot[i]);
      hide Default, Good, StoreOk, FitsKind;
      child := new MessageObject(schema, schema.cases(n)[i].kind.n);
      slots := slots[i := Slot.Many(slots[i].os + [child])];
    }

    /** A repeated field with one more element is still sound, and still fits. */
    static lemma SlotGrown(s: Schema, os: seq<MessageObject>, x: Value, foot: set<MessageObject>, child: MessageObject)
      requires SlotOk(s, Slot.Many(os), x, foot) && child.Valid() && child.schema == s && foot !! child.Repr
      ensures x.VMany?
      ensures SlotOk(s, Slot.Many(os + [child]), VMany(x.ms + [child.val]), foot + child.Repr)
    {
      hide Good, StoreOk;
    }

    static lemma GoodGrown(s: Schema, m: Msg, i: nat, y: Msg)
      requires Good(s, m) && Good(s, y) && i < |m.fields| == |s.cases(m.n)| && s.cases(m.n)[i].kind == Kind.Many(y.n)
      ensures m.fields[i].VMany? && Good(s, WithField(m, i, VMany(m.fields[i].ms + [y])))
    {
      assert FitsKind(s, s.cases(m.n)[i].kind, m.fields[i]);
    }

    /** Makes the object valid again after `child` was appended to field `i` and changed. */
    ghost method ManyGrown(i: nat, os: seq<MessageObject>, child: MessageObject)
      requires ValidBut(i) && i < |foot| && slots[i] == Slot.Many(os + [child])
      requires SlotOk(schema, Slot.Many(os), val.fields[i], foot[i])
      requires child.Valid() && child.schema == schema && schema.cases(n)[i].kind == Kind.Many(child.n)
      requires this !in child.Repr && Repr !! child.Repr
      modifies this`val, this`foot, this`Repr
      ensures Valid() && Repr == old(Repr) + child.Repr
      ensures old(val).fields[i].VMany?
      ensures val == WithField(old(val), i, VMany(old(val).fields[i].ms + [child.val]))
    {
      SlotGrown(schema, os, val.fields[i], foot[i], child);
      GoodGrown(schema, val, i, child.val);
      hide SlotOk, Good, StoreOk, FitsKind;
      val := WithField(val, i, VMany(val.fields[i].ms + [child.val]));
      foot := foot[i := foot[i] + child.Repr];
      Repr := Repr + child.Repr;
    }

    // -------------------------------------------------------------- parsing

    /** Parses `b` into the submessage of field `i`. */
    method ParseOne(i: nat, b: Bytes) returns (ok: bool)
      requires schema.Ok() && Valid() && i < |slots| && schema.cases(n)[i].kind.One?
      modifies Repr
      ensures Valid() && fresh(Repr - old(Repr))
      ensures |old(val).fields| == |schema.cases(n)|
      ensures var r := ApplyValue(schema, schema.cases(n)[i].kind, old(val).fields[i], Delimited(b));
              && (ok <==> r.Some?)
              && (ok ==> val == WithField(old(val), i, r.value))
      decreases |b|, 4
    {
      hide Parse, Default, Good, FitsKind;
      var child := MutableOne(i);
      assert child.Valid() && foot[i] <= Repr;
      ok := child.InternalParse(b);
      OneChanged(i, child);
    }

    /** Parses `b` into a new element of the repeated field `i`. */
    method ParseMany(i: nat, b: Bytes) returns (ok: bool)
      requires schema.Ok() && Valid() && i < |slots| && schema.cases(n)[i].kind.Many?
      modifies Repr
      ensures Valid() && fresh(Repr - old(Repr))
      ensures |old(val).fields| == |schema.cases(n)|
      ensures var r := ApplyValue(schema, schema.cases(n)[i].kind, old(val).fields[i], Delimited(b));
              && (ok <==> r.Some?)
              && (ok ==> val == WithField(old(val), i, r.value))
      decreases |b|, 4
    {
      hide Parse, Default, Good, StoreOk, FitsKind, ChildOk;
      ghost var os := if slots[i].Many? then slots[i].os else [];
      var child := AddElement(i);
      ok := child.InternalParse(b);
      ManyGrown(i, os, child);
    }

    /** Reads the payload of field `i` at position `p` and stores it. */
    method ParseCase(i: nat, b: Bytes, p: nat) returns (ok: bool, q: nat)
      requires schema.Ok() && Valid() && i < |slots| && p <= |b| && p > 0
      modifies Repr
      ensures Valid() && fresh(Repr - old(Repr))
      ensures |old(val).fields| == |schema.cases(n)|
      ensures var r := CaseResult(schema, schema.cases(n)[i].kind, old(val).fields[i], b[p..]);
              && (ok <==> r.Some?)
              && (ok ==> val == WithField(old(val), i, r.value.0) && q == p + r.value.1)
      decreases |b|, 0
    {
      var rest := b[p..];
      ok, q := false, p;
      match schema.cases(n)[i].kind
      case Float =>
        if |rest| >= 4 {
          SetScalar(i, VFloat(rest[..4]));
          ok, q := true, p + 4;
        }
      case Enum =>
        var v := ReadVarint64(rest);
        if v.Some? {
          SetScalar(i, VEnum(VarintToEnum(v.value.0)));
          ok, q := true, p + v.value.1;
        }
      case Str =>
        var d := ReadDelimited(rest);
        if d.Some? && Utf8.Valid(d.value.0) {
          SetScalar(i, VStr(d.value.0));
          ok, q := true, p + d.value.1;
        }
      case One(_) =>
        var d := ReadDelimited(rest);
        if d.Some? {
          ok := ParseOne(i, d.value.0);
          q := p + d.value.1;
        }
      case Many(_) =>
        var d := ReadDelimited(rest);
        if d.Some? {
          ok := ParseMany(i, d.value.0);
          q := p + d.value.1;
        }
    }

    /** The inner loop for a repeated field: after one element it goes on with the next as long as the
        next byte is the field's tag, without going through the switch again. `p` is just behind the
        first tag. */
    method ParseRun(i: nat, b: Bytes, p: nat) returns (ok: bool, q: nat)
      requires schema.Ok() && Valid() && i < |slots| && schema.cases(n)[i].kind.Many? && 0 < p <= |b|
      modifies Repr
      ensures Valid() && fresh(Repr - old(Repr))
      ensures |old(val).fields| == |schema.cases(n)|
      ensures !ok ==> AfterTag(schema, old(val), i, b, p).None?
      ensures ok ==> p < q <= |b| && AfterTag(schema, old(val), i, b, p) == Parse(schema, val, b[q..])
      decreases |b|, 1
    {
      hide Valid, Parse, AfterTag, CaseResult, Good;
      var again := true;
      ok, q := true, p - 1;
      while again
        invariant Valid() && fresh(Repr - old(Repr)) && ok
        invariant if again then p - 1 <= q < |b| else p < q <= |b|
        invariant AfterTag(schema, old(val), i, b, p) ==
                  if again then AfterTag(schema, val, i, b, q + 1) else Parse(schema, val, b[q..])
        decreases again, |b| - q
      {
        q := q + 1;
        AfterTagUnfolds(schema, val, i, b, q);
        ok, q := ParseCase(i, b, q);
        if !ok {
          return;
        }
        again := q < |b| && b[q] == schema.cases(n)[i].tag;
        if again {
          FastPath(schema, val, i, b, q);
        }
      }
    }

    /** One turn of the parse loop, from position `p`: reads a tag and goes through the switch. It fails
        where the generated code goes on with a null pointer, and also where that code stops at a zero
        or end-group tag, because its callers do not accept that. */
    method ParseTurn(b: Bytes, p: nat) returns (ok: bool, q: nat)
      requires schema.Ok() && Valid() && p < |b|
      modifies Repr
      ensures Valid() && fresh(Repr - old(Repr))
      ensures !ok ==> Parse(schema, old(val), b[p..]).None?
      ensures ok ==> p < q <= |b| && Parse(schema, old(val), b[p..]) == Parse(schema, val, b[q..])
      decreases |b|, 2
    {
      hide Valid, Parse, CaseResult, ApplyValue, ReadPayload, ReadTag, Good;
      var t := ReadTag(b[p..]);
      if t.None? {
        NoTag(schema, val, b[p..]);
        return false, p;
      }
      var tag := t.value.0;
      q := p + t.value.1;
      if schema.Matches(n, tag) {
        MatchedTurn(schema, val, b, p);
        if schema.cases(n)[tag / 8 - 1].kind.Many? {
          ok, q := ParseRun(tag / 8 - 1, b, q);
        } else {
          AfterTagUnfolds(schema, val, tag / 8 - 1, b, q);
          ok, q := ParseCase(tag / 8 - 1, b, q);
        }
      } else if tag == 0 || tag % 8 == 4 {
        UnmatchedTurn(schema, val, b, p);
        return false, p;
      } else {
        UnmatchedTurn(schema, val, b, p);
        var u := ReadPayload(tag % 8, b[q..]);
        ok := tag / 8 != 0 && u.Some?;
        if ok {
          AddUnknown(Record(tag / 8, u.value.0));
          q := q + u.value.1;
        }
      }
    }

    method InternalParse(b: Bytes) returns (ok: bool)
      requires schema.Ok() && Valid()
      modifies Repr
      ensures Valid() && fresh(Repr - old(Repr))
      ensures ok <==> Parse(schema, old(val), b).Some?
      ensures ok ==> val == Parse(schema, old(val), b).value
      decreases |b|, 3
    {
      hide Valid, Good;
      var p := 0;
      ok := true;
      assert b[0..] == b;
      while p < |b|
        invariant Valid() && fresh(Repr - old(Repr)) && ok
        invariant p <= |b| && Parse(schema, old(val), b) == Parse(schema, val, b[p..])
      {
        ok, p := ParseTurn(b, p);
        if !ok {
          return;
        }
      }
    }

    // -------------------------------------------------------------- merging

    /** `from` is another message of the same class, with no part in common with this one. */
    ghost predicate MergeableFrom(from: MessageObject)
      reads this`Repr, from`slots, from`unknown, from`val, from`Repr, from`foot
      reads from.Repr`slots, from.Repr`unknown, from.Repr`val, from.Repr`Repr, from.Repr`foot
    {
      from.Valid() && from.schema == schema && from.n == n && Repr !! from.Repr
    }

    method MergeUnknown(from: MessageObject)
      requires Valid() && MergeableFrom(from)
      modifies this`unknown, this`val
      ensures Valid()
      ensures val == old(val).(unknown := old(val).unknown + from.val.unknown)
    {
      hide SlotOk, EncodeRecords;
      EncodeAppend(val.unknown, from.val.unknown);
      unknown := match (unknown, from.unknown)
        case (FieldSet(a), FieldSet(b)) => FieldSet(a + b)
        case (Raw(a), Raw(b)) => Raw(a + b)
        case _ => unknown;
      val := val.(unknown := val.unknown + from.val.unknown);
    }

    static lemma OneOk(o: MessageObject, i: nat)
      requires o.Valid() && i < |o.slots| && o.slots[i].One?
      ensures o.val.fields[i].VOne? && (o.val.fields[i].o.Some? <==> o.slots[i].o != null)
      ensures o.slots[i].o != null ==>
                var child := o.slots[i].o;
                && child.Valid() && child.schema == o.schema && child.Repr <= o.Repr
                && o.val.fields[i].o == Some(child.val) && child.val.n == child.n
                && (o.schema.cases(o.n)[i].kind.One? ==> o.schema.cases(o.n)[i].kind.n == child.n)
    {
      assert SlotOk(o.schema, o.slots[i], o.val.fields[i], o.foot[i]);
      assert FitsKind(o.schema, o.schema.cases(o.n)[i].kind, o.val.fields[i]);
    }

    lemma SlotOfKind(i: nat)
      requires Valid() && i < |slots|
      ensures match schema.cases(n)[i].kind
              case One(_) => slots[i].One? && val.fields[i].VOne?
              case Many(_) => slots[i].Many? && val.fields[i].VMany?
              case _ => slots[i].Scalar? && val.fields[i] == slots[i].v
    {
      assert SlotOk(schema, slots[i], val.fields[i], foot[i]);
      assert FitsKind(schema, schema.cases(n)[i].kind, val.fields[i]);
    }

    method MergeOne(i: nat, from: MessageObject)
      requires schema.Ok() && schema.OrderOk() && Valid() && MergeableFrom(from)
      requires i < |slots| && schema.cases(n)[i].kind.One?
      modifies Repr
      ensures Valid() && fresh(Repr - old(Repr))
      ensures |old(val).fields| == |from.val.fields| == |schema.cases(n)|
      ensures val == WithField(old(val), i, MergeValue(schema, old(val).fields[i], from.val.fields[i]))
      decreases Rank(n), 0
    {
      hide SlotOk, Merge, Default, Good;
      assert schema.CaseOk(n, i, schema.cases(n)[i]);
      SlotOfKind(i);
      from.SlotOfKind(i);
      OneOk(from, i);
      if from.slots[i].o != null {
        var child := MutableOne(i);
        OneOk(this, i);
        child.MergeFrom(from.slots[i].o);
        OneChanged(i, child);
      } else {
        assert val.fields[i := val.fields[i]] == val.fields;
      }
    }

    static lemma ElementOk(o: MessageObject, i: nat, k: nat)
      requires o.Valid() && i < |o.slots| && o.slots[i].Many? && k < |o.slots[i].os|
      ensures var elem := o.slots[i].os[k];
              && elem.Valid() && elem.schema == o.schema && elem.Repr <= o.Repr
              && o.val.fields[i].VMany? && |o.val.fields[i].ms| == |o.slots[i].os|
              && o.val.fields[i].ms[k] == elem.val && elem.val.n == elem.n
              && (o.schema.cases(o.n)[i].kind.Many? ==> o.schema.cases(o.n)[i].kind.n == elem.n)
    {
      assert SlotOk(o.schema, o.slots[i], o.val.fields[i], o.foot[i]);
      assert FitsKind(o.schema, o.schema.cases(o.n)[i].kind, o.val.fields[i]);
    }

    /** Appends copies of the elements of a repeated field. */
    method MergeMany(i: nat, from: MessageObject)
      requires schema.Ok() && schema.OrderOk() && Valid() && MergeableFrom(from)
      requires i < |slots| && schema.cases(n)[i].kind.Many?
      modifies Repr
      ensures Valid() && fresh(Repr - old(Repr))
      ensures |old(val).fields| == |from.val.fields| == |schema.cases(n)|
      ensures val == WithField(old(val), i, MergeValue(schema, old(val).fields[i], from.val.fields[i]))
      decreases Rank(n), 1
    {
      assert FitsKind(schema, schema.cases(n)[i].kind, val.fields[i]);
      assert FitsKind(schema, schema.cases(n)[i].kind, from.val.fields[i]);
      assert SlotOk(schema, from.slots[i], from.val.fields[i], from.foot[i]);
      ghost var ms := from.val.fields[i].ms;
      var k := 0;
      assert old(val).fields[i].ms + Copies(schema, ms[..0]) == old(val).fields[i].ms;
      assert old(val).fields[i := old(val).fields[i]] == old(val).fields;
      while k < |from.slots[i].os|
        invariant Valid() && fresh(Repr - old(Repr)) && MergeableFrom(from) && k <= |from.slots[i].os|
        invariant val == WithField(old(val), i, VMany(old(val).fields[i].ms + Copies(schema, ms[..k])))
      {
        ElementOk(from, i, k);
        AppendCopy(i, from.slots[i].os[k]);
        CopiesStep(schema, ms, k);
        ghost var before := old(val).fields[i].ms;
        assert (before + Copies(schema, ms[..k])) + [Copy(schema, ms[k])] == before + Copies(schema, ms[..k + 1]);
        k := k + 1;
      }
      assert ms[..k] == ms;
    }

    /** Appends a copy of `elem` to the repeated field `i`. */
    method AppendCopy(i: nat, elem: MessageObject)
      requires schema.Ok() && schema.OrderOk() && Valid()
      requires i < |slots| && schema.cases(n)[i].kind == Kind.Many(elem.n)
      requires elem.Valid() && elem.schema == schema && Repr !! elem.Repr
      modifies Repr
      ensures Valid() && fresh(Repr - old(Repr))
      ensures |old(val).fields| == |schema.cases(n)| && old(val).fields[i].VMany?
      ensures val == WithField(old(val), i, VMany(old(val).fields[i].ms + [Copy(schema, elem.val)]))
      decreases Rank(n), 0
    {
      hide Merge, Default, MergeValue;
      assert schema.CaseOk(n, i, schema.cases(n)[i]);
      hide Good, StoreOk, FitsKind, ChildOk;
      ghost var os := if slots[i].Many? then slots[i].os else [];
      var child := AddElement(i);
      child.MergeFrom(elem);
      ManyGrown(i, os, child);
    }

    method MergeField(i: nat, from: MessageObject)
      requires schema.Ok() && schema.OrderOk() && Valid() && MergeableFrom(from) && i < |slots|
      modifies Repr
      ensures Valid() && fresh(Repr - old(Repr))
      ensures |old(val).fields| == |from.val.fields| == |schema.cases(n)|
      ensures val == WithField(old(val), i, MergeValue(schema, old(val).fields[i], from.val.fields[i]))
      decreases Rank(n), 2
    {
      assert FitsKind(schema, schema.cases(n)[i].kind, val.fields[i]);
      assert FitsKind(schema, schema.cases(n)[i].kind, from.val.fields[i]);
      if schema.cases(n)[i].kind.One? {
        MergeOne(i, from);
      } else if schema.cases(n)[i].kind.Many? {
        MergeMany(i, from);
      } else {
        assert SlotOk(schema, from.slots[i], from.val.fields[i], from.foot[i]);
        var v := from.slots[i].v;
        var present := match v
          case VFloat(f) => Nonzero(f)
          case VEnum(e) => e != 0
          case VStr(b) => b != []
          case _ => false;
        if present {
          SetScalar(i, v);
        } else {
          assert val.fields[i := val.fields[i]] == val.fields;
        }
      }
    }

    /** Merges the unknown records and then the fields, in layout order. */
    method MergeFrom(from: MessageObject)
      requires schema.Ok() && schema.OrderOk() && Valid() && MergeableFrom(from)
      modifies Repr
      ensures Valid() && fresh(Repr - old(Repr))
      ensures val == Merge(schema, old(val), from.val)
      decreases Rank(n), 3
    {
      hide Valid, Good, SlotOk, Shape, Merge, MergeValue, PartMerge;
      ghost var start := val;
      MergeUnknown(from);
      PartMergeNone(schema, start, from.val);
      var order := schema.order(n);
      assert IsFieldOrder(order, |schema.cases(n)|);
      var k := 0;
      assert order[..0] == [];
      while k < |order|
        invariant Valid() && fresh(Repr - old(Repr)) && MergeableFrom(from) && k <= |order|
        invariant |start.fields| == |from.val.fields| == |schema.cases(n)|
        invariant val == PartMerge(schema, start, from.val, order[..k])
      {
        PartMergeStep(schema, start, from.val, order, k);
        MergeField(order[k] - 1, from);
        k := k + 1;
      }
      assert order[..k] == order;
      PartMergeAll(schema, start, from.val, order);
    }

    /** Clears this object and merges `from` into it; copying from itself does nothing. */
    method CopyFrom(from: MessageObject)
      requires schema.Ok() && schema.OrderOk() && Valid()
      requires from == this || MergeableFrom(from)
      modifies Repr
      ensures Valid() && fresh(Repr - old(Repr))
      ensures val == if from == this then old(val) else Copy(schema, from.val)
    {
      if from == this {
        return;
      }
      Clear();
      MergeFrom(from);
    }

    // -------------------------------------------------------------- sizes

    /** Every cached size, here and in all submessages, is the length of what will be written. */
    ghost predicate Sized()
      reads this`slots, this`val, this`Repr, this`foot, this`cachedSize
      reads Repr`slots, Repr`val, Repr`Repr, Repr`foot, Repr`cachedSize
      decreases Repr, 0
    {
      && this in Repr && |foot| == |slots|
      && cachedSize == |Serialize(val)|
      && (forall i :: 0 <= i < |foot| ==> foot[i] <= Repr && this !in foot[i])
      && (forall i :: 0 <= i < |foot| ==> SlotSized(slots[i], foot[i]))
    }

    static ghost predicate SlotSized(slot: Slot, foot: set<MessageObject>)
      reads foot`slots, foot`val, foot`Repr, foot`foot, foot`cachedSize
      decreases foot, 2
    {
      match slot
      case Scalar(_) => true
      case One(o) => o != null ==> ChildSized(o, foot)
      case Many(os) => forall j :: 0 <= j < |os| ==> ChildSized(os[j], foot)
    }

    static ghost predicate ChildSized(o: MessageObject, foot: set<MessageObject>)
      reads foot`slots, foot`val, foot`Repr, foot`foot, foot`cachedSize
      decreases foot, 1
    {
      o in foot && o.Repr <= foot && o.Sized()
    }

    /** The contribution of field `i` to the size; the caches of its submessages are filled on the way. */
    method FieldSize(i: nat) returns (size: nat)
      requires schema.Ok() && schema.OrderOk() && Valid() && i < |slots|
      modifies foot[i]`cachedSize
      ensures SlotSized(slots[i], foot[i])
      ensures size == FieldBytes(val, i)
      decreases Rank(n), 1
    {
      assert SlotOk(schema, slots[i], val.fields[i], foot[i]);
      assert schema.CaseOk(n, i, schema.cases(n)[i]);
      assert FitsKind(schema, schema.cases(n)[i].kind, val.fields[i]);
      var cost := schema.cost(n, i + 1);
      match slots[i]
      case Scalar(v) =>
        ScalarBytes(schema, val, i);
        size := ScalarSize(cost, v);
      case One(o) =>
        OneBytes(schema, val, i);
        size := 0;
        if o != null {
          var s := o.ByteSizeLong();
          size := cost + DelimitedSize(s);
        }
      case Many(os) =>
        size := RepeatedSize(i);
    }

    method RepeatedSize(i: nat) returns (size: nat)
      requires schema.Ok() && schema.OrderOk() && Valid() && i < |slots| && slots[i].Many?
      modifies foot[i]`cachedSize
      ensures SlotSized(slots[i], foot[i])
      ensures size == FieldBytes(val, i)
      decreases Rank(n), 0
    {
      hide EncodeRecords, ManyRecords, Serialize;
      assert SlotOk(schema, slots[i], val.fields[i], foot[i]);
      assert schema.CaseOk(n, i, schema.cases(n)[i]);
      assert FitsKind(schema, schema.cases(n)[i].kind, val.fields[i]);
      var os := slots[i].os;
      ghost var ms := val.fields[i].ms;
      size := 1 * |os|;
      var k := 0;
      assert ms[..0] == [];
      ManyBytesNone(i + 1);
      while k < |os|
        invariant k <= |os| && Valid()
        invariant forall j :: 0 <= j < k ==> ChildSized(os[j], foot[i])
        invariant size == |EncodeRecords(ManyRecords(i + 1, ms[..k]))| + |os| - k
      {
        ElementOk(this, i, k);
        var s := os[k].ByteSizeLong();
        ManyBytesStep(schema, n, i, ms, k);
        size := size + DelimitedSize(s);
        k := k + 1;
      }
      assert ms[..k] == ms;
    }

    /** The sizes of all fields, added up in layout order. */
    method FieldSizes() returns (total: nat)
      requires schema.Ok() && schema.OrderOk() && Valid()
      modifies (Repr - {this})`cachedSize
      ensures forall i :: 0 <= i < |slots| ==> SlotSized(slots[i], foot[i])
      ensures IsFieldOrder(schema.order(n), |val.fields|)
      ensures total == Total(AllFieldBytes(val), schema.order(n))
      decreases Rank(n), 2
    {
      hide Good, SlotOk, SlotSized, FieldBytes, AllFieldBytes, Total;
      var order := schema.order(n);
      assert IsFieldOrder(order, |schema.cases(n)|);
      total := 0;
      var k := 0;
      TotalNone(AllFieldBytes(val), order);
      while k < |order|
        invariant k <= |order| && Valid()
        invariant forall j :: 0 <= j < k ==> SlotSized(slots[order[j] - 1], foot[order[j] - 1])
        invariant total == Total(AllFieldBytes(val), order[..k])
      {
        var size := FieldSize(order[k] - 1);
        TotalStep(val, order, k);
        total := total + size;
        k := k + 1;
      }
      assert order[..k] == order;
      forall i | 0 <= i < |slots| ensures SlotSized(slots[i], foot[i]) {
        assert i + 1 in order;
        var j :| 0 <= j < |order| && order[j] == i + 1;
      }
    }

    /** Adds up the sizes of the fields and of the unknown records, and remembers the sum. */
    method ByteSizeLong() returns (total: nat)
      requires schema.Ok() && schema.OrderOk() && Valid()
      modifies Repr`cachedSize
      ensures Sized()
      ensures total == |Serialize(val)|
      decreases Rank(n), 3
    {
      hide Good, SlotOk, EncodeRecords, Total, Serialize, SlotSized;
      total := FieldSizes();
      SizeInLayoutOrder(val, schema.order(n));
      total := total + match unknown
        case FieldSet(recs) => |EncodeRecords(recs)|
        case Raw(bytes) => |bytes|;
      cachedSize := total;
    }

    // -------------------------------------------------------------- writing

    /** Writes a submessage of field `i`: tag, length and content. The length is the one that the
        submessage remembers, not one that is computed here. */
    method WriteMessage(i: nat, child: MessageObject) returns (out: Bytes)
      requires schema.Ok() && i < |schema.cases(n)| && WireOf(schema.cases(n)[i].kind) == 2
      requires child.Valid() && child.Sized() && child.schema == schema && Rank(child.n) < Rank(n)
      ensures out == EncodeRecords([Record(i + 1, Delimited(Serialize(child.val)))])
      decreases Rank(n), 0
    {
      hide EncodeRecords, Serialize, Varint;
      var content := child.InternalSerialize();
      out := Varint(8 * (i + 1) + WireOf(schema.cases(n)[i].kind)) + (Varint(child.cachedSize) + content);
      OneRecordWritten(schema, n, i, Delimited(Serialize(child.val)));
    }

    method WriteRepeated(i: nat) returns (out: Bytes)
      requires schema.Ok() && Valid() && Sized() && i < |slots| && slots[i].Many?
      ensures out == EncodeRecords(FieldRecords(i + 1, val.fields[i]))
      decreases Rank(n), 1
    {
      hide EncodeRecords, Serialize, ManyRecords;
      assert SlotOk(schema, slots[i], val.fields[i], foot[i]);
      assert SlotSized(slots[i], foot[i]);
      assert FitsKind(schema, schema.cases(n)[i].kind, val.fields[i]);
      assert schema.CaseOk(n, i, schema.cases(n)[i]);
      var os := slots[i].os;
      ghost var ms := val.fields[i].ms;
      out := [];
      var k := 0;
      assert ms[..0] == [];
      ManyBytesNone(i + 1);
      while k < |os|
        invariant k <= |os|
        invariant out == EncodeRecords(ManyRecords(i + 1, ms[..k]))
      {
        ElementOk(this, i, k);
        assert ChildSized(os[k], foot[i]);
        var elem := WriteMessage(i, os[k]);
        ManyWritten(i + 1, ms, k);
        out := out + elem;
        k := k + 1;
      }
      assert ms[..k] == ms;
    }

    method WriteField(i: nat) returns (out: Bytes)
      requires schema.Ok() && Valid() && Sized() && i < |slots|
      ensures out == EncodeRecords(FieldRecords(i + 1, val.fields[i]))
      decreases Rank(n), 2
    {
      hide Serialize, ManyRecords;
      assert SlotOk(schema, slots[i], val.fields[i], foot[i]);
      assert SlotSized(slots[i], foot[i]);
      assert FitsKind(schema, schema.cases(n)[i].kind, val.fields[i]);
      assert schema.CaseOk(n, i, schema.cases(n)[i]);
      out := [];
      match slots[i]
      case Scalar(v) =>
        out := WriteScalar(i, v);
      case One(o) =>
        if o != null {
          assert ChildSized(o, foot[i]);
          out := WriteMessage(i, o);
        }
      case Many(os) =>
        out := WriteRepeated(i);
    }

    method WriteScalar(i: nat, v: Value) returns (out: Bytes)
      requires schema.Ok() && i < |schema.cases(n)| && FitsKind(schema, schema.cases(n)[i].kind, v)
      requires !v.VOne? && !v.VMany?
      ensures out == EncodeRecords(FieldRecords(i + 1, v))
    {
      var tag := Varint(8 * (i + 1) + WireOf(schema.cases(n)[i].kind));
      out := [];
      match v
      case VFloat(f) =>
        if Nonzero(f) {
          out := tag + f;
          OneRecordWritten(schema, n, i, Fixed32(f));
        }
      case VEnum(e) =>
        if e != 0 {
          out := tag + Varint(EnumToVarint(e));
          OneRecordWritten(schema, n, i, VarintP(EnumToVarint(e)));
        }
      case VStr(b) =>
        if b != [] {
          out := tag + (Varint(|b|) + b);
          OneRecordWritten(schema, n, i, Delimited(b));
        }
    }

    /** Writes the fields in field-number order and then the unknown records. */
    method InternalSerialize() returns (out: Bytes)
      requires schema.Ok() && Valid() && Sized()
      ensures out == Serialize(val)
      decreases Rank(n), 3
    {
      hide EncodeRecords, FieldRecords, Good, SlotOk, SlotSized;
      out := [];
      var i := 0;
      assert out + EncodeRecords(RecordsFrom(val, 0)) == EncodeRecords(RecordsFrom(val, 0));
      while i < |slots|
        invariant i <= |slots|
        invariant out + EncodeRecords(RecordsFrom(val, i)) == Serialize(val)
      {
        var field := WriteField(i);
        WrittenStep(val, i, out);
        out := out + field;
        i := i + 1;
      }
      out := out + match unknown
        case FieldSet(recs) => EncodeRecords(recs)
        case Raw(bytes) => bytes;
    }

    /** Sizing and then writing gives the encoding of the message, of the announced length. */
    method SerializeToArray() returns (size: nat, out: Bytes)
      requires schema.Ok() && schema.OrderOk() && Valid()
      modifies Repr`cachedSize
      ensures out == Serialize(val) && size == |out|
    {
      size := ByteSizeLong();
      out := InternalSerialize();
    }
  }
}
