/** A message of each type with all its fields set, and the bytes that each field is written as. A string is
    the letter A, a float is 1.0, and a submessage is an empty one. */
module Examples {
  import opened Wire
  import opened Schema
  import opened Message
  import opened Codec
  import opened MergeLaws
  import opened Interop
  import Utf8

  const F: Float32 := [0, 0, 0x80, 0x3F]

  function Empty(n: MsgName): Msg {
    Default(NewSchema(), n)
  }

  /** How many fields a message has, and how many of them the older schema has. */
  function Count(n: MsgName): nat {
    match n
    case Label => 19
    case Region => 15
    case KeyPoint => 5
    case Point2f => 4
    case DefectRect => 4
    case Polygon => 2
    case Size2f => 2
    case Ring => 1
  }

  function OldCount(n: MsgName): nat {
    match n
    case Label => 7
    case Region => 4
    case Point2f => 2
    case DefectRect => 0
    case _ => Count(n)
  }

  function FullField(n: MsgName, i: nat): Value
    requires i < Count(n)
  {
    match n
    case Label =>
      (match i
       case 0 => VEnum(1)
       case 1 => VOne(Some(Empty(Size2f)))
       case 2 => VStr([65])
       case 4 => VMany([Empty(Region)])
       case 5 => VMany([Empty(Polygon)])
       case 6 => VMany([Empty(Polygon)])
       case 7 => VStr([65])
       case 12 => VOne(Some(Empty(DefectRect)))
       case 15 => VStr([65])
       case 16 => VStr([65])
       case _ => VFloat(F))
    case Region =>
      (match i
       case 0 => VOne(Some(Empty(Polygon)))
       case 1 => VStr([65])
       case 3 => VMany([Empty(KeyPoint)])
       case 10 => VStr([65])
       case 11 => VStr([65])
       case 12 => VStr([65])
       case _ => VFloat(F))
    case KeyPoint =>
      (match i
       case 0 => VOne(Some(Empty(Point2f)))
       case 1 => VStr([65])
       case _ => VFloat(F))
    case Polygon => if i == 0 then VOne(Some(Empty(Ring))) else VMany([Empty(Ring)])
    case Ring => VMany([Empty(Point2f)])
    case _ => VFloat(F)
  }

  function Full(n: MsgName): Msg {
    Msg(n, seq(Count(n), i requires 0 <= i < Count(n) => FullField(n, i)), [])
  }

  /** What the field with index `i` is written as: tag, length and content. */
  function Written(n: MsgName, i: nat): Bytes
    requires i < Count(n)
  {
    match n
    case Label =>
      (match i
       case 0 => [8, 1]
       case 1 => [18, 0]
       case 2 => [26, 1, 65]
       case 3 => [37] + F
       case 4 => [42, 0]
       case 5 => [50, 0]
       case 6 => [58, 0]
       case 7 => [66, 1, 65]
       case 8 => [77] + F
       case 9 => [85] + F
       case 10 => [93] + F
       case 11 => [101] + F
       case 12 => [106, 0]
       case 13 => [117] + F
       case 14 => [125] + F
       case 15 => [130, 1, 1, 65]
       case 16 => [138, 1, 1, 65]
       case 17 => [149, 1] + F
       case _ => [157, 1] + F)
    case Region =>
      (match i
       case 0 => [10, 0]
       case 1 => [18, 1, 65]
       case 2 => [29] + F
       case 3 => [34, 0]
       case 4 => [45] + F
       case 5 => [53] + F
       case 6 => [61] + F
       case 7 => [69] + F
       case 8 => [77] + F
       case 9 => [85] + F
       case 10 => [90, 1, 65]
       case 11 => [98, 1, 65]
       case 12 => [106, 1, 65]
       case 13 => [117] + F
       case _ => [125] + F)
    case KeyPoint =>
      (match i
       case 0 => [10, 0]
       case 1 => [18, 1, 65]
       case 2 => [29] + F
       case 3 => [37] + F
       case _ => [45] + F)
    case Polygon => if i == 0 then [10, 0] else [18, 0]
    case Ring => [10, 0]
    case _ => if i == 0 then [13] + F else if i == 1 then [21] + F else if i == 2 then [29] + F else [37] + F
  }

  /** The bytes of the fields from index `i` on. */
  function WrittenFrom(n: MsgName, i: nat): Bytes
    requires i <= Count(n)
    decreases Count(n) - i
  {
    if i == Count(n) then [] else Written(n, i) + WrittenFrom(n, i + 1)
  }

  // ---------------------------------------------------------------- one field

  ghost predicate Piece(number: nat, x: Value, piece: Bytes) {
    EncodeRecords(FieldRecords(number, x)) == piece
  }

  lemma TagBytes(tag: nat)
    requires tag < 256
    ensures Varint(tag) == Tag(tag)
  {
  }

  lemma EnumPiece(number: nat, piece: Bytes)
    requires 0 < number < 16 && piece == [number * 8, 1]
    ensures Piece(number, VEnum(1), piece)
  {
    EncodeOne(Record(number, VarintP(1)));
  }

  lemma FloatPiece(number: nat, piece: Bytes)
    requires 0 < number < 32 && piece == Tag(number * 8 + 5) + F
    ensures Piece(number, VFloat(F), piece)
  {
    assert Nonzero(F);
    TagBytes(number * 8 + 5);
    EncodeOne(Record(number, Fixed32(F)));
  }

  lemma StringPiece(number: nat, piece: Bytes)
    requires 0 < number < 32 && piece == Tag(number * 8 + 2) + [1, 65]
    ensures Piece(number, VStr([65]), piece)
  {
    EncodeOne(Record(number, Delimited([65])));
    assert Tag(number * 8 + 2) + ([1] + [65]) == Tag(number * 8 + 2) + [1, 65];
  }

  lemma EmptyRecord(number: nat, piece: Bytes)
    requires 0 < number < 32 && piece == Tag(number * 8 + 2) + [0]
    ensures EncodeRecords([Record(number, Delimited([]))]) == piece
  {
    EncodeOne(Record(number, Delimited([])));
    TagBytes(number * 8 + 2);
    assert Varint(0) + [] == [0];
  }

  lemma MessagePiece(number: nat, n: MsgName, piece: Bytes)
    requires 0 < number < 32 && piece == Tag(number * 8 + 2) + [0]
    ensures Piece(number, VOne(Some(Empty(n))), piece) && Piece(number, VMany([Empty(n)]), piece)
  {
    EmptyBytes(n);
    EmptyRecord(number, piece);
    hide Serialize, Empty, EncodeRecords;
    var m, r := Empty(n), Record(number, Delimited([]));
    assert [m][1..] == [] && ManyRecords(number, [m]) == [r] + [];
  }

  function Tag(tag: nat): Bytes
    requires tag < 256
  {
    if tag < 128 then [tag] else [tag, 1]
  }

  lemma DefaultUnwritten(k: Kind, number: nat)
    ensures FieldRecords(number, DefaultValue(k)) == []
  {
  }

  lemma {:induction false} EmptyFrom(n: MsgName, i: nat)
    requires i <= |Empty(n).fields|
    ensures RecordsFrom(Empty(n), i) == []
    decreases |Empty(n).fields| - i
  {
    if i == |Empty(n).fields| {
    } else {
      EmptyFrom(n, i + 1);
      DefaultUnwritten(NewSchema().cases(n)[i].kind, i + 1);
      hide FieldRecords, NewCases;
    }
  }

  lemma EmptyBytes(n: MsgName)
    ensures Serialize(Empty(n)) == []
  {
    EmptyFrom(n, 0);
    hide RecordsFrom;
  }

  // ---------------------------------------------------------------- all fields

  lemma EmptyFits(n: MsgName)
    ensures FitsKind(NewSchema(), One(n), VOne(Some(Empty(n)))) && FitsKind(NewSchema(), Many(n), VMany([Empty(n)]))
  {
    DefaultGood(NewSchema(), n);
    assert Empty(n).n == n;
    hide Good, Utf8Ok, Empty;
  }

  lemma EmptyPlain(n: MsgName)
    ensures Utf8Ok(Empty(n)) && ZerosPositive(Empty(n))
  {
    DefaultGood(NewSchema(), n);
    hide Good, Utf8Ok;
  }

  lemma LabelFits(i: nat)
    requires i < 19
    ensures FitsKind(NewSchema(), NewCases(Label)[i].kind, FullField(Label, i))
  {
    EmptyFits(Size2f);
    EmptyFits(Region);
    EmptyFits(Polygon);
    EmptyFits(DefectRect);
    hide Empty;
  }

  lemma RegionFits(i: nat)
    requires i < 15
    ensures FitsKind(NewSchema(), NewCases(Region)[i].kind, FullField(Region, i))
  {
    EmptyFits(Polygon);
    EmptyFits(KeyPoint);
    hide Empty;
  }

  /** The kinds of the fields are those of the table. */
  lemma FullFits(n: MsgName, i: nat)
    requires i < Count(n)
    ensures FitsKind(NewSchema(), NewCases(n)[i].kind, FullField(n, i))
    ensures Utf8OkValue(FullField(n, i)) && ZerosPositiveValue(FullField(n, i))
  {
    FullPlain(n, i);
    hide Utf8OkValue, ZerosPositiveValue;
    match n
    case Label => LabelFits(i);
    case Region => RegionFits(i);
    case KeyPoint => EmptyFits(Point2f);
    case Polygon => EmptyFits(Ring);
    case Ring => EmptyFits(Point2f);
    case _ =>
  }

  lemma SamplePlain(x: Value, c: MsgName)
    requires x in {VFloat(F), VEnum(1), VStr([65]), VOne(Some(Empty(c))), VMany([Empty(c)])}
    ensures Utf8OkValue(x) && ZerosPositiveValue(x)
  {
    EmptyPlain(c);
    assert Utf8.Valid([65]) by {
      assert [65][1..] == [];
    }
    assert Nonzero(F);
    hide Empty, FitsKind;
  }

  /** The type of the submessage in a field, where there is one. */
  function Child(n: MsgName, i: nat): MsgName {
    match n
    case Label => if i == 1 then Size2f else if i == 4 then Region else if i == 12 then DefectRect else Polygon
    case Region => if i == 0 then Polygon else KeyPoint
    case Polygon => Ring
    case _ => Point2f
  }

  lemma FullPlain(n: MsgName, i: nat)
    requires i < Count(n)
    ensures Utf8OkValue(FullField(n, i)) && ZerosPositiveValue(FullField(n, i))
  {
    hide Utf8OkValue, ZerosPositiveValue, Empty;
    SamplePlain(FullField(n, i), Child(n, i));
  }

  lemma FullGood(n: MsgName)
    ensures Good(NewSchema(), Full(n)) && Utf8Ok(Full(n)) && ZerosPositive(Full(n))
  {
    hide FullField, FitsKind, Utf8OkValue, ZerosPositiveValue, NewCases, Count, Good, Utf8Ok, ZerosPositive;
    var m := Full(n);
    CountIs(n);
    forall i | 0 <= i < |m.fields| ensures FitsKind(NewSchema(), NewCases(n)[i].kind, m.fields[i]) {
      FullFits(n, i);
    }
    forall i | 0 <= i < |m.fields| ensures Utf8OkValue(m.fields[i]) && ZerosPositiveValue(m.fields[i]) {
      FullFits(n, i);
    }
    GoodIf(m);
    PlainIf(m);
  }

  lemma GoodIf(m: Msg)
    requires m.unknown == [] && |m.fields| == |NewCases(m.n)|
    requires forall i :: 0 <= i < |m.fields| ==> FitsKind(NewSchema(), NewCases(m.n)[i].kind, m.fields[i])
    ensures Good(NewSchema(), m)
  {
    hide FitsKind, NewCases;
  }

  lemma PlainIf(m: Msg)
    requires forall i :: 0 <= i < |m.fields| ==> Utf8OkValue(m.fields[i]) && ZerosPositiveValue(m.fields[i])
    ensures Utf8Ok(m) && ZerosPositive(m)
  {
    hide Utf8OkValue, ZerosPositiveValue;
  }

  lemma CountIs(n: MsgName)
    ensures Count(n) == |NewCases(n)| && OldCount(n) == |OldCases(n)|
  {
  }

  lemma LabelPiece(i: nat)
    requires i < 19
    ensures Piece(i + 1, FullField(Label, i), Written(Label, i))
  {
    hide Piece, Empty;
    match i
    case 0 => EnumPiece(1, Written(Label, i));
    case 1 => MessagePiece(2, Size2f, Written(Label, i));
    case 2 => StringPiece(3, Written(Label, i));
    case 4 => MessagePiece(5, Region, Written(Label, i));
    case 5 => MessagePiece(6, Polygon, Written(Label, i));
    case 6 => MessagePiece(7, Polygon, Written(Label, i));
    case 7 => StringPiece(8, Written(Label, i));
    case 12 => MessagePiece(13, DefectRect, Written(Label, i));
    case 15 => StringPiece(16, Written(Label, i));
    case 16 => StringPiece(17, Written(Label, i));
    case _ => FloatPiece(i + 1, Written(Label, i));
  }

  lemma RegionPiece(i: nat)
    requires i < 15
    ensures Piece(i + 1, FullField(Region, i), Written(Region, i))
  {
    hide Piece, Empty;
    match i
    case 0 => MessagePiece(1, Polygon, Written(Region, i));
    case 1 => StringPiece(2, Written(Region, i));
    case 3 => MessagePiece(4, KeyPoint, Written(Region, i));
    case 10 => StringPiece(11, Written(Region, i));
    case 11 => StringPiece(12, Written(Region, i));
    case 12 => StringPiece(13, Written(Region, i));
    case _ => FloatPiece(i + 1, Written(Region, i));
  }

  lemma FullPiece(n: MsgName, i: nat)
    requires i < Count(n)
    ensures Piece(i + 1, FullField(n, i), Written(n, i))
  {
    hide Piece, Empty;
    match n
    case Label => LabelPiece(i);
    case Region => RegionPiece(i);
    case KeyPoint =>
      if i == 0 {
        MessagePiece(1, Point2f, Written(n, i));
      } else if i == 1 {
        StringPiece(2, Written(n, i));
      } else {
        FloatPiece(i + 1, Written(n, i));
      }
    case Polygon => MessagePiece(i + 1, Ring, Written(n, i));
    case Ring => MessagePiece(1, Point2f, Written(n, i));
    case _ => FloatPiece(i + 1, Written(n, i));
  }

  // ---------------------------------------------------------------- whole messages

  /** The pieces of the fields make up the message. */
  lemma {:induction false} PiecesFrom(n: MsgName, i: nat)
    requires i <= Count(n)
    ensures EncodeRecords(RecordsFrom(Full(n), i)) == WrittenFrom(n, i)
    decreases Count(n) - i
  {
    hide FullField, Written, FieldRecords, Piece, Count;
    if i == Count(n) {
    } else {
      PiecesFrom(n, i + 1);
      FullPiece(n, i);
      PieceBytes(i + 1, FullField(n, i), Written(n, i));
      EncodeAppend(FieldRecords(i + 1, Full(n).fields[i]), RecordsFrom(Full(n), i + 1));
    }
  }

  lemma PieceBytes(number: nat, x: Value, piece: Bytes)
    ensures Piece(number, x, piece) <==> EncodeRecords(FieldRecords(number, x)) == piece
  {
  }

  lemma {:induction false} WrittenLength(n: MsgName, i: nat)
    requires i <= Count(n)
    ensures |WrittenFrom(n, i)| <= 6 * (Count(n) - i)
    decreases Count(n) - i
  {
    if i == Count(n) {
    } else {
      WrittenLength(n, i + 1);
      PieceLength(n, i);
      hide Written, Count;
    }
  }

  lemma PieceLength(n: MsgName, i: nat)
    requires i < Count(n)
    ensures |Written(n, i)| <= 6
  {
  }

  /** Each message is well formed, is written as these bytes, and is what is read from them. */
  lemma FullIsWritten(n: MsgName)
    ensures Good(NewSchema(), Full(n)) && Serialize(Full(n)) == WrittenFrom(n, 0)
    ensures Parse(NewSchema(), Default(NewSchema(), n), WrittenFrom(n, 0)) == Some(Full(n))
  {
    FullGood(n);
    NewSchemaOk();
    PiecesFrom(n, 0);
    WrittenLength(n, 0);
    assert Count(n) < 20;
    hide Good, Utf8Ok, ZerosPositive, Count, Parse, RecordsFrom, WrittenFrom;
    RoundTripExact(NewSchema(), Full(n));
  }

  /** A program built with the older schema reads from the same bytes the fields it has, and keeps the bytes of
      the others. */
  lemma OldKeepsTheRest(n: MsgName)
    ensures var r := Parse(OldSchema(), Default(OldSchema(), n), WrittenFrom(n, 0));
            && OldCount(n) <= Count(n) && r.Some? && |r.value.fields| == OldCount(n)
            && EncodeRecords(r.value.unknown) == WrittenFrom(n, OldCount(n))
  {
    FullIsWritten(n);
    FullGood(n);
    WrittenLength(n, 0);
    assert Count(n) < 20;
    CountIs(n);
    assert OldCount(n) <= Count(n);
    PiecesFrom(n, OldCount(n));
    NewSchemaOk();
    OldSchemaOk();
    NewExtendsOld();
    hide Good, Utf8Ok, ZerosPositive, Count, OldCount, Parse, RecordsFrom, WrittenFrom, Extends;
    PassThrough(NewSchema(), OldSchema(), Full(n));
  }
}
