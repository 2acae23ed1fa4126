/** The tables that the generated code spells out message by message: one `case` of the parse switch
    per field, the order in which sizes are added up and fields are merged, and the tag cost that
    each size computation uses. `NewSchema` is label.pb.cc, `OldSchema` the older schema's code. The
    codec itself is stated for every schema whose tables are consistent. */
module Schema {
  import opened Wire

  datatype MsgName =
    Point2f | Size2f | DefectRect | KeyPoint | Ring | Polygon | Region | Label

  /** The kind of a field, which decides how its payload is read and written. `One` is an optional
      submessage, `Many` a repeated one. */
  datatype Kind = Float | Enum | Str | One(n: MsgName) | Many(n: MsgName)

  /** A `case` of a parse switch: the constant that the low byte of the tag is compared with. */
  datatype Case = Case(tag: byte, kind: Kind)

  /** `cases(n)[i]` is the case of field number `i + 1` of message `n`; `order(n)` lists the field
      numbers as ByteSizeLong and MergeFrom visit them; `cost(n, number)` is the tag size that
      ByteSizeLong adds for a field; `raw` says that unknown records are kept as one string of bytes
      instead of a set of records. */
  datatype Schema = Schema(cases: MsgName -> seq<Case>,
                           order: MsgName -> seq<nat>,
                           cost: (MsgName, nat) -> nat,
                           raw: bool)
  {
    /** The test of the parse switch: the field number selects a case and the low byte of the tag
        must equal the case's constant. */
    predicate Matches(n: MsgName, tag: nat) {
      var i := tag / 8 - 1;
      0 <= i < |cases(n)| && tag % 256 == cases(n)[i].tag
    }

    /** What the cases have to satisfy: each tag constant is one byte made of the field number and the
        wire type of the kind, the tag costs are the sizes of the tags, and the tags of repeated fields
        take one byte. */
    ghost predicate Ok() {
      forall n: MsgName, i :: 0 <= i < |cases(n)| ==> CaseOk(n, i, cases(n)[i])
    }

    /** Sizing and merging visit every field exactly once. */
    ghost predicate OrderOk() {
      forall n: MsgName :: IsFieldOrder(order(n), |cases(n)|)
    }

    predicate CaseOk(n: MsgName, i: nat, c: Case) {
      && c.tag == 8 * (i + 1) + WireOf(c.kind)
      && cost(n, i + 1) == |Varint(c.tag)|
      && (c.kind.One? || c.kind.Many? ==> Rank(c.kind.n) < Rank(n))
      && (c.kind.Many? ==> c.tag < 128)
    }

    /** Comparing the low byte of a tag with the case's constant compares the wire type. */
    lemma MatchesIff(n: MsgName, tag: nat)
      requires Ok()
      ensures Matches(n, tag) <==>
              (1 <= tag / 8 <= |cases(n)| && tag % 8 == WireOf(cases(n)[tag / 8 - 1].kind))
    {
      var i := tag / 8 - 1;
      if 0 <= i < |cases(n)| {
        assert CaseOk(n, i, cases(n)[i]);
        assert tag < 256;
      }
    }
  }

  function WireOf(k: Kind): nat {
    match k
    case Float => 5
    case Enum => 0
    case _ => 2
  }

  /** Nesting depth: a field's message type is always lower than the message that holds it. */
  function Rank(n: MsgName): nat {
    match n
    case KeyPoint => 1
    case Ring => 1
    case Polygon => 2
    case Region => 3
    case Label => 4
    case _ => 0
  }

  /** Every field number from 1 to `count` occurs exactly once. */
  ghost predicate IsFieldOrder(order: seq<nat>, count: nat) {
    && |order| == count
    && (forall i :: 0 <= i < |order| ==> 1 <= order[i] <= count)
    && (forall i, j :: 0 <= i < j < |order| ==> order[i] != order[j])
    && (forall number :: 1 <= number <= count ==> number in order)
  }

  /** One schema extends another when it only adds cases with larger field numbers. */
  ghost predicate Extends(newer: Schema, older: Schema) {
    forall n: MsgName :: older.cases(n) <= newer.cases(n)
  }

  // ---------------------------------------------------------------- the tables

  function NewSchema(): Schema {
    Schema(NewCases, NewOrder, (n: MsgName, number: nat) => if n.Label? && number in {16, 17, 18, 19} then 2 else 1,
           false)
  }

  function OldSchema(): Schema {
    Schema(OldCases, OldOrder, (n: MsgName, number: nat) => 1, true)
  }

  function OldCases(n: MsgName): seq<Case> {
    match n
    case Point2f => [Case(13, Float), Case(21, Float)]
    case Size2f => [Case(13, Float), Case(21, Float)]
    case DefectRect => []  // there is no such message in the older schema
    case KeyPoint =>
      [Case(10, One(Point2f)), Case(18, Str), Case(29, Float), Case(37, Float), Case(45, Float)]
    case Ring => [Case(10, Many(Point2f))]
    case Polygon => [Case(10, One(Ring)), Case(18, Many(Ring))]
    case Region =>
      [Case(10, One(Polygon)), Case(18, Str), Case(29, Float), Case(34, Many(KeyPoint))]
    case Label =>
      [Case(8, Enum), Case(18, One(Size2f)), Case(26, Str), Case(37, Float), Case(42, Many(Region)),
       Case(50, Many(Polygon)), Case(58, Many(Polygon))]
  }

  function NewCases(n: MsgName): seq<Case> {
    match n
    case Point2f => [Case(13, Float), Case(21, Float), Case(29, Float), Case(37, Float)]
    case Size2f => [Case(13, Float), Case(21, Float)]
    case DefectRect => [Case(13, Float), Case(21, Float), Case(29, Float), Case(37, Float)]
    case KeyPoint =>
      [Case(10, One(Point2f)), Case(18, Str), Case(29, Float), Case(37, Float), Case(45, Float)]
    case Ring => [Case(10, Many(Point2f))]
    case Polygon => [Case(10, One(Ring)), Case(18, Many(Ring))]
    case Region =>
      [Case(10, One(Polygon)), Case(18, Str), Case(29, Float), Case(34, Many(KeyPoint)),
       Case(45, Float), Case(53, Float), Case(61, Float), Case(69, Float), Case(77, Float),
       Case(85, Float), Case(90, Str), Case(98, Str), Case(106, Str), Case(117, Float),
       Case(125, Float)]
    case Label =>
      [Case(8, Enum), Case(18, One(Size2f)), Case(26, Str), Case(37, Float), Case(42, Many(Region)),
       Case(50, Many(Polygon)), Case(58, Many(Polygon)), Case(66, Str), Case(77, Float),
       Case(85, Float), Case(93, Float), Case(101, Float), Case(106, One(DefectRect)),
       Case(117, Float), Case(125, Float), Case(130, Str), Case(138, Str), Case(149, Float),
       Case(157, Float)]
  }

  function OldOrder(n: MsgName): seq<nat> {
    match n
    case Point2f => [1, 2]
    case Size2f => [1, 2]
    case DefectRect => []
    case KeyPoint => [2, 1, 3, 4, 5]
    case Ring => [1]
    case Polygon => [2, 1]
    case Region => [4, 2, 1, 3]
    case Label => [5, 6, 7, 3, 2, 1, 4]
  }

  function NewOrder(n: MsgName): seq<nat> {
    match n
    case Point2f => [1, 2, 3, 4]
    case Size2f => [1, 2]
    case DefectRect => [1, 2, 3, 4]
    case KeyPoint => [2, 1, 3, 4, 5]
    case Ring => [1]
    case Polygon => [2, 1]
    case Region => [4, 2, 11, 12, 13, 1, 3, 5, 6, 7, 8, 9, 10, 14, 15]
    case Label => [5, 6, 7, 3, 8, 16, 17, 2, 13, 1, 4, 9, 10, 11, 12, 14, 15, 18, 19]
  }

  // ---------------------------------------------------------------- the tables are right

  lemma NewCaseOk(n: MsgName, i: nat)
    requires i < |NewCases(n)|
    ensures NewSchema().CaseOk(n, i, NewCases(n)[i])
  {
    match n
    case Region => assert i <= 1 || i == 2 || i == 3 || i >= 4;
    case Label => assert i <= 3 || (4 <= i <= 6) || i == 12 || i == 15 || i == 16 || i > 6;
    case _ =>
  }

  lemma OldCaseOk(n: MsgName, i: nat)
    requires i < |OldCases(n)|
    ensures OldSchema().CaseOk(n, i, OldCases(n)[i])
  {
  }

  ghost predicate IsInverse(order: seq<nat>, inverse: seq<nat>) {
    && |inverse| == |order|
    && (forall i :: 0 <= i < |order| ==> 1 <= order[i] <= |order| && inverse[order[i] - 1] == i)
    && Reaches(order, inverse)
  }

  ghost predicate Reaches(order: seq<nat>, inverse: seq<nat>) {
    forall i :: 0 <= i < |inverse| ==> inverse[i] < |order| && order[inverse[i]] == i + 1
  }

  lemma FieldOrderFromInverse(order: seq<nat>, inverse: seq<nat>)
    requires IsInverse(order, inverse)
    ensures IsFieldOrder(order, |order|)
  {
    forall number | 1 <= number <= |order| ensures number in order {
      assert order[inverse[number - 1]] == number;
    }
  }

  /** Where each field number stands in the visiting order. */
  function NewPositions(n: MsgName): seq<nat> {
    match n
    case Label => [9, 7, 3, 10, 0, 1, 2, 4, 11, 12, 13, 14, 8, 15, 16, 5, 6, 17, 18]
    case Region => [5, 1, 6, 0, 7, 8, 9, 10, 11, 12, 2, 3, 4, 13, 14]
    case KeyPoint => [1, 0, 2, 3, 4]
    case Polygon => [1, 0]
    case Ring => [0]
    case Size2f => [0, 1]
    case _ => [0, 1, 2, 3]
  }

  function OldPositions(n: MsgName): seq<nat> {
    match n
    case Label => [5, 4, 3, 6, 0, 1, 2]
    case Region => [2, 1, 3, 0]
    case KeyPoint => [1, 0, 2, 3, 4]
    case Polygon => [1, 0]
    case Ring => [0]
    case DefectRect => []
    case _ => [0, 1]
  }

  lemma LabelReaches()
    ensures Reaches(NewOrder(Label), NewPositions(Label))
  {
  }

  lemma LabelInverse()
    ensures IsInverse(NewOrder(Label), NewPositions(Label))
  {
    LabelReaches();
  }

  lemma RegionReaches()
    ensures Reaches(NewOrder(Region), NewPositions(Region))
  {
  }

  lemma RegionInverse()
    ensures IsInverse(NewOrder(Region), NewPositions(Region))
  {
    RegionReaches();
  }

  lemma KeyPointInverse()
    ensures IsInverse(NewOrder(KeyPoint), NewPositions(KeyPoint))
  {
  }

  lemma PolygonInverse()
    ensures IsInverse(NewOrder(Polygon), NewPositions(Polygon))
  {
  }

  lemma RingInverse()
    ensures IsInverse(NewOrder(Ring), NewPositions(Ring))
  {
  }

  lemma Size2fInverse()
    ensures IsInverse(NewOrder(Size2f), NewPositions(Size2f))
  {
  }

  lemma FourInverse(n: MsgName)
    requires n == Point2f || n == DefectRect
    ensures IsInverse(NewOrder(n), NewPositions(n))
  {
  }

  lemma NewOrderInverse(n: MsgName)
    ensures IsInverse(NewOrder(n), NewPositions(n))
  {
    hide IsInverse, NewOrder, NewPositions;
    match n
    case Label => LabelInverse();
    case Region => RegionInverse();
    case KeyPoint => KeyPointInverse();
    case Polygon => PolygonInverse();
    case Ring => RingInverse();
    case Size2f => Size2fInverse();
    case _ => FourInverse(n);
  }

  lemma OldLabelInverse()
    ensures IsInverse(OldOrder(Label), OldPositions(Label))
  {
  }

  lemma OldRegionInverse()
    ensures IsInverse(OldOrder(Region), OldPositions(Region))
  {
  }

  lemma OldKeyPointInverse()
    ensures IsInverse(OldOrder(KeyPoint), OldPositions(KeyPoint))
  {
  }

  lemma OldOrderInverse(n: MsgName)
    ensures IsInverse(OldOrder(n), OldPositions(n))
  {
    match n
    case Label => OldLabelInverse();
    case Region => OldRegionInverse();
    case KeyPoint => OldKeyPointInverse();
    case _ =>
  }

  lemma NewOrderOk(n: MsgName)
    ensures IsFieldOrder(NewOrder(n), |NewCases(n)|)
  {
    NewOrderInverse(n);
    FieldOrderFromInverse(NewOrder(n), NewPositions(n));
  }

  lemma OldOrderOk(n: MsgName)
    ensures IsFieldOrder(OldOrder(n), |OldCases(n)|)
  {
    OldOrderInverse(n);
    FieldOrderFromInverse(OldOrder(n), OldPositions(n));
  }

  lemma NewSchemaOk()
    ensures NewSchema().Ok() && NewSchema().OrderOk()
  {
    var s := NewSchema();
    forall n: MsgName, i | 0 <= i < |s.cases(n)| ensures s.CaseOk(n, i, s.cases(n)[i]) {
      NewCaseOk(n, i);
    }
    forall n: MsgName ensures IsFieldOrder(s.order(n), |s.cases(n)|) {
      NewOrderOk(n);
    }
  }

  lemma OldSchemaOk()
    ensures OldSchema().Ok() && OldSchema().OrderOk()
  {
    var s := OldSchema();
    forall n: MsgName, i | 0 <= i < |s.cases(n)| ensures s.CaseOk(n, i, s.cases(n)[i]) {
      OldCaseOk(n, i);
    }
    forall n: MsgName ensures IsFieldOrder(s.order(n), |s.cases(n)|) {
      OldOrderOk(n);
    }
  }

  lemma CasesExtend(n: MsgName)
    ensures OldCases(n) <= NewCases(n)
  {
  }

  lemma NewExtendsOld()
    ensures Extends(NewSchema(), OldSchema())
  {
    forall n: MsgName ensures OldSchema().cases(n) <= NewSchema().cases(n) {
      CasesExtend(n);
    }
  }
}
