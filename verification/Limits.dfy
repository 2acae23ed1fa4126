/** Inputs at which the code does less than a caller would expect. For each there is, elsewhere, the exact
    condition under which it does not happen. */
module Limits {
  import opened Common
  import opened Wire
  import opened UtilsList
  import opened EventHub
  import opened LogFile
  import opened LogRuns
  import opened FileUtil
  import opened HiviewFiles
  import Utf8
  import L = Schema
  import M = Message
  import C = Codec
  import G = MergeLaws

  /** A receiver that asks for message number 0x8000 is sent a negative one; see OwnMsgId. */
  lemma MsgIdIsCut(node: Node<Entry>, sender: Identity, receiver: Identity, value: uint32)
    requires node.entry == Receiver(sender, receiver, 0x8000)
    ensures Requests([node], sender, value) == [Sent(receiver, -0x8000, value)]
  {
    assert [node][1..] == [];
  }

  /** A receiver stays registered after the message that is meant to remove it; see NullReceiver. */
  lemma ReceiverStays(node: Node<Entry>, none: Node<Entry>)
    requires node.entry == Receiver(Identity(1, 1, 7), Identity(2, 2, 8), 5)
    requires none.entry == Receiver(Identity(1, 1, 0), Identity(2, 2, 8), 5)
    ensures AllTyped([AddReceiver(node), AddReceiver(none)])
    ensures EventHub.Run([AddReceiver(node), AddReceiver(none)]).receivers == [node]
  {
    var ms := [AddReceiver(node)];
    assert ms[..0] == [];
    assert EventHub.Run(ms) == EventHub.Step(EventHub.Run([]), AddReceiver(node));
    assert EventHub.Run(ms).receivers == [node];
    var both := [AddReceiver(node), AddReceiver(none)];
    assert both[..1] == ms;
    NullReceiver(ms, none);
  }

  /** A file that is moved onto itself is gone; see HIVIEW_FileMove. */
  lemma MoveOntoItself()
    ensures Copied(map["log" := [1, 2, 3]], "log", "log") - {"log"} == map[]
  {
  }

  /** One byte does not fit in a file that has room for its header only, and is written all the same, one
      byte beyond the limit; see WriteHolds. */
  lemma WriteBeyondLimit(before: Header, now: uint32, max: uint32)
    requires HEADER_SIZE <= max
    ensures var l := Fresh(before, HIVIEW_LOG_TEXT_FILE, 0, now);
            Limit(l.header, max) == HEADER_SIZE && |Write(l, [7], max, now).file| == HEADER_SIZE + 1
  {
    hide Write, OnDisk, Fresh, Overflows, Uint32, Opened, NewHeader, Proper;
    var l := Fresh(before, HIVIEW_LOG_TEXT_FILE, 0, now);
    FreshHolds(before, HIVIEW_LOG_TEXT_FILE, 0, now, max);
    WriteHolds(l, max, [], [7], now);
  }

  /** Which new files are found again when they are opened; see ReopenRecovers. */
  lemma NewPrefixKnown(before: Header, fileType: uint8, size: uint32, now: uint32)
    ensures KnownPrefix(NewHeader(before, fileType, size, now).prefix) <==>
            fileType in {HIVIEW_LOG_TEXT_FILE, HIVIEW_LOG_BIN_FILE, HIVIEW_FAULT_EVENT_FILE,
                         HIVIEW_UE_EVENT_FILE, HIVIEW_STAT_EVENT_FILE} || KnownPrefix(before.prefix)
  {
  }

  /** A dump file that was created with a zeroed header is not: the write cursor is back at the start of its
      body, and the next write goes over it. */
  lemma DumpIsLost(size: uint32, now: uint32, later: uint32)
    ensures var zero := Header(0, 0, 0, 0, 0, 0, 0, 0, 0);
            var file := OnDisk(NewHeader(zero, HIVIEW_DUMP_FILE, size, now)) + [7];
            Opened(zero, HIVIEW_DUMP_FILE, size, later, file).0.wCursor == HEADER_SIZE < |file|
  {
    var zero := Header(0, 0, 0, 0, 0, 0, 0, 0, 0);
    var h := NewHeader(zero, HIVIEW_DUMP_FILE, size, now);
    NewPrefixKnown(zero, HIVIEW_DUMP_FILE, size, now);
    ReopenRecovers(h, [7], zero, HIVIEW_DUMP_FILE, size, later);
    hide OnDisk, Opened, NewHeader;
  }

  /** A file of 37 bytes, ten of them to be read, gives nothing to a reader that asks for 38; see ReadProgress. */
  lemma ReadGetsNothing(h: Header)
    requires h.wCursor == 37 && h.rCursor == HEADER_SIZE
    ensures ReadLength(h, 38) == 0 && ReadLength(h, 37) == 10
  {
  }

  /** An event log that is closed and opened again is moved to the place of the debug log when it is full;
      see ClosedPathDiffers. */
  lemma EventLogGoesElsewhere()
    ensures ClosedPath("fault.event") == "debug.log" && ClosedPath("debug.log") == "ue.event"
  {
    assert |"fault.event"| != |HIVIEW_FILE_OUT_PATH_LOG|;
  }

  const MINUS_ZERO: M.Float32 := [0, 0, 0, 0x80]

  /** A size with width -0.0 comes back with width +0.0; see RoundTripExact. */
  lemma MinusZeroIsLost()
    ensures var b := M.Msg(L.Size2f, [M.VFloat(MINUS_ZERO), M.VFloat(M.ZERO)], []);
            var back := M.Msg(L.Size2f, [M.VFloat(M.ZERO), M.VFloat(M.ZERO)], []);
            M.Parse(L.NewSchema(), M.Default(L.NewSchema(), L.Size2f), M.Serialize(b)) == Some(back) && back != b
  {
    var s, b := L.NewSchema(), M.Msg(L.Size2f, [M.VFloat(MINUS_ZERO), M.VFloat(M.ZERO)], []);
    var back := M.Msg(L.Size2f, [M.VFloat(M.ZERO), M.VFloat(M.ZERO)], []);
    L.NewSchemaOk();
    assert !M.Nonzero(MINUS_ZERO) && !M.Nonzero(M.ZERO);
    assert M.FieldRecords(1, b.fields[0]) == [] && M.FieldRecords(2, b.fields[1]) == [];
    assert M.RecordsFrom(b, 2) == [];
    assert M.RecordsFrom(b, 1) == [] + M.RecordsFrom(b, 2);
    assert M.RecordsFrom(b, 0) == [] + M.RecordsFrom(b, 1);
    assert M.Serialize(b) == [];
    assert M.Default(s, L.Size2f).fields == back.fields;
    assert b.fields[0] != back.fields[0];
  }

  function BadName(): M.Msg {
    M.Msg(L.KeyPoint, [M.VOne(None), M.VStr([0xFF]), M.VFloat(M.ZERO), M.VFloat(M.ZERO), M.VFloat(M.ZERO)], [])
  }

  lemma BadNameBytes()
    ensures M.Good(L.NewSchema(), BadName()) && M.Serialize(BadName()) == [18, 1, 0xFF]
  {
    var b := BadName();
    assert M.RecordsFrom(b, 5) == [] && M.RecordsFrom(b, 4) == [] && M.RecordsFrom(b, 3) == [];
    assert M.RecordsFrom(b, 2) == [];
    assert M.RecordsFrom(b, 1) == [Record(2, Delimited([0xFF]))];
    assert M.RecordsFrom(b, 0) == M.RecordsFrom(b, 1);
    EncodeOne(Record(2, Delimited([0xFF])));
  }

  /** A key point whose name is the single byte 0xFF is written, and cannot be read again; see
      SerializeThenParse. */
  lemma BadNameIsWritten()
    ensures M.Serialize(BadName()) == [18, 1, 0xFF]
    ensures M.Parse(L.NewSchema(), M.Default(L.NewSchema(), L.KeyPoint), [18, 1, 0xFF]) == None
  {
    L.NewSchemaOk();
    BadNameBytes();
    assert !Utf8.Valid([0xFF]);
    assert !M.Utf8OkValue(BadName().fields[1]);
    hide M.Parse, M.Good, M.Serialize;
    G.RoundTrip(L.NewSchema(), BadName());
  }
}
