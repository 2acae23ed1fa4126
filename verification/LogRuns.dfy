/** Runs of the log file: what writes, reads and reopenings keep, when the file operations succeed. */
module LogRuns {
  import opened Common
  import opened Wire
  import opened LogFile

  function Limit(h: Header, max: uint32): uint32 {
    if h.size <= max then h.size else max
  }

  /** The header that the file was created with. */
  function AtCreation(h: Header): Header {
    h.(wCursor := HEADER_SIZE, rCursor := HEADER_SIZE)
  }

  /** A header of this code, for a file that can be told from others by its prefix. */
  predicate Proper(h: Header) {
    KnownPrefix(h.prefix) && PrefixOf(h.fileType, h.prefix) == h.prefix && h == Current(h)
  }

  /** header <= rCursor <= wCursor = file length <= the limits, which a seek offset can reach. */
  predicate Cursors(l: Log, max: uint32) {
    && HEADER_SIZE <= l.header.rCursor <= l.header.wCursor == |l.file| <= Limit(l.header, max) < 0x8000_0000
  }

  /** The cursors are in order, and the file is its first header and then the bytes of `body`. */
  predicate Holds(l: Log, max: uint32, body: Bytes) {
    Cursors(l, max) && Proper(l.header) && l.file == OnDisk(AtCreation(l.header)) + body
  }

  lemma OverwriteEmpty(data: Bytes)
    ensures Overwrite([], 0, data) == data
  {
  }

  lemma OverwriteEnd(file: Bytes, data: Bytes)
    ensures Overwrite(file, |file|, data) == file + data
  {
    assert file[..|file|] == file;
  }

  /** A new file of a kind other than a dump. */
  function Fresh(before: Header, fileType: uint8, size: uint32, now: uint32): Log {
    var (h, file) := Opened(before, fileType, size, now, []);
    Log(h, file, None)
  }

  lemma FreshHolds(before: Header, fileType: uint8, size: uint32, now: uint32, max: uint32)
    requires fileType <= HIVIEW_STAT_EVENT_FILE && fileType != HIVIEW_DUMP_FILE
    requires size + HEADER_SIZE < 0x8000_0000 && HEADER_SIZE <= max
    ensures Holds(Fresh(before, fileType, size, now), max, [])
    ensures Fresh(before, fileType, size, now).header.size == size + HEADER_SIZE
  {
    hide OnDisk;
    var h := NewHeader(before, fileType, size, now);
    OverwriteEmpty(OnDisk(h));
    assert OnDisk(h) + [] == OnDisk(h);
  }

  /** The size handed over at a rotation becomes the old one again. */
  lemma SizeBack(size: uint32)
    ensures Uint32(Uint32(size - HEADER_SIZE) + HEADER_SIZE) == size
  {
  }

  /** A rotation moves the whole file, and starts one with nothing in it. */
  lemma RotateHolds(l: Log, max: uint32, body: Bytes, now: uint32)
    requires Holds(l, max, body)
    ensures var r := Rotate(l, now);
            Holds(r, max, []) && r.out == Some(l.file) && r.header.size == l.header.size
            && r.header.fileType == l.header.fileType && r.header.createTime == now
  {
    SizeBack(l.header.size);
    hide OnDisk, Uint32, PrefixOf, KnownPrefix;
    var h := NewHeader(l.header, l.header.fileType, Uint32(l.header.size - HEADER_SIZE), now);
    OverwriteEmpty(OnDisk(h));
    assert OnDisk(h) + [] == OnDisk(h);
  }

  /** A write appends, and the file stays within its limits exactly when the bytes do. */
  lemma AppendHolds(l: Log, max: uint32, body: Bytes, data: Bytes)
    requires Holds(l, max, body) && |l.file| + |data| < 0x1_0000_0000
    ensures var a := Append(l, data);
            && a.file == OnDisk(AtCreation(a.header)) + (body + data) && a.header.wCursor == |a.file|
            && a.out == l.out
            && (Holds(a, max, body + data) <==> |l.file| + |data| <= Limit(l.header, max))
  {
    hide OnDisk, Overwrite;
    OverwriteEnd(l.file, data);
    assert OnDisk(AtCreation(l.header)) + (body + data) == l.file + data;
  }

  /** Without a rotation, the bytes fit behind the others; after one, they fit when they fit in an empty
      file. The file is rotated exactly when the bytes do not fit behind the others. */
  lemma WriteHolds(l: Log, max: uint32, body: Bytes, data: Bytes, now: uint32)
    requires Holds(l, max, body) && data != [] && |data| < 0x8000_0000
    ensures var w, full := Write(l, data, max, now), Overflows(l.header, |data|, max);
            var more := (if full then [] else body) + data;
            && (full <==> |l.file| + |data| > Limit(l.header, max))
            && w.file == OnDisk(AtCreation(w.header)) + more
            && w.out == (if full then Some(l.file) else l.out)
            && (Holds(w, max, more) <==> !full || HEADER_SIZE + |data| <= Limit(l.header, max))
  {
    hide OnDisk, Append, Rotate, Proper;
    if Overflows(l.header, |data|, max) {
      RotateHolds(l, max, body, now);
      AppendHolds(Rotate(l, now), max, [], data);
    } else {
      AppendHolds(l, max, body, data);
    }
  }

  /** A read returns the bytes of the body that have not been read: as many as it asks for when there are
      that many, and otherwise all that are left, unless it asks for more than the whole file has. */
  lemma ReadHolds(l: Log, max: uint32, body: Bytes, n: nat)
    requires Holds(l, max, body)
    ensures var (after, data) := Read(l, n);
            var i, j := l.header.rCursor - HEADER_SIZE, after.header.rCursor - HEADER_SIZE;
            && Holds(after, max, body) && 0 <= i <= j <= |body| && data == body[i..j]
            && after == l.(header := l.header.(rCursor := after.header.rCursor))
    ensures var data, unread := Read(l, n).1, body[l.header.rCursor - HEADER_SIZE..];
            && (n <= |unread| ==> data == unread[..n])
            && (|unread| < n <= |l.file| ==> data == unread)
            && (|l.file| < n ==> data == [])
  {
    hide OnDisk;
  }

  /** While there are bytes to read, a read returns some exactly when it asks for no more bytes than the
      file has, header included. One that asks for more gets nothing. */
  lemma ReadProgress(h: Header, n: nat)
    requires h.rCursor < h.wCursor
    ensures ReadLength(h, n) > 0 <==> 0 < n <= h.wCursor
  {
  }

  /** Opening a file that this code has written. It finds the end of the file and its header again, except
      for the read cursor, exactly when the prefix is one of this code. It is not for a dump file, unless
      the header in memory happened to have such a prefix when the file was created. */
  lemma ReopenRecovers(h: Header, body: Bytes, before: Header, fileType: uint8, size: uint32, now: uint32)
    requires h == Current(h) && h.rCursor == h.wCursor == HEADER_SIZE && HEADER_SIZE + |body| < 0x1_0000_0000
    ensures var file := OnDisk(h) + body;
            var (found, after) := Opened(before, fileType, size, now, file);
            && (KnownPrefix(h.prefix) ==> found == h.(wCursor := |file|) && after == file)
            && (!KnownPrefix(h.prefix) ==> found.wCursor == HEADER_SIZE && found.createTime == now)
            && (body != [] ==> (found.wCursor == |file| <==> KnownPrefix(h.prefix)))
  {
    hide OnDisk, FromDisk, PrefixOf, Overwrite;
    var file := OnDisk(h) + body;
    assert file[..HEADER_SIZE] == OnDisk(h);
    HeaderRoundTrip(h);
  }

  // ---------------------------------------------------------------- runs

  datatype Op =
    | DoWrite(data: Bytes, now: uint32)
    | DoRead(n: nat)
    | DoReopen(before: Header, fileType: uint8, size: uint32, now: uint32)

  datatype Archive = Archive(header: Header, body: Bytes)

  /** The log, with what was written to it since it was started, what was read from it since it was started
      or reopened, and the logs that were moved away. */
  datatype History = History(log: Log, body: Bytes, taken: Bytes, archives: seq<Archive>)

  function Step(h: History, op: Op, max: uint32): History
    requires Cursors(h.log, max)
  {
    match op
    case DoWrite(data, now) =>
      var log := Write(h.log, data, max, now);
      if Rotates(h, op, max)
      then History(log, data, [], h.archives + [Archive(AtCreation(h.log.header), h.body)])
      else h.(log := log, body := h.body + data)
    case DoRead(n) =>
      var (log, data) := Read(h.log, n);
      h.(log := log, taken := h.taken + data)
    case DoReopen(before, fileType, size, now) =>
      var (header, file) := Opened(before, fileType, size, now, h.log.file);
      h.(log := h.log.(header := header, file := file), taken := [])
  }

  /** The bytes of a write fit in an empty file. */
  predicate Fits(l: Log, op: Op, max: uint32) {
    op.DoWrite? ==> HEADER_SIZE + |op.data| <= Limit(l.header, max)
  }

  predicate Inv(h: History, max: uint32) {
    && Holds(h.log, max, h.body)
    && h.log.header.rCursor - HEADER_SIZE <= |h.body|
    && h.taken == h.body[..h.log.header.rCursor - HEADER_SIZE]
    && (h.archives != [] ==>
          var last := h.archives[|h.archives| - 1];
          h.log.out == Some(OnDisk(last.header) + last.body))
  }

  lemma WriteStep(h: History, op: Op, max: uint32)
    requires Inv(h, max) && op.DoWrite? && Fits(h.log, op, max)
    ensures Inv(Step(h, op, max), max)
    ensures Step(h, op, max).log.header.size == h.log.header.size
  {
    if op.data == [] {
      assert h.body + [] == h.body;
    } else {
      WriteHolds(h.log, max, h.body, op.data, op.now);
      WriteKeeps(h.log, max, h.body, op.data, op.now);
      hide OnDisk, Write, Holds, Overflows;
      assert [] + op.data == op.data;
    }
  }

  lemma WriteKeeps(l: Log, max: uint32, body: Bytes, data: Bytes, now: uint32)
    requires Holds(l, max, body) && data != []
    ensures var w := Write(l, data, max, now);
            w.header.size == l.header.size
            && w.header.rCursor == if Overflows(l.header, |data|, max) then HEADER_SIZE else l.header.rCursor
  {
    hide OnDisk, Overwrite;
  }

  lemma ReadStep(h: History, op: Op, max: uint32)
    requires Inv(h, max) && op.DoRead?
    ensures Inv(Step(h, op, max), max)
    ensures Step(h, op, max).log.header.size == h.log.header.size
  {
    var (log, data) := Read(h.log, op.n);
    ReadHolds(h.log, max, h.body, op.n);
    InvRead(h, log, data, max);
    ReadIs(h, op, max);
    hide Step, Inv, Read, Holds;
  }

  lemma ReadIs(h: History, op: Op, max: uint32)
    requires Cursors(h.log, max) && op.DoRead?
    ensures Step(h, op, max) == h.(log := Read(h.log, op.n).0, taken := h.taken + Read(h.log, op.n).1)
  {
    hide Read, Rotates, Write, Opened;
  }

  /** Moving the read cursor on, over the bytes that are taken, keeps the invariant. */
  lemma InvRead(h: History, log: Log, data: Bytes, max: uint32)
    requires Inv(h, max) && Holds(log, max, h.body)
    requires log == h.log.(header := h.log.header.(rCursor := log.header.rCursor))
    requires var i, j := h.log.header.rCursor - HEADER_SIZE, log.header.rCursor - HEADER_SIZE;
             0 <= i <= j <= |h.body| && data == h.body[i..j]
    ensures Inv(h.(log := log, taken := h.taken + data), max)
  {
    hide Holds, OnDisk;
    var i, j := h.log.header.rCursor - HEADER_SIZE, log.header.rCursor - HEADER_SIZE;
    assert h.body[..i] + h.body[i..j] == h.body[..j];
  }

  lemma ReopenStep(h: History, op: Op, max: uint32)
    requires Inv(h, max) && op.DoReopen?
    ensures Inv(Step(h, op, max), max)
    ensures Step(h, op, max).log == h.log.(header := h.log.header.(rCursor := HEADER_SIZE))
  {
    ReopenRecovers(AtCreation(h.log.header), h.body, op.before, op.fileType, op.size, op.now);
    hide OnDisk, Opened, Rotates, Overflows, Write, Read;
  }

  function Run(start: Log, ops: seq<Op>, max: uint32): (h: History)
    requires Holds(start, max, []) && AllFit(start, ops, max)
    ensures Inv(h, max) && h.log.header.size == start.header.size
  {
    if ops == [] then
      History(start, [], [], [])
    else
      var rest, op := Run(start, ops[..|ops| - 1], max), ops[|ops| - 1];
      StepKeepsInv(rest, op, max);
      Step(rest, op, max)
  }

  /** Every write fits in an empty file. The limits never change. */
  predicate AllFit(start: Log, ops: seq<Op>, max: uint32) {
    forall i :: 0 <= i < |ops| ==> Fits(start, ops[i], max)
  }

  lemma StepKeepsInv(h: History, op: Op, max: uint32)
    requires Inv(h, max) && Fits(h.log, op, max)
    ensures Inv(Step(h, op, max), max) && Step(h, op, max).log.header.size == h.log.header.size
  {
    hide Inv, Step;
    match op
    case DoWrite(_, _) => WriteStep(h, op, max);
    case DoRead(_) => ReadStep(h, op, max);
    case DoReopen(_, _, _, _) => ReopenStep(h, op, max);
  }

  function Written(ops: seq<Op>): Bytes {
    if ops == [] then []
    else
      var rest, op := Written(ops[..|ops| - 1]), ops[|ops| - 1];
      if op.DoWrite? then rest + op.data else rest
  }

  function Bodies(archives: seq<Archive>): Bytes {
    if archives == [] then [] else Bodies(archives[..|archives| - 1]) + archives[|archives| - 1].body
  }

  predicate Rotates(h: History, op: Op, max: uint32) {
    op.DoWrite? && op.data != [] && Overflows(h.log.header, |op.data|, max)
  }

  /** What is found at the destination right after each rotation of the run. Each of these files takes the
      place of the one before it. */
  function Moved(start: Log, ops: seq<Op>, max: uint32): seq<Option<Bytes>>
    requires Holds(start, max, []) && AllFit(start, ops, max)
  {
    if ops == [] then []
    else
      var first := ops[..|ops| - 1];
      if Rotates(Run(start, first, max), ops[|ops| - 1], max)
      then Moved(start, first, max) + [Run(start, ops, max).log.out]
      else Moved(start, first, max)
  }

  /** The files are the archives of the history: a header and the bytes of one log. */
  ghost predicate AreFiles(moved: seq<Option<Bytes>>, archives: seq<Archive>) {
    && |moved| == |archives|
    && forall i :: 0 <= i < |moved| ==> moved[i] == Some(OnDisk(archives[i].header) + archives[i].body)
  }

  lemma StepArchives(h: History, op: Op, max: uint32)
    requires Inv(h, max) && Fits(h.log, op, max)
    ensures var n := Step(h, op, max);
            if Rotates(h, op, max)
            then n.archives != [] && n.archives[..|n.archives| - 1] == h.archives &&
                 var last := n.archives[|n.archives| - 1]; n.log.out == Some(OnDisk(last.header) + last.body)
            else n.archives == h.archives
  {
    StepKeepsInv(h, op, max);
    hide Write, Read, Opened, Overflows, OnDisk, Holds;
  }

  lemma OneMoreFile(moved: seq<Option<Bytes>>, archives: seq<Archive>, out: Option<Bytes>)
    requires archives != [] && AreFiles(moved, archives[..|archives| - 1])
    requires var last := archives[|archives| - 1]; out == Some(OnDisk(last.header) + last.body)
    ensures AreFiles(moved + [out], archives)
  {
    hide OnDisk;
  }

  lemma {:induction false} MovedAreArchives(start: Log, ops: seq<Op>, max: uint32)
    requires Holds(start, max, []) && AllFit(start, ops, max)
    ensures AreFiles(Moved(start, ops, max), Run(start, ops, max).archives)
  {
    if ops == [] {
    } else {
      var first, op := ops[..|ops| - 1], ops[|ops| - 1];
      MovedAreArchives(start, first, max);
      StepArchives(Run(start, first, max), op, max);
      hide Inv, Step, Holds, OnDisk, Rotates, AreFiles;
      var after := Run(start, ops, max);
      if Rotates(Run(start, first, max), op, max) {
        OneMoreFile(Moved(start, first, max), after.archives, after.log.out);
      }
    }
  }

  /** No byte is dropped, doubled or reordered on the way to the destination: the bodies of the files that
      the rotations of the run have moved there, one after another, and then that of the log itself, are all
      that was written. The destination keeps only the last of these files, so that whoever wants the others
      has to fetch them in time. */
  lemma {:induction false} LogConserves(start: Log, ops: seq<Op>, max: uint32)
    requires Holds(start, max, []) && AllFit(start, ops, max)
    ensures var h := Run(start, ops, max);
            && AreFiles(Moved(start, ops, max), h.archives)
            && Bodies(h.archives) + h.body == Written(ops)
  {
    MovedAreArchives(start, ops, max);
    if ops == [] {
    } else {
      var rest, op := Run(start, ops[..|ops| - 1], max), ops[|ops| - 1];
      LogConserves(start, ops[..|ops| - 1], max);
      StepConserves(rest, op, max);
      hide Inv, Step, Holds, AreFiles, Moved;
    }
  }

  lemma StepConserves(h: History, op: Op, max: uint32)
    requires Cursors(h.log, max)
    ensures var n := Step(h, op, max);
            Bodies(n.archives) + n.body == Bodies(h.archives) + h.body + if op.DoWrite? then op.data else []
  {
    hide Write, Read, Opened, Overflows;
    var n := Step(h, op, max);
    if n.archives != h.archives {
      assert n.archives[..|h.archives|] == h.archives;
    }
  }
}
