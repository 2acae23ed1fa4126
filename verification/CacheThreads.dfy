/** The Hiview cache with one reader and any number of writers at work at the same time. A writer holds
    the lock from its size check to its end; the reader checks the used size and copies its bytes without
    the lock. Every memory access of a copy and every update of a cursor is a step of its own. */
module CacheThreads {
  import opened Wire
  import opened HiviewCaches

  /** Where the writer that holds the lock stands. `first` is the number of bytes before the end of the
      buffer; without wrap-around it is the whole length. */
  datatype Writer =
    | Unlocked
    | CopyFirst(data: seq<byte>, first: nat, k: nat)   // `k` bytes of the first part are copied
    | AddFirst(data: seq<byte>, first: nat)            // the write cursor is advanced, the used size not yet
    | Rewind(data: seq<byte>, first: nat)              // the write cursor is about to be set to zero
    | CopySecond(data: seq<byte>, first: nat, k: nat)
    | AddSecond(data: seq<byte>, first: nat)

  /** Where the reader stands. `consume` tells a read from a preread. */
  datatype Reader =
    | Resting
    | Checked(n: nat, consume: bool)                                   // found at least `n` bytes used
    | Copying(n: nat, consume: bool, cursor: nat, out: seq<byte>)      // `|out|` bytes are copied

  /** The cache and its threads. The last three are history: the bytes that writers were allowed to
      write, the ones they have made available so far, and the ones that reads have taken. */
  datatype State = State(
    buffer: seq<byte>, size: nat, w: nat, used: nat,
    writer: Writer, reader: Reader,
    accepted: seq<byte>, written: seq<byte>, taken: seq<byte>)

  datatype Step =
    | WriteStart(data: seq<byte>)     // a writer takes the lock and finds that the bytes fit
    | WriteByte                       // one byte is copied into the buffer
    | AdvanceCursor                   // wCursor += firstLen, or secondLen
    | AdvanceUsed                     // usedSize += the same
    | RewindCursor                    // wCursor = 0
    | ReadCheck(n: nat, consume: bool)
    | ReadCursorStep                  // GetReadCursor, under the lock
    | ReadByte                        // one byte is copied out of the buffer
    | ReadEnd                         // usedSize -= rLen under the lock, or the end of a preread

  predicate Init(s: State) {
    && |s.buffer| == s.size < 0x1_0000 && s.w == 0 && s.used == 0
    && s.writer == Unlocked && s.reader == Resting
    && s.accepted == [] && s.written == [] && s.taken == []
  }

  predicate Enabled(s: State, step: Step) {
    match step
    case WriteStart(data) => s.writer.Unlocked? && |data| < 0x1_0000 && |data| + s.used <= s.size
    case WriteByte => (s.writer.CopyFirst? && s.writer.k < s.writer.first) ||
                      (s.writer.CopySecond? && s.writer.first + s.writer.k < |s.writer.data|)
    case AdvanceCursor => (s.writer.CopyFirst? && s.writer.k == s.writer.first) ||
                          (s.writer.CopySecond? && s.writer.first + s.writer.k == |s.writer.data|)
    case AdvanceUsed => s.writer.AddFirst? || s.writer.AddSecond?
    case RewindCursor => s.writer.Rewind?
    case ReadCheck(n, _) => s.reader.Resting? && n <= s.used
    case ReadCursorStep => s.reader.Checked? && s.writer.Unlocked?
    case ReadByte => s.reader.Copying? && |s.reader.out| < s.reader.n
    case ReadEnd => s.reader.Copying? && |s.reader.out| == s.reader.n
                    && (s.reader.consume ==> s.writer.Unlocked?)
  }

  /** The place that the writer's next WriteByte stores to. */
  function WritePlace(s: State): nat {
    match s.writer
    case CopyFirst(_, _, k) => s.w + k
    case CopySecond(_, _, k) => s.w + k
    case _ => 0
  }

  /** The place that the reader's next ReadByte loads from: the second part starts at zero. */
  function ReadPlace(s: State): nat {
    match s.reader
    case Copying(n, _, cursor, out) =>
      if cursor + n > s.size && |out| >= s.size - cursor then |out| - (s.size - cursor) else cursor + |out|
    case _ => 0
  }

  /** Takes a step. The places are in bounds in every state that can come up; see `Inv`. */
  function Next(s: State, step: Step): State
    requires Enabled(s, step) && Inv(s)
  {
    match step
    case WriteStart(data) =>
      var first := if s.w + |data| > s.size then s.size - s.w else |data|;
      s.(writer := if first == 0 && |data| > 0 then Rewind(data, 0) else CopyFirst(data, first, 0),
         accepted := s.accepted + data)
    case WriteByte =>
      (match s.writer
       case CopyFirst(data, first, k) =>
         s.(buffer := s.buffer[s.w + k := data[k]], writer := CopyFirst(data, first, k + 1))
       case CopySecond(data, first, k) =>
         s.(buffer := s.buffer[s.w + k := data[first + k]], writer := CopySecond(data, first, k + 1))
       case _ => s)
    case AdvanceCursor =>
      (match s.writer
       case CopyFirst(data, first, k) => s.(w := s.w + first, writer := AddFirst(data, first))
       case CopySecond(data, first, k) => s.(w := s.w + k, writer := AddSecond(data, first))
       case _ => s)
    case AdvanceUsed =>
      (match s.writer
       case AddFirst(data, first) =>
         s.(used := s.used + first, written := s.written + data[..first],
            writer := if first == |data| then Unlocked else Rewind(data, first))
       case AddSecond(data, first) =>
         s.(used := s.used + (|data| - first), written := s.written + data[first..], writer := Unlocked)
       case _ => s)
    case RewindCursor => s.(w := 0, writer := CopySecond(s.writer.data, s.writer.first, 0))
    case ReadCheck(n, consume) => s.(reader := Checked(n, consume))
    case ReadCursorStep =>
      s.(reader := Copying(s.reader.n, s.reader.consume, ReadCursor(s.size, s.w, s.used), []))
    case ReadByte =>
      s.(reader := s.reader.(out := s.reader.out + [s.buffer[ReadPlace(s)]]))
    case ReadEnd =>
      if s.reader.consume
      then s.(used := s.used - s.reader.n, taken := s.taken + s.reader.out, reader := Resting)
      else s.(reader := Resting)
  }

  // ---------------------------------------------------------------- the invariant

  /** The bytes in the cache: made available and not yet taken. */
  function Queue(s: State): seq<byte> {
    if |s.taken| <= |s.written| then s.written[|s.taken|..] else []
  }

  /** The place of the oldest byte, below `size` unless the buffer has no bytes at all. It is derived from
      the cursor that the writer will have reached when it is done with what it has already copied. */
  function Head(s: State): nat
    requires s.w <= s.size && s.used + Ahead(s.writer) <= s.size
  {
    var used := s.used + Ahead(s.writer);
    var r := if s.w >= used then s.w - used else s.w + s.size - used;
    if r == s.size then 0 else r
  }

  /** By how much the write cursor is ahead of the used size. */
  function Ahead(w: Writer): nat {
    match w
    case AddFirst(_, first) => first
    case AddSecond(data, first) => if first <= |data| then |data| - first else 0
    case _ => 0
  }

  ghost predicate Cursors(s: State) {
    && |s.buffer| == s.size < 0x1_0000 && s.w <= s.size
    && s.used + Ahead(s.writer) <= s.size
    && s.taken <= s.written && |s.written| - |s.taken| == s.used
  }

  /** The bytes of `queue` stand in the buffer from place `head` on, going round at the end. */
  ghost predicate StoredAt(buffer: seq<byte>, size: nat, head: nat, queue: seq<byte>)
    requires head <= size && |queue| <= size <= |buffer| && (head < size || queue == [])
  {
    forall k :: 0 <= k < |queue| ==> buffer[Place(size, head, k)] == queue[k]
  }

  /** The used bytes of the buffer are the queue. */
  ghost predicate Stored(s: State)
    requires Cursors(s)
  {
    StoredAt(s.buffer, s.size, Head(s), Queue(s))
  }

  /** The bytes that the writer has copied but not made available stand behind the queue, and what it was
      allowed to write is what is available and what it still holds. */
  ghost predicate WriterOk(s: State)
    requires Cursors(s)
  {
    match s.writer
    case Unlocked => s.accepted == s.written
    case CopyFirst(data, first, k) =>
      && k <= first <= |data| && s.used + |data| <= s.size && s.w + first <= s.size
      && (first < |data| ==> s.w + first == s.size)
      && (forall j :: 0 <= j < k ==> s.buffer[s.w + j] == data[j])
      && s.accepted == s.written + data
    case AddFirst(data, first) =>
      && first <= |data| && s.used + |data| <= s.size && first <= s.w
      && (first < |data| ==> s.w == s.size)
      && (forall j :: 0 <= j < first ==> s.buffer[s.w - first + j] == data[j])
      && s.accepted == s.written + data
    case Rewind(data, first) =>
      && first < |data| && s.used + (|data| - first) <= s.size && s.w == s.size
      && s.accepted == s.written + data[first..]
    case CopySecond(data, first, k) =>
      && first + k <= |data| && first < |data| && s.used + (|data| - first) <= s.size && s.w == 0
      && (forall j :: 0 <= j < k ==> s.buffer[j] == data[first + j])
      && s.accepted == s.written + data[first..]
    case AddSecond(data, first) =>
      && first < |data| && s.used + (|data| - first) <= s.size && s.w == |data| - first
      && (forall j :: 0 <= j < |data| - first ==> s.buffer[j] == data[first + j])
      && s.accepted == s.written + data[first..]
  }

  ghost predicate ReaderOk(s: State)
    requires Cursors(s)
  {
    match s.reader
    case Resting => true
    case Checked(n, _) => n <= s.used
    case Copying(n, _, cursor, out) =>
      && |out| <= n <= s.used
      && (cursor == Head(s) || n == 0)
      && out == Queue(s)[..|out|]
  }

  ghost predicate Inv(s: State) {
    Cursors(s) && Stored(s) && WriterOk(s) && ReaderOk(s)
  }

  lemma InitInv(s: State)
    requires Init(s)
    ensures Inv(s)
  {
  }

  // ---------------------------------------------------------------- one step

  /** Starting, rewinding and advancing the cursor leave the queue where it is. */
  lemma CursorStepsKeepQueue(s: State, step: Step)
    requires Inv(s) && Enabled(s, step)
    requires step.WriteStart? || step.AdvanceCursor? || step.RewindCursor?
    ensures Cursors(Next(s, step)) && Head(Next(s, step)) == Head(s) && Queue(Next(s, step)) == Queue(s)
  {
    hide StoredAt, ReaderOk;
  }

  lemma CursorStepsKeepWriter(s: State, step: Step)
    requires Inv(s) && Enabled(s, step) && Cursors(Next(s, step))
    requires step.WriteStart? || step.AdvanceCursor? || step.RewindCursor?
    ensures WriterOk(Next(s, step))
  {
    hide StoredAt, ReaderOk;
    if step.WriteStart? {
      assert s.accepted + step.data == s.written + step.data;
      assert step.data[0..] == step.data;
    }
  }

  lemma CursorStepsKeepInv(s: State, step: Step)
    requires Inv(s) && Enabled(s, step)
    requires step.WriteStart? || step.AdvanceCursor? || step.RewindCursor?
    ensures Inv(Next(s, step)) && Head(Next(s, step)) == Head(s) && Queue(Next(s, step)) == Queue(s)
  {
    CursorStepsKeepQueue(s, step);
    CursorStepsKeepWriter(s, step);
    hide StoredAt, WriterOk, Queue, Head, Cursors;
  }

  /** A byte that a writer stores lies outside the used part of the buffer. */
  lemma WritesOutside(s: State)
    requires Inv(s) && Enabled(s, WriteByte)
    ensures 0 <= WritePlace(s) < s.size
    ensures forall k :: 0 <= k < s.used ==> WritePlace(s) != Place(s.size, Head(s), k)
  {
  }

  lemma WriteByteKeepsInv(s: State)
    requires Inv(s) && Enabled(s, WriteByte)
    ensures Inv(Next(s, WriteByte)) && Head(Next(s, WriteByte)) == Head(s)
    ensures Queue(Next(s, WriteByte)) == Queue(s)
  {
    WriteByteQueue(s);
    WriteByteStored(s);
    WriteByteWriter(s);
    hide StoredAt, WriterOk, Queue, Head, Cursors, Next;
    WriteByteReader(s);
  }

  lemma WriteByteQueue(s: State)
    requires Inv(s) && Enabled(s, WriteByte)
    ensures var t := Next(s, WriteByte); Cursors(t) && Head(t) == Head(s) && Queue(t) == Queue(s)
    ensures Next(s, WriteByte).reader == s.reader && Next(s, WriteByte).used == s.used
  {
    hide StoredAt, ReaderOk;
  }

  lemma WriteByteStored(s: State)
    requires Inv(s) && Enabled(s, WriteByte)
    ensures Cursors(Next(s, WriteByte)) && Stored(Next(s, WriteByte))
  {
    WritesOutside(s);
    WriteByteQueue(s);
    hide ReaderOk, Queue, Head;
    assert StoredAt(Next(s, WriteByte).buffer, s.size, Head(s), Queue(s));
  }

  lemma WriteByteWriter(s: State)
    requires Inv(s) && Enabled(s, WriteByte)
    ensures Cursors(Next(s, WriteByte)) && WriterOk(Next(s, WriteByte))
  {
    hide StoredAt, ReaderOk, Queue, Head;
  }

  lemma WriteByteReader(s: State)
    requires Inv(s) && Enabled(s, WriteByte)
    ensures Cursors(Next(s, WriteByte)) && ReaderOk(Next(s, WriteByte))
  {
    WriteByteQueue(s);
    hide StoredAt, WriterOk, Queue, Head, Cursors, Next;
  }

  /** The bytes that the next AdvanceUsed makes available. */
  function Part(w: Writer): seq<byte> {
    match w
    case AddFirst(data, first) => if first <= |data| then data[..first] else []
    case AddSecond(data, first) => if first <= |data| then data[first..] else []
    case _ => []
  }

  lemma TailAppend(a: seq<byte>, b: seq<byte>, n: nat)
    requires n <= |a|
    ensures (a + b)[n..] == a[n..] + b
  {
  }

  lemma AdvanceUsedHead(s: State)
    requires Inv(s) && Enabled(s, AdvanceUsed)
    ensures var t := Next(s, AdvanceUsed);
            Cursors(t) && Head(t) == Head(s) && t.written == s.written + Part(s.writer)
  {
    hide StoredAt, ReaderOk, Queue;
  }

  lemma AdvanceUsedQueue(s: State)
    requires Inv(s) && Enabled(s, AdvanceUsed)
    ensures var t := Next(s, AdvanceUsed);
            Cursors(t) && Head(t) == Head(s) && Queue(t) == Queue(s) + Part(s.writer)
  {
    hide StoredAt, ReaderOk, WriterOk, Part, Head;
    AdvanceUsedHead(s);
    TailAppend(s.written, Part(s.writer), |s.taken|);
  }

  lemma AdvanceUsedStored(s: State)
    requires Inv(s) && Enabled(s, AdvanceUsed)
    ensures Cursors(Next(s, AdvanceUsed)) && Stored(Next(s, AdvanceUsed))
  {
    hide ReaderOk, Queue, WriterOk, Head, Part;
    AdvanceUsedQueue(s);
    PartPlaces(s);
    assert StoredAt(s.buffer, s.size, Head(s), Queue(s) + Part(s.writer));
  }

  /** The copied bytes stand directly behind the queue. */
  lemma PartPlaces(s: State)
    requires Inv(s) && Enabled(s, AdvanceUsed)
    ensures |Queue(s)| == s.used && s.used + |Part(s.writer)| <= s.size
    ensures Head(s) <= s.size && (Head(s) < s.size || Queue(s) + Part(s.writer) == [])
    ensures forall k :: s.used <= k < s.used + |Part(s.writer)| ==>
              s.buffer[Place(s.size, Head(s), k)] == Part(s.writer)[k - s.used]
  {
    hide ReaderOk, StoredAt;
    var part := Part(s.writer);
    forall k | s.used <= k < s.used + |part|
      ensures s.buffer[Place(s.size, Head(s), k)] == part[k - s.used]
    {
      assert Place(s.size, Head(s), k) == s.w - |part| + (k - s.used);
    }
  }

  lemma AdvanceUsedWriter(s: State)
    requires Inv(s) && Enabled(s, AdvanceUsed) && Cursors(Next(s, AdvanceUsed))
    ensures WriterOk(Next(s, AdvanceUsed))
  {
    hide StoredAt, ReaderOk, Queue;
    var data, first := s.writer.data, s.writer.first;
    assert (s.written + data[..first]) + data[first..] == s.written + data;
    if first == |data| {
      assert data[..first] == data;
    }
  }

  /** Making bytes available appends them to the queue. */
  lemma AdvanceUsedKeepsInv(s: State)
    requires Inv(s) && Enabled(s, AdvanceUsed)
    ensures Inv(Next(s, AdvanceUsed))
    ensures Queue(Next(s, AdvanceUsed)) == Queue(s) + Part(s.writer)
  {
    AdvanceUsedQueue(s);
    AdvanceUsedStored(s);
    AdvanceUsedWriter(s);
    hide StoredAt, WriterOk, Part;
  }

  lemma CheckKeepsInv(s: State, step: Step)
    requires Inv(s) && Enabled(s, step) && (step.ReadCheck? || step.ReadCursorStep?)
    ensures Inv(Next(s, step)) && Queue(Next(s, step)) == Queue(s)
  {
    hide StoredAt;
  }

  lemma ReadByteKeepsInv(s: State)
    requires Inv(s) && Enabled(s, ReadByte)
    ensures Inv(Next(s, ReadByte)) && Queue(Next(s, ReadByte)) == Queue(s)
  {
    hide StoredAt, ReadPlace, ReaderOk;
    ReadByteOk(s);
  }

  lemma ReadByteOk(s: State)
    requires Inv(s) && Enabled(s, ReadByte)
    ensures Cursors(Next(s, ReadByte)) && ReaderOk(Next(s, ReadByte))
  {
    hide StoredAt, WriterOk, ReadPlace;
    ReadsQueue(s);
    var k := |s.reader.out|;
    assert Queue(s)[..k + 1] == Queue(s)[..k] + [Queue(s)[k]];
  }

  /** The reader's next byte is the next byte of the queue. */
  lemma ReadsQueue(s: State)
    requires Inv(s) && Enabled(s, ReadByte)
    ensures 0 <= ReadPlace(s) < s.size
    ensures s.buffer[ReadPlace(s)] == Queue(s)[|s.reader.out|]
  {
    assert ReadPlace(s) == Place(s.size, Head(s), |s.reader.out|);
  }

  lemma ReadEndQueue(s: State)
    requires Inv(s) && Enabled(s, ReadEnd) && s.reader.consume
    ensures var t := Next(s, ReadEnd);
            && Cursors(t) && Queue(t) == Queue(s)[s.reader.n..]
            && (t.used > 0 ==> Head(t) == Place(s.size, Head(s), s.reader.n))
  {
    hide StoredAt;
    var t, n := Next(s, ReadEnd), s.reader.n;
    assert t.taken == s.written[..|s.taken| + n];
  }

  lemma PrereadEndKeepsInv(s: State)
    requires Inv(s) && Enabled(s, ReadEnd) && !s.reader.consume
    ensures Inv(Next(s, ReadEnd)) && Queue(Next(s, ReadEnd)) == Queue(s)
  {
    hide StoredAt;
  }

  lemma TakingReadEndKeepsInv(s: State)
    requires Inv(s) && Enabled(s, ReadEnd) && s.reader.consume
    ensures Inv(Next(s, ReadEnd)) && Queue(Next(s, ReadEnd)) == Queue(s)[s.reader.n..]
  {
    hide StoredAt, Head, Queue;
    ReadEndQueue(s);
    ReadEndStored(s);
  }

  lemma ReadIsQueue(s: State)
    requires Inv(s) && Enabled(s, ReadEnd)
    ensures s.reader.n <= s.used == |Queue(s)| && |s.reader.out| == s.reader.n
    ensures s.reader.out == Queue(s)[..s.reader.n]
  {
    hide StoredAt, Head, WriterOk;
  }

  /** The end of a read takes exactly the oldest bytes; the end of a preread takes nothing. */
  lemma ReadEndKeepsInv(s: State)
    requires Inv(s) && Enabled(s, ReadEnd)
    ensures Inv(Next(s, ReadEnd))
    ensures |Queue(s)| >= s.reader.n && s.reader.out == Queue(s)[..s.reader.n]
    ensures Queue(Next(s, ReadEnd)) == if s.reader.consume then Queue(s)[s.reader.n..] else Queue(s)
  {
    ReadIsQueue(s);
    hide Queue, Inv, Next;
    if s.reader.consume {
      TakingReadEndKeepsInv(s);
    } else {
      PrereadEndKeepsInv(s);
    }
  }

  lemma ReadEndStored(s: State)
    requires Inv(s) && Enabled(s, ReadEnd) && s.reader.consume
    ensures Cursors(Next(s, ReadEnd)) && Stored(Next(s, ReadEnd))
  {
    ReadEndQueue(s);
    var t, n := Next(s, ReadEnd), s.reader.n;
    hide Queue, Head, WriterOk;
    forall k | 0 <= k < |Queue(t)| ensures t.buffer[Place(t.size, Head(t), k)] == Queue(t)[k] {
      assert Place(t.size, Head(t), k) == Place(s.size, Head(s), n + k);
      assert Queue(t)[k] == Queue(s)[n + k];
    }
  }

  lemma StepKeepsInv(s: State, step: Step)
    requires Inv(s) && Enabled(s, step)
    ensures Inv(Next(s, step))
  {
    match step
    case WriteByte => WriteByteKeepsInv(s);
    case AdvanceUsed => AdvanceUsedKeepsInv(s);
    case ReadEnd => ReadEndKeepsInv(s);
    case WriteStart(_) => CursorStepsKeepInv(s, step);
    case AdvanceCursor => CursorStepsKeepInv(s, step);
    case RewindCursor => CursorStepsKeepInv(s, step);
    case ReadByte => ReadByteKeepsInv(s);
    case _ => CheckKeepsInv(s, step);
  }

  // ---------------------------------------------------------------- whole runs

  /** The state after taking `steps` one by one, if each can be taken when its turn comes. The steps of
      the reader and of the writers come in any order. */
  ghost function Run(s: State, steps: seq<Step>): Option<State>
    requires Inv(s)
    decreases |steps|
  {
    if steps == [] then Some(s)
    else if !Enabled(s, steps[0]) then None
    else
      StepKeepsInv(s, steps[0]);
      Run(Next(s, steps[0]), steps[1..])
  }

  /** The invariant holds after any interleaving. */
  lemma {:induction false} RunKeepsInv(s: State, steps: seq<Step>)
    requires Inv(s) && Run(s, steps).Some?
    ensures Inv(Run(s, steps).value)
    decreases |steps|
  {
    hide Inv, Enabled, Next, Init;
    if steps == [] {
    } else {
      StepKeepsInv(s, steps[0]);
      RunKeepsInv(Next(s, steps[0]), steps[1..]);
    }
  }

  /** A state that some interleaving leads to from an empty cache. */
  ghost predicate Reachable(t: State) {
    exists s: State, steps: seq<Step> :: Init(s) && (InitInv(s); Run(s, steps) == Some(t))
  }

  lemma ReachableInv(t: State)
    requires Reachable(t)
    ensures Inv(t)
  {
    var s: State, steps: seq<Step> :| Init(s) && (InitInv(s); Run(s, steps) == Some(t));
    RunKeepsInv(s, steps);
  }

  /** What the writer at work still has to make available. */
  function Pending(w: Writer): seq<byte> {
    match w
    case Unlocked => []
    case CopyFirst(data, _, _) => data
    case AddFirst(data, _) => data
    case Rewind(data, first) => if first <= |data| then data[first..] else []
    case CopySecond(data, first, _) => if first <= |data| then data[first..] else []
    case AddSecond(data, first) => if first <= |data| then data[first..] else []
  }

  /** No byte is lost, doubled or put out of order: at any moment of any interleaving, the bytes that the
      writers were allowed to write are those that reads have taken, then those in the cache, then those
      of the writer at work. */
  lemma NothingLost(t: State)
    requires Reachable(t)
    ensures t.accepted == t.taken + Queue(t) + Pending(t.writer)
    ensures |Queue(t)| == t.used <= t.size
  {
    hide StoredAt, Head, Reachable;
    ReachableInv(t);
    assert t.taken + Queue(t) == t.written;
  }

  /** When a read or preread of `n` bytes ends, at whatever moment its unlocked check and copy were
      done, it has exactly the `n` oldest bytes. */
  lemma ReadsAreFifo(t: State)
    requires Reachable(t) && Enabled(t, ReadEnd)
    ensures var n := t.reader.n;
            && n <= t.used && |t.reader.out| == n
            && t.taken + t.reader.out <= t.accepted
            && t.reader.out <= Queue(t)
  {
    hide Inv, Queue, Pending, Reachable;
    ReachableInv(t);
    NothingLost(t);
    ReadIsQueue(t);
    var n := t.reader.n;
    assert Queue(t) == t.reader.out + Queue(t)[n..];
    assert t.accepted == (t.taken + t.reader.out) + (Queue(t)[n..] + Pending(t.writer));
  }

  /** While the reader copies without the lock, no writer stores to a place that the reader has read or
      is still going to read, and both stay inside the buffer. */
  lemma NoRace(t: State, k: nat)
    requires Reachable(t) && t.reader.Copying? && k < t.reader.n && Enabled(t, WriteByte)
    ensures 0 <= WritePlace(t) < t.size
    ensures 0 <= Place(t.size, t.reader.cursor, k) < t.size
    ensures WritePlace(t) != Place(t.size, t.reader.cursor, k)
    ensures k == |t.reader.out| ==> ReadPlace(t) == Place(t.size, t.reader.cursor, k)
  {
    hide Reachable, StoredAt;
    ReachableInv(t);
    WritesOutside(t);
  }
}
