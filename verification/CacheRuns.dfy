/** Runs of the cache with its threads, described by the steps that were taken and by nothing else: what the
    writers have handed in, what the reader has asked for, and how much of it has been taken. */
module CacheRuns {
  import opened Wire
  import opened HiviewCaches
  import opened CacheThreads

  /** A call of the reader: so many bytes, by a read or, when they are to stay, by a preread. */
  datatype Ask = Ask(n: nat, consume: bool)

  /** The data of the writes that were let in. */
  function Accepted(steps: seq<Step>): seq<byte> {
    if steps == [] then []
    else
      var rest, last := Accepted(steps[..|steps| - 1]), steps[|steps| - 1];
      if last.WriteStart? then rest + last.data else rest
  }

  /** The call that the reader is busy with: the last one that was begun, if it has not ended. */
  function Asked(steps: seq<Step>): Option<Ask> {
    if steps == [] then None
    else
      match steps[|steps| - 1]
      case ReadCheck(n, consume) => Some(Ask(n, consume))
      case ReadEnd => None
      case _ => Asked(steps[..|steps| - 1])
  }

  /** How many bytes the reads that have ended asked for. */
  function Taken(steps: seq<Step>): nat {
    if steps == [] then 0
    else
      var front, last := steps[..|steps| - 1], steps[|steps| - 1];
      match Asked(front)
      case Some(ask) => if last.ReadEnd? && ask.consume then Taken(front) + ask.n else Taken(front)
      case None => Taken(front)
  }

  // ---------------------------------------------------------------- one more step

  lemma {:induction false} RunAppend(s: State, steps: seq<Step>, step: Step)
    requires Inv(s)
    ensures Run(s, steps).None? ==> Run(s, steps + [step]).None?
    ensures Run(s, steps).Some? ==>
              var t := Run(s, steps).value;
              && Inv(t)
              && (Run(s, steps + [step]).Some? <==> Enabled(t, step))
              && (Enabled(t, step) ==> Run(s, steps + [step]) == Some(Next(t, step)))
    decreases |steps|
  {
    hide Inv, Enabled, Next;
    var all := steps + [step];
    if steps == [] {
      assert all[0] == step && all[1..] == [];
      if Enabled(s, step) {
        StepKeepsInv(s, step);
      }
    } else if Enabled(s, steps[0]) {
      assert all[0] == steps[0] && all[1..] == steps[1..] + [step];
      StepKeepsInv(s, steps[0]);
      RunAppend(Next(s, steps[0]), steps[1..], step);
    } else {
      assert all[0] == steps[0];
    }
  }

  /** The call that the state of the reader stands for. */
  function AskOf(r: Reader): Option<Ask> {
    match r
    case Resting => None
    case Checked(n, consume) => Some(Ask(n, consume))
    case Copying(n, consume, _, _) => Some(Ask(n, consume))
  }

  lemma StepReader(t: State, step: Step)
    requires Inv(t) && Enabled(t, step)
    ensures var u := Next(t, step);
            && AskOf(u.reader) == (match step
                                   case ReadCheck(n, consume) => Some(Ask(n, consume))
                                   case ReadEnd => None
                                   case _ => AskOf(t.reader))
            && u.accepted == (if step.WriteStart? then t.accepted + step.data else t.accepted)
            && |u.taken| == |t.taken| + (if step.ReadEnd? && t.reader.consume then t.reader.n else 0)
            && u.size == t.size
  {
    hide Inv;
  }

  /** The steps alone tell what was accepted, what the reader is at, and how much was taken. */
  lemma {:induction false} RunTells(s: State, steps: seq<Step>)
    requires Init(s) && Run(s, steps).Some?
    ensures var t := Run(s, steps).value;
            t.accepted == Accepted(steps) && AskOf(t.reader) == Asked(steps) && |t.taken| == Taken(steps)
            && t.size == s.size && Inv(t)
    decreases |steps|
  {
    if steps == [] {
    } else {
      var front, last := steps[..|steps| - 1], steps[|steps| - 1];
      assert front + [last] == steps;
      RunAppend(s, front, last);
      RunTells(s, front);
      var t := Run(s, front).value;
      StepReader(t, last);
      StepKeepsInv(t, last);
      hide Inv, Run, Next, Init;
    }
  }

  lemma RunReachable(s: State, steps: seq<Step>)
    requires Init(s) && Run(s, steps).Some?
    ensures Reachable(Run(s, steps).value)
  {
  }

  // ---------------------------------------------------------------- what the reader gets

  lemma Parts(all: seq<byte>, a: seq<byte>, b: seq<byte>, c: seq<byte>)
    requires all == a + b + c
    ensures |a| + |b| <= |all| && a == all[..|a|] && b == all[|a|..|a| + |b|]
    ensures c == [] ==> b == all[|a|..]
  {
  }

  /** The bytes that have been taken are the first ones that were accepted, as many as the reads that have
      ended asked for. The cache has those that follow, and all of them when no writer is at work. */
  lemma TakenAreFirst(s: State, steps: seq<Step>)
    requires Init(s) && Run(s, steps).Some?
    ensures var t, all, from := Run(s, steps).value, Accepted(steps), Taken(steps);
            && from + t.used <= |all| && t.taken == all[..from] && Queue(t) == all[from..from + t.used]
            && (t.writer.Unlocked? ==> Queue(t) == all[from..])
  {
    InitInv(s);
    RunTells(s, steps);
    RunReachable(s, steps);
    hide Inv, Run, Init, Queue, Reachable, Accepted, Taken;
    var t := Run(s, steps).value;
    NothingLost(t);
    Parts(t.accepted, t.taken, Queue(t), Pending(t.writer));
  }

  /** What the end of a call does. */
  lemma ReadEnds(t: State)
    requires Inv(t) && Enabled(t, ReadEnd)
    ensures var u, n := Next(t, ReadEnd), t.reader.n;
            && n <= t.used && |t.reader.out| == n && t.reader.out <= Queue(t) && |Queue(t)| == t.used
            && (t.reader.consume ==>
                  u.taken == t.taken + t.reader.out && u.used == t.used - n && Queue(t) == t.reader.out + Queue(u))
            && (!t.reader.consume ==> u.taken == t.taken && u.used == t.used && Queue(u) == Queue(t))
  {
    ReadIsQueue(t);
    EndOfCall(t);
    hide Inv, Queue, Next;
    if t.reader.consume {
      ReadEndQueue(t);
      Front(Queue(t), t.reader.n);
    }
  }

  lemma Front(queue: seq<byte>, n: nat)
    requires n <= |queue|
    ensures queue == queue[..n] + queue[n..]
  {
  }

  lemma EndOfCall(t: State)
    requires Inv(t) && Enabled(t, ReadEnd)
    ensures var u, n := Next(t, ReadEnd), t.reader.n;
            && (t.reader.consume ==> u.taken == t.taken + t.reader.out && u.used == t.used - n)
            && (!t.reader.consume ==> u.taken == t.taken && u.used == t.used && Queue(u) == Queue(t))
  {
    hide Inv;
  }

  /** A call ends with the bytes it asked for: those that follow the ones taken so far. A read takes exactly
      these out of the cache, and a preread takes none. */
  lemma CallReturns(s: State, steps: seq<Step>)
    requires Init(s) && Run(s, steps + [ReadEnd]).Some?
    ensures Run(s, steps).Some? && Asked(steps).Some?
    ensures var t, u, ask := Run(s, steps).value, Run(s, steps + [ReadEnd]).value, Asked(steps).value;
            var all, from := Accepted(steps), Taken(steps);
            && from + ask.n <= |all| && t.reader.Copying? && t.reader.out == all[from..from + ask.n]
            && (ask.consume ==>
                  u.taken == t.taken + t.reader.out && u.used == t.used - ask.n && Queue(t) == t.reader.out + Queue(u))
            && (!ask.consume ==> u.taken == t.taken && u.used == t.used && Queue(u) == Queue(t))
  {
    InitInv(s);
    RunAppend(s, steps, ReadEnd);
    RunTells(s, steps);
    TakenAreFirst(s, steps);
    hide Inv, Run, Init, Queue, Accepted, Taken, Asked, Next;
    ReadEnds(Run(s, steps).value);
  }

  /** The other steps take nothing. */
  lemma OnlyReadsTake(s: State, steps: seq<Step>, step: Step)
    requires Init(s) && Run(s, steps + [step]).Some? && !step.ReadEnd?
    ensures Run(s, steps).Some? && Run(s, steps + [step]).value.taken == Run(s, steps).value.taken
  {
    InitInv(s);
    RunAppend(s, steps, step);
    hide Inv, Run, Init;
  }

  // ---------------------------------------------------------------- every call can end

  /** The step that the writer at work takes next. */
  function WriterStep(w: Writer): Step {
    match w
    case CopyFirst(_, first, k) => if k < first then WriteByte else AdvanceCursor
    case CopySecond(data, first, k) => if first + k < |data| then WriteByte else AdvanceCursor
    case Rewind(_, _) => RewindCursor
    case _ => AdvanceUsed
  }

  /** How many steps it has left. */
  function WriterLeft(w: Writer): int {
    match w
    case Unlocked => 0
    case CopyFirst(data, first, k) => first - k + 2 + SecondPart(data, first)
    case AddFirst(data, first) => 1 + SecondPart(data, first)
    case Rewind(data, first) => SecondPart(data, first)
    case CopySecond(data, first, k) => |data| - first - k + 2
    case AddSecond(_, _) => 1
  }

  function SecondPart(data: seq<byte>, first: nat): nat {
    if first < |data| then |data| - first + 3 else 0
  }

  lemma WriterGoesOn(t: State)
    requires Inv(t) && !t.writer.Unlocked?
    ensures var step := WriterStep(t.writer);
            && Enabled(t, step) && !step.WriteStart?
            && 0 <= WriterLeft(Next(t, step).writer) < WriterLeft(t.writer)
            && Next(t, step).reader == t.reader && Next(t, step).taken == t.taken
            && Next(t, step).accepted == t.accepted
  {
    hide StoredAt, ReaderOk;
  }

  /** A writer at work can go on to its end, whatever the reader is at. */
  lemma {:induction false} WriterFinishes(t: State) returns (steps: seq<Step>, u: State)
    requires Inv(t)
    ensures Run(t, steps) == Some(u) && Inv(u) && u.writer.Unlocked?
    ensures u.reader == t.reader && u.taken == t.taken && u.accepted == t.accepted
    decreases WriterLeft(t.writer)
  {
    if t.writer.Unlocked? {
      steps, u := [], t;
    } else {
      WriterGoesOn(t);
      var step := WriterStep(t.writer);
      StepKeepsInv(t, step);
      steps, u := WriterFinishes(Next(t, step));
      hide Inv, Next, Enabled;
      steps := [step] + steps;
    }
  }

  lemma WrittenQueue(t: State)
    requires Inv(t) && t.writer.Unlocked?
    ensures t.accepted == t.taken + Queue(t) && |Queue(t)| == t.used
  {
    hide StoredAt, Head, ReaderOk;
  }

  lemma Appended(all: seq<byte>, taken: seq<byte>, queue: seq<byte>, data: seq<byte>, after: seq<byte>)
    requires all == taken + queue && all + data == taken + after
    ensures after == queue + data
  {
    assert taken + (queue + data) == taken + after;
    assert queue + data == (taken + (queue + data))[|taken|..];
    assert after == (taken + after)[|taken|..];
  }

  lemma FirstThen(step: Step, steps: seq<Step>)
    ensures ([step] + steps)[0] == step && ([step] + steps)[1..] == steps
  {
  }

  /** A write that finds the lock free is let in exactly when its bytes fit, and can go on until the cache has
      all of them behind the ones it had. */
  lemma WriteCompletes(t: State, data: seq<byte>) returns (steps: seq<Step>, u: State)
    requires Inv(t) && t.writer.Unlocked?
    ensures Enabled(t, WriteStart(data)) <==> |data| < 0x1_0000 && t.used + |data| <= t.size
    ensures Enabled(t, WriteStart(data)) ==>
              && Run(t, [WriteStart(data)] + steps) == Some(u) && Inv(u) && u.writer.Unlocked?
              && Queue(u) == Queue(t) + data && u.used == t.used + |data| && u.reader == t.reader
  {
    steps, u := [], t;
    if Enabled(t, WriteStart(data)) {
      hide Inv, Queue, Next, Enabled;
      StepKeepsInv(t, WriteStart(data));
      WriteStarts(t, data);
      steps, u := WriterFinishes(Next(t, WriteStart(data)));
      WrittenQueue(t);
      WrittenQueue(u);
      Appended(t.accepted, t.taken, Queue(t), data, Queue(u));
      FirstThen(WriteStart(data), steps);
    }
  }

  lemma WriteStarts(t: State, data: seq<byte>)
    requires Inv(t) && Enabled(t, WriteStart(data))
    ensures var v := Next(t, WriteStart(data));
            v.accepted == t.accepted + data && v.taken == t.taken && v.reader == t.reader
  {
    hide Inv;
  }

  function ReaderStep(r: Reader): Step {
    match r
    case Copying(n, _, _, out) => if |out| < n then ReadByte else ReadEnd
    case _ => ReadCursorStep
  }

  function ReaderLeft(r: Reader): int {
    match r
    case Resting => 0
    case Checked(n, _) => n + 2
    case Copying(n, _, _, out) => n - |out| + 1
  }

  lemma ReaderGoesOn(t: State)
    requires Inv(t) && !t.reader.Resting? && t.writer.Unlocked?
    ensures var step := ReaderStep(t.reader);
            var u := Next(t, step);
            && Enabled(t, step) && 0 <= ReaderLeft(u.reader) < ReaderLeft(t.reader) && u.writer.Unlocked?
            && (step.ReadEnd? <==> u.reader.Resting?)
            && (!step.ReadEnd? ==> AskOf(u.reader) == AskOf(t.reader) && Queue(u) == Queue(t) && u.used == t.used)
  {
    hide StoredAt, Head;
  }

  /** The queue after a call has ended. */
  function After(queue: seq<byte>, ask: Ask): seq<byte> {
    if ask.consume && ask.n <= |queue| then queue[ask.n..] else queue
  }

  lemma {:induction false} ReaderFinishes(t: State) returns (steps: seq<Step>, u: State)
    requires Inv(t) && !t.reader.Resting? && t.writer.Unlocked?
    ensures Run(t, steps) == Some(u) && Inv(u) && u.reader.Resting? && u.writer.Unlocked?
    ensures Queue(u) == After(Queue(t), AskOf(t.reader).value)
    decreases ReaderLeft(t.reader)
  {
    var step := ReaderStep(t.reader);
    ReaderGoesOn(t);
    StepKeepsInv(t, step);
    var v := Next(t, step);
    if step.ReadEnd? {
      ReadEnds(t);
      steps, u := [], v;
    } else {
      steps, u := ReaderFinishes(v);
    }
    hide Inv, Next, Enabled, Queue;
    steps := [step] + steps;
  }

  /** A read or preread that finds no writer at work is let in exactly when the cache has the bytes, and can
      go on to its end, after which a read has removed them and a preread has not. */
  lemma ReadCompletes(t: State, n: nat, consume: bool) returns (steps: seq<Step>, u: State)
    requires Inv(t) && t.writer.Unlocked? && t.reader.Resting?
    ensures Enabled(t, ReadCheck(n, consume)) <==> n <= |Queue(t)|
    ensures n <= |Queue(t)| ==>
              && Run(t, [ReadCheck(n, consume)] + steps) == Some(u) && Inv(u) && u.reader.Resting?
              && Queue(u) == if consume then Queue(t)[n..] else Queue(t)
  {
    steps, u := [], t;
    WrittenQueue(t);
    var step := ReadCheck(n, consume);
    if Enabled(t, step) {
      StepKeepsInv(t, step);
      CheckKeepsInv(t, step);
      steps, u := ReaderFinishes(Next(t, step));
      hide Inv, Queue;
      assert ([step] + steps)[1..] == steps;
    }
  }
}
