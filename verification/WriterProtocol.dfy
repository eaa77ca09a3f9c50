/** The asynchronous writer as a protocol: any number of producers, the writer thread and the owner,
    interleaved freely. One step is one stretch of code that runs with or without the lock; the ring
    itself appears as the byte queue that `AsyncRing.AsyncIo` is proved to implement. */
module WriterProtocol {
  import opened AsyncRing
  import opened Bytes
  import opened Sequences

  datatype Finish = RunningFlag | CloseFlag | ExitFlag

  datatype Lock = Free | Held(producer: nat)

  /** A producer is outside the writer, between lock and unlock with chunks left to write, or between
      unlock and signal. */
  datatype Producer = Idle | Holding(todo: seq<seq<byte>>) | Signalling

  /** Where `aio_thread` stands: about to lock, in `sphore_wait`, in `io_write` with its local copy,
      past the unlock of its last critical section, or gone. */
  datatype Consumer = WantLock | Blocked | Writing(local: seq<byte>) | Releasing(doFree: bool) | Exited

  /** Where the owner stands among `aio_close`, `aio_wait` and `aio_free`. */
  datatype Owner =
    | Live(joined: bool)
    | CloseSignal(joined: bool)
    | WaitSignal
    | Joining
    | OwnerReleasing(doFree: bool)
    | Gone

  /** `queued`, `begun`, `lines` and `partial` are history: every byte ever passed to
      `aio_write_unlocked`; what each lock hold set out to write, in the order of the locks; what each
      finished lock hold wrote, in the order of the unlocks; what the open lock hold has written. */
  datatype State = State(
    lock: Lock,
    queue: seq<byte>,
    semaphore: nat,
    finish: Finish,
    refcount: int,
    fileClosed: nat,
    freed: nat,
    written: seq<byte>,
    producers: map<nat, Producer>,
    consumer: Consumer,
    owner: Owner,
    queued: seq<byte>,
    begun: seq<seq<byte>>,
    lines: seq<seq<byte>>,
    partial: seq<byte>)

  datatype Step =
    | Begin(p: nat, chunks: seq<seq<byte>>)
    | WriteChunk(p: nat)
    | End(p: nat)
    | Signal(p: nat)
    | ConsumerLoop
    | ConsumerWake
    | ConsumerWrite
    | ConsumerFree
    | OwnerClose
    | OwnerWait
    | OwnerSignal
    | OwnerJoin
    | OwnerFree
    | OwnerDestroy

  /** The state `aio_new` leaves behind. */
  function Init(): State {
    State(Free, [], 0, RunningFlag, 2, 0, 0, [], map[], WantLock, Live(false), [], [], [], [])
  }

  function ProducerAt(s: State, p: nat): Producer {
    if p in s.producers then s.producers[p] else Idle
  }

  predicate ConsumerReleased(s: State) { s.consumer.Releasing? || s.consumer.Exited? }

  predicate OwnerReleased(s: State) { s.owner.OwnerReleasing? || s.owner.Gone? }

  ghost predicate AllIdle(s: State) { forall p: nat :: ProducerAt(s, p).Idle? }

  /** When a step can be taken. */
  ghost predicate Enabled(s: State, step: Step) {
    match step
    case Begin(p, _) => s.lock.Free? && ProducerAt(s, p).Idle?
    case WriteChunk(p) => s.lock == Held(p) && ProducerAt(s, p).Holding? && ProducerAt(s, p).todo != []
    case End(p) => s.lock == Held(p) && ProducerAt(s, p) == Holding([])
    case Signal(p) => ProducerAt(s, p).Signalling?
    case ConsumerLoop => s.lock.Free? && s.consumer.WantLock?
    case ConsumerWake => s.consumer.Blocked? && s.semaphore > 0
    case ConsumerWrite => s.consumer.Writing?
    case ConsumerFree => s.consumer.Releasing?
    case OwnerClose => s.lock.Free? && s.owner.Live?
    case OwnerWait => s.lock.Free? && s.owner == Live(false)
    case OwnerSignal => s.owner.CloseSignal? || s.owner.WaitSignal?
    case OwnerJoin => s.owner.Joining? && s.consumer.Exited?
    case OwnerFree => s.lock.Free? && s.owner.Live?
    case OwnerDestroy => s.owner.OwnerReleasing?
  }

  ghost function Apply(s: State, step: Step): State
    requires Enabled(s, step)
  {
    match step
    case Begin(p, chunks) =>
      s.(lock := Held(p), producers := s.producers[p := Holding(chunks)], begun := s.begun + [Flatten(chunks)])
    case WriteChunk(p) =>
      var chunk, rest := ProducerAt(s, p).todo[0], ProducerAt(s, p).todo[1..];
      s.(queue := s.queue + chunk, queued := s.queued + chunk, partial := s.partial + chunk,
         producers := s.producers[p := Holding(rest)])
    case End(p) =>
      s.(lock := Free, lines := s.lines + [s.partial], partial := [], producers := s.producers[p := Signalling])
    case Signal(p) => s.(semaphore := s.semaphore + 1, producers := s.producers[p := Idle])
    case ConsumerLoop => AfterLoop(s)
    case ConsumerWake => s.(semaphore := s.semaphore - 1, consumer := WantLock)
    case ConsumerWrite => s.(written := s.written + s.consumer.local, consumer := WantLock)
    case ConsumerFree => s.(consumer := Exited, freed := s.freed + if s.consumer.doFree then 1 else 0)
    case OwnerClose => s.(finish := CloseFlag, owner := CloseSignal(s.owner.joined))
    case OwnerWait => s.(finish := if s.finish.RunningFlag? then ExitFlag else s.finish, owner := WaitSignal)
    case OwnerSignal =>
      s.(semaphore := s.semaphore + 1, owner := if s.owner.WaitSignal? then Joining else Live(s.owner.joined))
    case OwnerJoin => s.(owner := Live(true))
    case OwnerFree => s.(refcount := s.refcount - 1, owner := OwnerReleasing(s.refcount - 1 == 0))
    case OwnerDestroy => s.(owner := Gone, freed := s.freed + if s.owner.doFree then 1 else 0)
  }

  /** One critical section of `aio_thread`, from lock to unlock. */
  function AfterLoop(s: State): State {
    if s.queue == [] then
      if s.finish.RunningFlag? then
        s.(consumer := Blocked)
      else
        s.(fileClosed := s.fileClosed + if s.finish.CloseFlag? then 1 else 0,
           refcount := s.refcount - 1, consumer := Releasing(s.refcount - 1 == 0))
    else
      var n := TakeCount(|s.queue|);
      s.(queue := s.queue[n..], consumer := Writing(s.queue[..n]))
  }

  ghost predicate ValidRun(s: State, run: seq<Step>)
    decreases |run|
  {
    run != [] ==> Enabled(s, run[0]) && ValidRun(Apply(s, run[0]), run[1..])
  }

  ghost function After(s: State, run: seq<Step>): State
    requires ValidRun(s, run)
    decreases |run|
  {
    if run == [] then s else After(Apply(s, run[0]), run[1..])
  }

  // ---------------------------------------------------------------------------------------------
  // Safety
  // ---------------------------------------------------------------------------------------------

  /** The chunks that the lock holder has yet to write. */
  ghost function Todo(s: State): seq<seq<byte>> {
    if s.lock.Held? && ProducerAt(s, s.lock.producer).Holding? then ProducerAt(s, s.lock.producer).todo else []
  }

  function InFlight(c: Consumer): seq<byte> {
    if c.Writing? then c.local else []
  }

  /** Nothing is lost, duplicated or reordered between the callers and the file. */
  ghost predicate StreamKept(s: State) {
    s.queued == s.written + InFlight(s.consumer) + s.queue
  }

  /** The stream is the finished lock holds one after the other, then the open one; a finished lock
      hold wrote what it set out to write, the open one still has its remaining chunks to go. */
  ghost predicate LinesKept(s: State) {
    && s.queued == Flatten(s.lines) + s.partial
    && (s.lock.Free? ==> s.partial == [] && s.begun == s.lines)
    && (s.lock.Held? ==> s.begun == s.lines + [s.partial + Flatten(Todo(s))])
  }

  ghost predicate LockKept(s: State) {
    forall p: nat :: ProducerAt(s, p).Holding? <==> s.lock == Held(p)
  }

  /** Some thread holds the lock or stands between its unlock and its signal. */
  ghost predicate SignalPending(s: State) {
    s.owner.CloseSignal? || s.owner.WaitSignal? || exists p: nat :: !ProducerAt(s, p).Idle?
  }

  /** A writer thread asleep on a zero semaphore has nothing to do. */
  ghost predicate NoLostWakeup(s: State) {
    s.consumer.Blocked? && s.semaphore == 0 ==>
      (s.queue == [] && s.finish.RunningFlag?) || SignalPending(s)
  }

  function One(b: bool): nat { if b then 1 else 0 }

  ghost predicate CountKept(s: State) {
    && s.refcount == One(!ConsumerReleased(s)) + One(!OwnerReleased(s))
    && s.freed + One(s.consumer == Releasing(true)) + One(s.owner == OwnerReleasing(true))
       == One(ConsumerReleased(s) && OwnerReleased(s))
  }

  ghost predicate PhasesKept(s: State) {
    && (ConsumerReleased(s) ==> !s.finish.RunningFlag?)
    && s.fileClosed <= One(ConsumerReleased(s))
    && (s.owner == Live(true) || s.owner == CloseSignal(true) ==> s.consumer.Exited?)
    && (s.owner.WaitSignal? || s.owner.Joining? ==> !s.finish.RunningFlag?)
    && (s.owner.CloseSignal? ==> s.finish.CloseFlag?)
  }

  ghost predicate Inv(s: State) {
    StreamKept(s) && LinesKept(s) && LockKept(s) && NoLostWakeup(s) && CountKept(s) && PhasesKept(s)
  }

  lemma StreamStep(s: State, step: Step)
    requires StreamKept(s) && Enabled(s, step)
    ensures StreamKept(Apply(s, step))
  {
    match step
    case WriteChunk(p) =>
      var chunk := ProducerAt(s, p).todo[0];
      assert s.written + InFlight(s.consumer) + (s.queue + chunk) == s.written + InFlight(s.consumer) + s.queue + chunk;
    case ConsumerLoop =>
      var n := TakeCount(|s.queue|);
      assert s.queue[..n] + s.queue[n..] == s.queue;
    case _ =>
  }

  lemma LinesWriteChunk(s: State, p: nat)
    requires LinesKept(s) && Enabled(s, WriteChunk(p))
    ensures LinesKept(Apply(s, WriteChunk(p)))
  {
    var chunk := ProducerAt(s, p).todo[0];
    assert Flatten(s.lines) + (s.partial + chunk) == Flatten(s.lines) + s.partial + chunk;
    FlattenCons(Todo(s));
    assert s.partial + chunk + Flatten(Todo(s)[1..]) == s.partial + Flatten(Todo(s));
  }

  lemma LinesEnd(s: State, p: nat)
    requires LinesKept(s) && Enabled(s, End(p))
    ensures LinesKept(Apply(s, End(p)))
  {
    FlattenSnoc(s.lines, s.partial);
    assert Todo(s) == [] && s.partial + [] == s.partial;
    assert s.queued == s.queued + [];
  }

  lemma LinesBegin(s: State, p: nat, chunks: seq<seq<byte>>)
    requires LinesKept(s) && Enabled(s, Begin(p, chunks))
    ensures LinesKept(Apply(s, Begin(p, chunks)))
  {
    assert Todo(Apply(s, Begin(p, chunks))) == chunks && [] + Flatten(chunks) == Flatten(chunks);
  }

  lemma LinesStep(s: State, step: Step)
    requires LinesKept(s) && LockKept(s) && Enabled(s, step)
    ensures LinesKept(Apply(s, step))
  {
    if step.WriteChunk? {
      LinesWriteChunk(s, step.p);
    } else if step.End? {
      LinesEnd(s, step.p);
    } else if step.Begin? {
      LinesBegin(s, step.p, step.chunks);
    } else {
      LinesOther(s, Apply(s, step));
    }
  }

  lemma LinesOther(s: State, t: State)
    requires LinesKept(s) && t.queued == s.queued && t.begun == s.begun && t.lines == s.lines
    requires t.partial == s.partial && t.lock == s.lock && Todo(t) == Todo(s)
    ensures LinesKept(t)
  {
  }

  lemma LockStep(s: State, step: Step)
    requires Inv(s) && Enabled(s, step)
    ensures LockKept(Apply(s, step))
  {
  }

  lemma WakeupStep(s: State, step: Step)
    requires Inv(s) && Enabled(s, step)
    ensures NoLostWakeup(Apply(s, step))
  {
    var t := Apply(s, step);
    match step
    case Begin(p, _) => assert !ProducerAt(t, p).Idle?;
    case WriteChunk(p) => assert !ProducerAt(t, p).Idle?;
    case End(p) => assert !ProducerAt(t, p).Idle?;
    case OwnerFree => assert forall p: nat :: ProducerAt(t, p) == ProducerAt(s, p);
    case OwnerDestroy => assert forall p: nat :: ProducerAt(t, p) == ProducerAt(s, p);
    case _ =>
  }

  lemma CountStep(s: State, step: Step)
    requires CountKept(s) && Enabled(s, step)
    ensures CountKept(Apply(s, step))
  {
  }

  lemma PhasesStep(s: State, step: Step)
    requires CountKept(s) && PhasesKept(s) && Enabled(s, step)
    ensures PhasesKept(Apply(s, step))
  {
  }

  lemma InvStep(s: State, step: Step)
    requires Inv(s) && Enabled(s, step)
    ensures Inv(Apply(s, step))
  {
    StreamStep(s, step);
    LinesStep(s, step);
    LockStep(s, step);
    WakeupStep(s, step);
    CountStep(s, step);
    PhasesStep(s, step);
  }

  lemma {:induction false} InvRun(s: State, run: seq<Step>)
    requires Inv(s) && ValidRun(s, run)
    ensures Inv(After(s, run))
    decreases |run|
  {
    if run != [] {
      InvStep(s, run[0]);
      InvRun(Apply(s, run[0]), run[1..]);
    }
  }

  lemma InvAlways(run: seq<Step>)
    requires ValidRun(Init(), run)
    ensures Inv(After(Init(), run))
  {
    InvRun(Init(), run);
  }

  /** On every interleaving the bytes ever queued are those handed to `io_write`, then the writer
      thread's local copy, then the ring contents; and they are the finished lock holds in order. */
  lemma OutputIsInput(run: seq<Step>)
    requires ValidRun(Init(), run)
    ensures var s := After(Init(), run);
            && s.queued == s.written + InFlight(s.consumer) + s.queue
            && s.queued == Flatten(s.lines) + s.partial
  {
    InvAlways(run);
  }

  /** `part` stands in `whole` in one piece, at position `at`. */
  ghost predicate Inside(whole: seq<byte>, at: nat, part: seq<byte>) {
    at + |part| <= |whole| && whole[at..at + |part|] == part
  }

  /** How much of the file is taken up by the lock holds before number `i` and by that one. */
  ghost function EndOf(s: State, i: nat): nat
    requires i < |s.begun|
  {
    |Flatten(s.begun[..i])| + |s.begun[i]|
  }

  /** What one producer sets out to write under one lock hold stands in the file in one piece, directly behind the
      earlier lock holds, as soon as the file has grown that far, whatever is still queued or being written. */
  lemma LinesContiguous(run: seq<Step>, i: nat)
    requires ValidRun(Init(), run)
    requires var s := After(Init(), run); i < |s.begun| && EndOf(s, i) <= |s.written|
    ensures var s := After(Init(), run); Inside(s.written, |Flatten(s.begun[..i])|, s.begun[i])
  {
    InvAlways(run);
    LineReached(After(Init(), run), i);
  }

  lemma LineReached(s: State, i: nat)
    requires StreamKept(s) && LinesKept(s) && i < |s.begun| && EndOf(s, i) <= |s.written|
    ensures Inside(s.written, |Flatten(s.begun[..i])|, s.begun[i])
  {
    hide LinesKept, Flatten, Inside;
    assert s.written + (InFlight(s.consumer) + s.queue) == s.queued;
    if i < |s.lines| {
      FinishedLine(s, i);
    } else {
      OpenLine(s, i);
    }
    InsidePrefix(s.written, InFlight(s.consumer) + s.queue, |Flatten(s.begun[..i])|, s.begun[i]);
  }

  lemma FinishedLine(s: State, i: nat)
    requires LinesKept(s) && i < |s.lines|
    ensures i < |s.begun| && Inside(s.queued, |Flatten(s.begun[..i])|, s.begun[i])
  {
    hide Flatten, Inside;
    FlattenInside(s.lines, i);
    assert s.begun[..i] == s.lines[..i];
    InsideOf(Flatten(s.lines[..i]), s.lines[i], Flatten(s.lines[i + 1..]), s.partial);
  }

  lemma OpenLine(s: State, i: nat)
    requires LinesKept(s) && |s.lines| <= i < |s.begun| && EndOf(s, i) <= |s.queued|
    ensures Inside(s.queued, |Flatten(s.begun[..i])|, s.begun[i])
  {
    hide Flatten, Inside;
    assert i == |s.lines| && s.begun[..i] == s.lines;
    assert |s.begun[i]| <= |s.partial|;
    assert s.begun[i] == s.partial;
    InsideOf(Flatten(s.lines), s.partial, [], []);
    assert Flatten(s.lines) + s.partial + [] + [] == s.queued;
  }

  lemma InsidePrefix(whole: seq<byte>, rest: seq<byte>, at: nat, part: seq<byte>)
    requires at + |part| <= |whole| && Inside(whole + rest, at, part)
    ensures Inside(whole, at, part)
  {
  }

  lemma InsideOf(before: seq<byte>, part: seq<byte>, after: seq<byte>, rest: seq<byte>)
    ensures Inside(before + part + after + rest, |before|, part)
  {
  }

  const RESET_COLOR: seq<byte> := [27, 91, 48, 109]
  const NEWLINE: seq<byte> := [10]

  /** The writes `CLoggerAsync::Log` makes under its one lock hold; `colorCode` is the formatted escape
      sequence. */
  function LogChunks(ansi: bool, haveColor: bool, colorCode: seq<byte>, line: seq<byte>): seq<seq<byte>> {
    (if ansi && haveColor then [colorCode] else []) + [line]
    + (if ansi && haveColor then [RESET_COLOR] else []) + [NEWLINE]
  }

  function LogText(ansi: bool, haveColor: bool, colorCode: seq<byte>, line: seq<byte>): seq<byte> {
    if ansi && haveColor then colorCode + line + [27, 91, 48, 109] + [10] else line + [10]
  }

  /** A log message is one unbroken line of the file, directly behind what was logged under the earlier locks. */
  lemma LogLineUnbroken(run: seq<Step>, i: nat, ansi: bool, haveColor: bool, colorCode: seq<byte>, line: seq<byte>)
    requires ValidRun(Init(), run)
    requires var s := After(Init(), run);
             && i < |s.begun| && s.begun[i] == Flatten(LogChunks(ansi, haveColor, colorCode, line))
             && EndOf(s, i) <= |s.written|
    ensures var s := After(Init(), run);
            Inside(s.written, |Flatten(s.begun[..i])|, LogText(ansi, haveColor, colorCode, line))
  {
    LinesContiguous(run, i);
    LogChunksAreText(ansi, haveColor, colorCode, line);
  }

  lemma LogChunksAreText(ansi: bool, haveColor: bool, colorCode: seq<byte>, line: seq<byte>)
    ensures Flatten(LogChunks(ansi, haveColor, colorCode, line)) == LogText(ansi, haveColor, colorCode, line)
  {
    if ansi && haveColor {
      FlattenFour(colorCode, line, RESET_COLOR, NEWLINE);
      assert LogChunks(ansi, haveColor, colorCode, line) == [colorCode, line, RESET_COLOR, NEWLINE];
    } else {
      FlattenTwo(line, NEWLINE);
      assert LogChunks(ansi, haveColor, colorCode, line) == [line, NEWLINE];
    }
  }

  lemma FlattenTwo(a: seq<byte>, b: seq<byte>)
    ensures Flatten([a, b]) == a + b
  {
    FlattenCons([a, b]);
    assert [a, b][1..] == [b] && Flatten([b]) == Flatten([]) + b;
  }

  lemma FlattenFour(a: seq<byte>, b: seq<byte>, c: seq<byte>, d: seq<byte>)
    ensures Flatten([a, b, c, d]) == a + b + c + d
  {
    FlattenSnoc([a, b, c], d);
    FlattenSnoc([a, b], c);
    FlattenTwo(a, b);
    assert [a, b, c] + [d] == [a, b, c, d] && [a, b] + [c] == [a, b, c];
  }

  /** Shutdown on every run: no lost wakeup; the writer thread leaves its loop only with an empty ring
      and finish set; the file is closed at most once; the struct is freed at most once, and exactly
      once when both sides are done. */
  lemma ShutdownSound(run: seq<Step>)
    requires ValidRun(Init(), run)
    ensures var s := After(Init(), run);
            && (s.consumer.Blocked? && s.semaphore == 0 && !SignalPending(s) ==>
                  s.queue == [] && s.finish.RunningFlag?)
            && (ConsumerReleased(s) ==> !s.finish.RunningFlag?)
            && s.fileClosed <= 1 && s.freed <= 1
            && (s.freed == 1 <==> (ConsumerReleased(s) && OwnerReleased(s)
                                   && s.consumer != Releasing(true) && s.owner != OwnerReleasing(true)))
            && (s.consumer.Exited? && s.owner.Gone? ==> s.freed == 1)
  {
    InvAlways(run);
  }

  lemma ExitsOnlyWhenDrained(s: State, step: Step)
    requires Enabled(s, step) && !ConsumerReleased(s) && ConsumerReleased(Apply(s, step))
    ensures s.queue == [] && !s.finish.RunningFlag?
    ensures Apply(s, step).fileClosed == s.fileClosed + if s.finish.CloseFlag? then 1 else 0
  {
  }

  /** Steps that read or write the struct: all but joining and the tail of a release that does not
      free. */
  predicate Touches(s: State, step: Step) {
    match step
    case OwnerJoin => false
    case ConsumerFree => s.consumer.Releasing? && s.consumer.doFree
    case OwnerDestroy => s.owner.OwnerReleasing? && s.owner.doFree
    case _ => true
  }

  /** The callers' duty, which the lock does not enforce: nobody starts a write once the owner has let go, and the
      owner lets go only when no write call is under way. */
  ghost predicate Dutiful(s: State, step: Step) {
    (step.Begin? ==> !OwnerReleased(s)) && (step.OwnerFree? ==> AllIdle(s))
  }

  ghost predicate DutifulRun(s: State, run: seq<Step>)
    requires ValidRun(s, run)
    decreases |run|
  {
    run != [] ==> Dutiful(s, run[0]) && DutifulRun(Apply(s, run[0]), run[1..])
  }

  ghost predicate NobodyInside(s: State) {
    OwnerReleased(s) ==> s.lock.Free? && AllIdle(s)
  }

  lemma NobodyInsideStep(s: State, step: Step)
    requires LockKept(s) && NobodyInside(s) && Enabled(s, step) && Dutiful(s, step)
    ensures NobodyInside(Apply(s, step))
  {
    var t := Apply(s, step);
    if step.OwnerFree? || OwnerReleased(s) {
      assert t.producers == s.producers;
      assert forall p: nat :: ProducerAt(t, p) == ProducerAt(s, p);
    }
  }

  lemma {:induction false} NobodyInsideRun(s: State, run: seq<Step>)
    requires Inv(s) && NobodyInside(s) && ValidRun(s, run) && DutifulRun(s, run)
    ensures Inv(After(s, run)) && NobodyInside(After(s, run))
    decreases |run|
  {
    hide Inv, NobodyInside, Enabled, Apply, Dutiful;
    if run != [] {
      DutifulInv(s, run[0]);
      NobodyInsideRun(Apply(s, run[0]), run[1..]);
    }
  }

  lemma DutifulInv(s: State, step: Step)
    requires Inv(s) && NobodyInside(s) && Enabled(s, step) && Dutiful(s, step)
    ensures Inv(Apply(s, step)) && NobodyInside(Apply(s, step))
  {
    InvStep(s, step);
    NobodyInsideStep(s, step);
  }

  /** When the callers do their duty, no thread touches the struct after it has been freed, and the thread that frees
      it is the last. */
  lemma NoUseAfterFree(run: seq<Step>, step: Step)
    requires ValidRun(Init(), run) && DutifulRun(Init(), run)
    requires Enabled(After(Init(), run), step) && Dutiful(After(Init(), run), step)
    requires Touches(After(Init(), run), step)
    ensures After(Init(), run).freed == 0
  {
    assert Inv(Init()) && NobodyInside(Init());
    NobodyInsideRun(Init(), run);
    FreedUntouched(After(Init(), run), step);
  }

  lemma FreedUntouched(s: State, step: Step)
    requires Inv(s) && NobodyInside(s) && Enabled(s, step) && Dutiful(s, step) && Touches(s, step)
    ensures s.freed == 0
  {
    if step.Begin? || step.WriteChunk? || step.End? || step.Signal? {
      assert !OwnerReleased(s);
    }
  }

  predicate ByProducer(step: Step) {
    step.Begin? || step.WriteChunk? || step.End? || step.Signal?
  }

  /** Whatever the callers do, a step taken after the free touches the struct exactly if a producer takes it. */
  lemma TouchesFreedIff(run: seq<Step>, step: Step)
    requires ValidRun(Init(), run) && Enabled(After(Init(), run), step) && After(Init(), run).freed > 0
    ensures Touches(After(Init(), run), step) <==> ByProducer(step)
  {
    InvAlways(run);
    OnlyProducersTouch(After(Init(), run), step);
  }

  lemma OnlyProducersTouch(s: State, step: Step)
    requires Inv(s) && Enabled(s, step) && s.freed > 0
    ensures Touches(s, step) <==> ByProducer(step)
  {
    hide StreamKept, LinesKept, LockKept, NoLostWakeup, PhasesKept;
  }

  ghost predicate Leads(s: State, run: seq<Step>, end: State) {
    ValidRun(s, run) && After(s, run) == end
  }

  lemma TakeStep(s: State, step: Step, rest: seq<Step>, end: State) returns (run: seq<Step>)
    requires Enabled(s, step) && Leads(Apply(s, step), rest, end)
    ensures run == [step] + rest && Leads(s, run, end)
  {
    run := [step] + rest;
    assert run[1..] == rest;
  }

  /** Without that duty the struct can be gone before a producer signals: it unlocks, the file is closed, the writer
      thread leaves, the owner frees, and the producer's signal comes after. */
  lemma SignalAfterFree() returns (run: seq<Step>, end: State)
    ensures Leads(Init(), run, end) && end.freed == 1
    ensures Enabled(end, Signal(0)) && Touches(end, Signal(0))
  {
    var s2 := Init().(producers := map[0 := Signalling], begun := [[]], lines := [[]]);
    var last;
    last, end := CloseAndFree(s2);
    assert Flatten<byte>([]) == [];
    var held := Apply(Init(), Begin(0, []));
    assert Apply(held, End(0)) == s2;
    hide Leads;
    run := TakeStep(held, End(0), last, end);
    run := TakeStep(Init(), Begin(0, []), run, end);
  }

  lemma CloseAndFree(s: State) returns (run: seq<Step>, end: State)
    requires s == Init().(producers := map[0 := Signalling], begun := [[]], lines := [[]])
    ensures Leads(s, run, end) && end.freed == 1 && ProducerAt(end, 0).Signalling?
  {
    var s1 := s.(finish := CloseFlag, owner := CloseSignal(false));
    var s2 := s1.(owner := Live(false), semaphore := 1);
    var s3 := s2.(fileClosed := 1, refcount := 1, consumer := Releasing(false));
    hide Leads;
    run, end := LeaveAndFree(s3);
    run := TakeStep(s2, ConsumerLoop, run, end);
    run := TakeStep(s1, OwnerSignal, run, end);
    run := TakeStep(s, OwnerClose, run, end);
  }

  lemma LeaveAndFree(s: State) returns (run: seq<Step>, end: State)
    requires s.lock.Free? && s.consumer == Releasing(false) && s.owner == Live(false) && s.refcount == 1 && s.freed == 0
    requires ProducerAt(s, 0).Signalling?
    ensures Leads(s, run, end) && end.freed == 1 && ProducerAt(end, 0).Signalling?
  {
    var s4 := s.(consumer := Exited);
    var s5 := s4.(refcount := 0, owner := OwnerReleasing(true));
    end := s5.(owner := Gone, freed := 1);
    assert Leads(end, [], end);
    hide Leads;
    run := TakeStep(s5, OwnerDestroy, [], end);
    run := TakeStep(s4, OwnerFree, run, end);
    run := TakeStep(s, ConsumerFree, run, end);
  }

  // ---------------------------------------------------------------------------------------------
  // Draining: once finish is set and no new call is made, every schedule ends, and ends drained
  // ---------------------------------------------------------------------------------------------

  /** Steps that only carry on calls already made. */
  predicate CarriesOn(step: Step) {
    match step
    case Begin(_, _) => false
    case OwnerClose => false
    case OwnerWait => false
    case OwnerFree => false
    case OwnerJoin => false
    case OwnerDestroy => false
    case _ => true
  }

  function Rank(c: Consumer): nat {
    match c
    case Writing(_) => 4
    case Blocked => 3
    case WantLock => 2
    case Releasing(_) => 1
    case Exited => 0
  }

  ghost function Signallers(s: State): set<nat> {
    set p | p in s.producers && s.producers[p].Signalling?
  }

  /** An upper bound on the number of steps left. */
  ghost function Potential(s: State): nat {
    6 * (|Flatten(Todo(s))| + |s.queue|) + |Todo(s)| + 2 * One(s.lock.Held?) + |Signallers(s)|
    + One(s.owner.CloseSignal? || s.owner.WaitSignal?) + Rank(s.consumer)
  }

  lemma WriteChunkProgress(s: State, p: nat)
    requires LockKept(s) && Enabled(s, WriteChunk(p))
    ensures Potential(Apply(s, WriteChunk(p))) < Potential(s)
  {
    var t := Apply(s, WriteChunk(p));
    assert Signallers(t) == Signallers(s);
    assert Todo(t) == Todo(s)[1..];
    FlattenCons(Todo(s));
  }

  lemma EndProgress(s: State, p: nat)
    requires LockKept(s) && Enabled(s, End(p))
    ensures Potential(Apply(s, End(p))) < Potential(s)
  {
    var t := Apply(s, End(p));
    assert p !in Signallers(s);
    assert Signallers(t) == Signallers(s) + {p};
    assert Todo(t) == Todo(s) == [];
  }

  lemma SignalProgress(s: State, p: nat)
    requires LockKept(s) && Enabled(s, Signal(p))
    ensures Potential(Apply(s, Signal(p))) < Potential(s)
  {
    var t := Apply(s, Signal(p));
    assert p in Signallers(s);
    assert Signallers(t) == Signallers(s) - {p};
    assert Todo(t) == Todo(s);
  }

  lemma ProgressStep(s: State, step: Step)
    requires Inv(s) && !s.finish.RunningFlag? && Enabled(s, step) && CarriesOn(step)
    ensures Potential(Apply(s, step)) < Potential(s) && Apply(s, step).finish == s.finish
  {
    if step.WriteChunk? {
      WriteChunkProgress(s, step.p);
    } else if step.End? {
      EndProgress(s, step.p);
    } else if step.Signal? {
      SignalProgress(s, step.p);
    } else {
      var t := Apply(s, step);
      assert Signallers(t) == Signallers(s) && Todo(t) == Todo(s);
    }
  }

  /** However the threads are scheduled, calls already made come to an end within `Potential` steps. */
  lemma {:induction false} ProgressBounded(s: State, run: seq<Step>)
    requires Inv(s) && !s.finish.RunningFlag? && ValidRun(s, run)
    requires forall step :: step in run ==> CarriesOn(step)
    ensures |run| <= Potential(s)
    decreases |run|
  {
    if run != [] {
      ProgressStep(s, run[0]);
      InvStep(s, run[0]);
      ProgressBounded(Apply(s, run[0]), run[1..]);
    }
  }

  /** Every write call has returned and the writer thread has gone. */
  ghost predicate Done(s: State) {
    s.consumer.Exited? && s.lock.Free? && AllIdle(s) && !s.owner.CloseSignal? && !s.owner.WaitSignal?
  }

  /** There is no deadlock: until everything is done, some thread can take a step. */
  lemma NoDeadlock(s: State) returns (step: Step)
    requires Inv(s) && !s.finish.RunningFlag? && !Done(s)
    ensures CarriesOn(step) && Enabled(s, step)
  {
    if s.lock.Held? {
      var p := s.lock.producer;
      assert ProducerAt(s, p).Holding?;
      return if ProducerAt(s, p).todo == [] then End(p) else WriteChunk(p);
    }
    if s.owner.CloseSignal? || s.owner.WaitSignal? {
      return OwnerSignal;
    }
    if p: nat :| ProducerAt(s, p).Signalling? {
      return Signal(p);
    }
    assert forall p: nat :: ProducerAt(s, p).Idle? by {
      forall p: nat ensures ProducerAt(s, p).Idle? {
        assert !ProducerAt(s, p).Holding?;
      }
    }
    step := match s.consumer
      case WantLock => ConsumerLoop
      case Blocked => ConsumerWake
      case Writing(_) => ConsumerWrite
      case _ => ConsumerFree;
  }

  /** Once finish is set, a schedule without new calls that nobody can extend has put every byte ever
      queued into the file, provided the writer thread has not already left a write call behind. */
  lemma {:induction false} DrainWritesEverything(s: State, run: seq<Step>)
    requires Inv(s) && !s.finish.RunningFlag? && ValidRun(s, run)
    requires ConsumerReleased(s) ==> s.lock.Free? && s.queue == []
    requires forall step :: step in run ==> CarriesOn(step)
    requires forall step :: CarriesOn(step) ==> !Enabled(After(s, run), step)
    ensures After(s, run).written == After(s, run).queued && Done(After(s, run))
    decreases |run|
  {
    if run == [] {
      if !Done(s) {
        var step := NoDeadlock(s);
      }
    } else {
      InvStep(s, run[0]);
      ProgressStep(s, run[0]);
      DrainWritesEverything(Apply(s, run[0]), run[1..]);
    }
  }

  /** The step puts bytes into the ring after the writer thread has taken its last look at it. */
  ghost predicate WritesLate(s: State, step: Step)
    requires Enabled(s, step)
  {
    step.WriteChunk? && ConsumerReleased(s) && ProducerAt(s, step.p).todo[0] != []
  }

  ghost predicate NothingLate(s: State, run: seq<Step>)
    requires ValidRun(s, run)
    decreases |run|
  {
    run != [] ==> !WritesLate(s, run[0]) && NothingLate(Apply(s, run[0]), run[1..])
  }

  /** Behind the writer thread nobody empties the ring. */
  lemma {:induction false} LostForGood(s: State, run: seq<Step>)
    requires ValidRun(s, run) && ConsumerReleased(s) && s.queue != []
    ensures ConsumerReleased(After(s, run)) && After(s, run).queue != []
    decreases |run|
  {
    if run != [] {
      LostStep(s, run[0]);
      hide Enabled, Apply, ConsumerReleased;
      LostForGood(Apply(s, run[0]), run[1..]);
    }
  }

  lemma LostStep(s: State, step: Step)
    requires Enabled(s, step) && ConsumerReleased(s) && s.queue != []
    ensures ConsumerReleased(Apply(s, step)) && Apply(s, step).queue != []
  {
  }

  lemma LateStep(s: State, step: Step)
    requires Enabled(s, step) && (ConsumerReleased(s) ==> s.queue == [])
    ensures WritesLate(s, step) ==> ConsumerReleased(Apply(s, step)) && Apply(s, step).queue != []
    ensures !WritesLate(s, step) ==> ConsumerReleased(Apply(s, step)) ==> Apply(s, step).queue == []
  {
  }

  lemma {:induction false} EmptyIffNothingLate(s: State, run: seq<Step>)
    requires ValidRun(s, run) && (ConsumerReleased(s) ==> s.queue == []) && ConsumerReleased(After(s, run))
    ensures After(s, run).queue == [] <==> NothingLate(s, run)
    decreases |run|
  {
    hide Enabled, Apply, ConsumerReleased, WritesLate;
    if run != [] {
      LateStep(s, run[0]);
      if WritesLate(s, run[0]) {
        LostForGood(Apply(s, run[0]), run[1..]);
      } else {
        EmptyIffNothingLate(Apply(s, run[0]), run[1..]);
      }
    }
  }

  /** On every run that has set finish and that no schedule can carry on, everything is done, and the file holds
      every byte ever queued exactly if nothing was written behind the writer thread; it is then what the lock holds
      set out to write, one after the other. */
  lemma DrainedIff(run: seq<Step>)
    requires ValidRun(Init(), run) && !After(Init(), run).finish.RunningFlag?
    requires forall step :: CarriesOn(step) ==> !Enabled(After(Init(), run), step)
    ensures var s := After(Init(), run);
            && Done(s)
            && (s.written == s.queued <==> NothingLate(Init(), run))
            && s.queued == Flatten(s.begun)
  {
    var s := After(Init(), run);
    InvAlways(run);
    if !Done(s) {
      var step := NoDeadlock(s);
    }
    EmptyIffNothingLate(Init(), run);
    DrainedState(s);
  }

  lemma DrainedState(s: State)
    requires StreamKept(s) && LinesKept(s) && Done(s)
    ensures ConsumerReleased(s) && (s.written == s.queued <==> s.queue == []) && s.queued == Flatten(s.begun)
  {
  }

  function Signals(run: seq<Step>): nat {
    if run == [] then 0 else One(run[0].Signal? || run[0].OwnerSignal?) + Signals(run[1..])
  }

  function Wakes(run: seq<Step>): nat {
    if run == [] then 0 else One(run[0].ConsumerWake?) + Wakes(run[1..])
  }

  /** The semaphore holds the signals that have not woken the writer thread yet. */
  lemma {:induction false} SignalsKept(s: State, run: seq<Step>)
    requires ValidRun(s, run)
    ensures After(s, run).semaphore + Wakes(run) == s.semaphore + Signals(run)
    decreases |run|
  {
    if run != [] {
      SignalsKept(Apply(s, run[0]), run[1..]);
    }
  }

  function Waits(run: seq<Step>): nat {
    if run == [] then 0 else One(run[0].OwnerWait?) + Waits(run[1..])
  }

  /** Nobody waits for a thread that was waited for or let go before. */
  lemma {:induction false} WaitsOnce(s: State, run: seq<Step>)
    requires ValidRun(s, run)
    ensures Waits(run) <= One(s.owner == Live(false) || s.owner == CloseSignal(false))
    decreases |run|
  {
    if run != [] {
      WaitsOnce(Apply(s, run[0]), run[1..]);
    }
  }

  /** `aio_close` before the writer thread has left its loop. */
  ghost predicate ClosesInTime(s: State, step: Step) {
    step.OwnerClose? && !ConsumerReleased(s)
  }

  ghost predicate ClosedInTime(s: State, run: seq<Step>)
    requires ValidRun(s, run)
    decreases |run|
  {
    run != [] && (ClosesInTime(s, run[0]) || ClosedInTime(Apply(s, run[0]), run[1..]))
  }

  /** The file is closed, or will be, exactly if that was asked for. */
  ghost predicate CloseKept(s: State, asked: bool) {
    if ConsumerReleased(s) then s.fileClosed == One(asked)
    else s.fileClosed == 0 && (s.finish.CloseFlag? <==> asked)
  }

  lemma CloseStep(s: State, step: Step, asked: bool)
    requires CloseKept(s, asked) && Enabled(s, step)
    ensures CloseKept(Apply(s, step), asked || ClosesInTime(s, step))
  {
  }

  lemma {:induction false} CloseRun(s: State, run: seq<Step>, asked: bool)
    requires CloseKept(s, asked) && ValidRun(s, run)
    ensures CloseKept(After(s, run), asked || ClosedInTime(s, run))
    decreases |run|
  {
    if run != [] {
      CloseStep(s, run[0], asked);
      hide CloseKept, ClosesInTime, Enabled, Apply;
      CloseRun(Apply(s, run[0]), run[1..], asked || ClosesInTime(s, run[0]));
    }
  }

  /** On every run the file is closed exactly once if the writer thread has left its loop and `aio_close` came before,
      whatever else the owner called, and not at all otherwise. */
  lemma FileClosedIff(run: seq<Step>)
    requires ValidRun(Init(), run)
    ensures After(Init(), run).fileClosed == One(ConsumerReleased(After(Init(), run)) && ClosedInTime(Init(), run))
  {
    CloseRun(Init(), run, false);
  }

  /** A run that loses a byte: the file is closed, the writer thread leaves, and then one byte is written. */
  lemma LateWriteLost() returns (run: seq<Step>, end: State)
    ensures Leads(Init(), run, end) && !end.finish.RunningFlag? && Done(end)
    ensures forall step :: CarriesOn(step) ==> !Enabled(end, step)
    ensures end.queued == [1] && end.written == []
  {
    var s1 := Init().(finish := CloseFlag, owner := CloseSignal(false));
    var s2 := s1.(owner := Live(false), semaphore := 1);
    var s3 := s2.(fileClosed := 1, refcount := 1, consumer := Releasing(false));
    var s4 := s3.(consumer := Exited);
    hide Leads;
    run, end := WriteBehind(s4);
    run := TakeStep(s3, ConsumerFree, run, end);
    run := TakeStep(s2, ConsumerLoop, run, end);
    run := TakeStep(s1, OwnerSignal, run, end);
    run := TakeStep(Init(), OwnerClose, run, end);
  }

  lemma WriteBehind(s: State) returns (run: seq<Step>, end: State)
    requires s.lock.Free? && s.consumer.Exited? && s.owner.Live? && s.producers == map[] && s.queue == []
    requires s.queued == [] && s.partial == [] && s.written == []
    ensures Leads(s, run, end) && end.finish == s.finish && Done(end)
    ensures forall step :: CarriesOn(step) ==> !Enabled(end, step)
    ensures end.queued == [1] && end.written == []
  {
    hide Leads, Flatten;
    var t1 := Apply(s, Begin(0, [[1]]));
    var t2 := t1.(queue := [1], queued := [1], partial := [1], producers := map[0 := Holding([])]);
    assert [[1]][1..] == [] && Apply(t1, WriteChunk(0)) == t2;
    run, end := UnlockAndSignal(t2);
    run := TakeStep(t1, WriteChunk(0), run, end);
    run := TakeStep(s, Begin(0, [[1]]), run, end);
  }

  lemma UnlockAndSignal(s: State) returns (run: seq<Step>, end: State)
    requires s.lock == Held(0) && s.consumer.Exited? && s.owner.Live? && s.producers == map[0 := Holding([])]
    ensures Leads(s, run, end) && Done(end) && (forall step :: CarriesOn(step) ==> !Enabled(end, step))
    ensures end.finish == s.finish && end.queued == s.queued && end.written == s.written
  {
    var t := Apply(s, End(0));
    end := Apply(t, Signal(0));
    assert end.producers == map[0 := Idle];
    assert Leads(end, [], end);
    hide Leads;
    run := TakeStep(t, Signal(0), [], end);
    run := TakeStep(s, End(0), run, end);
  }

  // ---------------------------------------------------------------------------------------------
  // The callers' duty is needed: from the moment the owner lets go
  // ---------------------------------------------------------------------------------------------

  /** Once finish is set and signalled, the writer thread does not sleep on a zero semaphore. */
  ghost predicate WakeKept(s: State) {
    !s.finish.RunningFlag? && !s.owner.CloseSignal? && !s.owner.WaitSignal? && s.consumer.Blocked? ==> s.semaphore > 0
  }

  lemma WakeStep(s: State, step: Step)
    requires WakeKept(s) && Enabled(s, step)
    ensures WakeKept(Apply(s, step))
  {
  }

  lemma {:induction false} WakeRun(s: State, run: seq<Step>)
    requires WakeKept(s) && ValidRun(s, run)
    ensures WakeKept(After(s, run))
    decreases |run|
  {
    hide WakeKept, Enabled, Apply;
    if run != [] {
      WakeStep(s, run[0]);
      WakeRun(Apply(s, run[0]), run[1..]);
    }
  }

  /** The owner has let go with finish set, and producer `p` is still inside. */
  ghost predicate Abandoned(s: State, p: nat) {
    Inv(s) && WakeKept(s) && !s.finish.RunningFlag? && OwnerReleased(s) && !ProducerAt(s, p).Idle?
  }

  /** A step towards the free that is not a signal of a producer. */
  lemma Onward(s: State, p: nat) returns (step: Step)
    requires Abandoned(s, p) && !(s.freed > 0 && s.lock.Free?)
    ensures Enabled(s, step) && !step.Begin? && !step.Signal? && (CarriesOn(step) || step == OwnerDestroy)
  {
    hide StreamKept, LinesKept, NoLostWakeup;
    if s.lock.Held? {
      var q := s.lock.producer;
      assert ProducerAt(s, q).Holding?;
      step := if ProducerAt(s, q).todo == [] then End(q) else WriteChunk(q);
    } else if s.consumer.Exited? {
      step := OwnerDestroy;
    } else {
      step := match s.consumer
        case WantLock => ConsumerLoop
        case Blocked => ConsumerWake
        case Writing(_) => ConsumerWrite
        case _ => ConsumerFree;
    }
  }

  lemma OnwardAbandoned(s: State, p: nat, step: Step)
    requires Abandoned(s, p) && Enabled(s, step) && !step.Begin? && !step.Signal?
    requires CarriesOn(step) || step == OwnerDestroy
    ensures Abandoned(Apply(s, step), p)
    ensures Potential(Apply(s, step)) + One(!Apply(s, step).owner.Gone?) < Potential(s) + One(!s.owner.Gone?)
  {
    InvStep(s, step);
    WakeStep(s, step);
    if step == OwnerDestroy {
      SamePotential(s, Apply(s, step));
    } else {
      ProgressStep(s, step);
    }
    hide Potential, Inv, WakeKept;
  }

  lemma SamePotential(s: State, t: State)
    requires t.producers == s.producers && t.lock == s.lock && t.queue == s.queue && t.consumer == s.consumer
    requires OwnerReleased(s) && OwnerReleased(t)
    ensures Potential(t) == Potential(s)
  {
    assert Signallers(t) == Signallers(s) && Todo(t) == Todo(s);
  }

  /** From there the others can free the struct before that producer has signalled. */
  lemma {:induction false} FreedBeforeSignal(s: State, p: nat) returns (run: seq<Step>)
    requires Abandoned(s, p)
    ensures ValidRun(s, run) && DutifulRun(s, run)
    ensures After(s, run).freed > 0 && ProducerAt(After(s, run), p).Signalling?
    decreases Potential(s) + One(!s.owner.Gone?)
  {
    if s.freed > 0 && s.lock.Free? {
      run := [];
      assert !ProducerAt(s, p).Holding?;
    } else {
      hide Inv, WakeKept, Potential, Apply, Enabled;
      var step := Onward(s, p);
      OnwardAbandoned(s, p, step);
      var rest := FreedBeforeSignal(Apply(s, step), p);
      run := [step] + rest;
      assert run[1..] == rest;
    }
  }

  /** Some continuation in which nobody starts another write touches the struct after it was freed. */
  ghost predicate CanTouchFreed(s: State) {
    exists run, step :: ValidRun(s, run) && DutifulRun(s, run) && TouchesFreed(After(s, run), step)
  }

  ghost predicate TouchesFreed(s: State, step: Step) {
    Enabled(s, step) && Dutiful(s, step) && s.freed > 0 && Touches(s, step)
  }

  /** Once the owner has let go with finish set, that can happen exactly if a write call is under way. */
  lemma DutyNeeded(run: seq<Step>)
    requires ValidRun(Init(), run)
    requires OwnerReleased(After(Init(), run)) && !After(Init(), run).finish.RunningFlag?
    ensures CanTouchFreed(After(Init(), run)) <==> !AllIdle(After(Init(), run))
  {
    var s := After(Init(), run);
    InvAlways(run);
    WakeRun(Init(), run);
    if AllIdle(s) {
      assert NobodyInside(s);
      forall rest, step | ValidRun(s, rest) && DutifulRun(s, rest)
        ensures !TouchesFreed(After(s, rest), step)
      {
        NeverTouched(s, rest, step);
      }
    } else {
      var p: nat :| !ProducerAt(s, p).Idle?;
      var rest := FreedBeforeSignal(s, p);
      assert TouchesFreed(After(s, rest), Signal(p));
    }
  }

  lemma NeverTouched(s: State, run: seq<Step>, step: Step)
    requires Inv(s) && NobodyInside(s) && ValidRun(s, run) && DutifulRun(s, run)
    ensures !TouchesFreed(After(s, run), step)
  {
    NobodyInsideRun(s, run);
    if TouchesFreed(After(s, run), step) {
      FreedUntouched(After(s, run), step);
    }
  }
}
