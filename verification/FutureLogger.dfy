/** The logger that is replaced later: every interleaving of `CFutureLogger::Log` calls with the one `Set` of
    src/base/log.cpp. A step is what a thread does between two accesses to shared state. */
module FutureLogger {

  /** Where a `Log` call is. */
  datatype Call =
    | Entered        // has not looked at the logger yet
    | Forwarding     // saw a logger without taking the lock
    | Waiting        // saw none, waits for the lock
    | Inside         // holds the lock, has not looked again
    | ForwardInside  // holds the lock, saw a logger
    | Pushing        // holds the lock, saw none
    | Leaving        // holds the lock, done with the message
    | Returned

  /** Where the `Set` call is; `Flushing` holds the number of pending messages already passed on. */
  datatype Setter =
    | NotCalled
    | SetLocked
    | Flushing(next: nat)
    | Cleared
    | SetReturned

  datatype Lock = Free | BySetter | ByCall(i: nat)

  /** Messages are named by the number of their call. `buffered` records every message ever put into `pending`,
      `handed` every message in the order in which the calls handed them over. */
  datatype State = State(logger: bool, pending: seq<nat>, lock: Lock, calls: seq<Call>, setter: Setter,
                         delivered: seq<nat>, buffered: seq<nat>, handed: seq<nat>)

  datatype Step =
    | Enter
    | Load(i: nat)
    | Forward(i: nat)
    | Acquire(i: nat)
    | Reload(i: nat)
    | DeliverInside(i: nat)
    | Push(i: nat)
    | Release(i: nat)
    | SetAcquire
    | SetPublish
    | SetFlush
    | SetClear
    | SetRelease

  function Init(): State {
    State(false, [], Free, [], NotCalled, [], [], [])
  }

  predicate At(s: State, i: nat, c: Call) {
    i < |s.calls| && s.calls[i] == c
  }

  predicate Enabled(s: State, step: Step) {
    match step
    case Enter => true
    case Load(i) => At(s, i, Entered)
    case Forward(i) => At(s, i, Forwarding)
    case Acquire(i) => At(s, i, Waiting) && s.lock == Free
    case Reload(i) => At(s, i, Inside)
    case DeliverInside(i) => At(s, i, ForwardInside)
    case Push(i) => At(s, i, Pushing)
    case Release(i) => At(s, i, Leaving)
    case SetAcquire => s.setter == NotCalled && s.lock == Free
    case SetPublish => s.setter == SetLocked
    case SetFlush => s.setter.Flushing? && s.setter.next < |s.pending|
    case SetClear => s.setter.Flushing? && s.setter.next >= |s.pending|
    case SetRelease => s.setter == Cleared
  }

  function Goes(s: State, i: nat, c: Call): State
    requires i < |s.calls|
  {
    s.(calls := s.calls[i := c])
  }

  function Apply(s: State, step: Step): State
    requires Enabled(s, step)
  {
    match step
    case Enter => s.(calls := s.calls + [Entered])
    case Load(i) => Goes(s, i, if s.logger then Forwarding else Waiting)
    case Forward(i) => Goes(s, i, Returned).(delivered := s.delivered + [i], handed := s.handed + [i])
    case Acquire(i) => Goes(s, i, Inside).(lock := ByCall(i))
    case Reload(i) => Goes(s, i, if s.logger then ForwardInside else Pushing)
    case DeliverInside(i) => Goes(s, i, Leaving).(delivered := s.delivered + [i], handed := s.handed + [i])
    case Push(i) =>
      Goes(s, i, Leaving).(pending := s.pending + [i], buffered := s.buffered + [i], handed := s.handed + [i])
    case Release(i) => Goes(s, i, Returned).(lock := Free)
    case SetAcquire => s.(setter := SetLocked, lock := BySetter)
    case SetPublish => s.(setter := Flushing(0), logger := true)
    case SetFlush => s.(setter := Flushing(s.setter.next + 1), delivered := s.delivered + [s.pending[s.setter.next]])
    case SetClear => s.(setter := Cleared, pending := [])
    case SetRelease => s.(setter := SetReturned, lock := Free)
  }

  predicate ValidRun(s: State, run: seq<Step>)
    decreases |run|
  {
    run == [] || (Enabled(s, run[0]) && ValidRun(Apply(s, run[0]), run[1..]))
  }

  function After(s: State, run: seq<Step>): State
    requires ValidRun(s, run)
    decreases |run|
  {
    if run == [] then s else After(Apply(s, run[0]), run[1..])
  }

  // ---------------------------------------------------------------------------------------------
  // The invariant
  // ---------------------------------------------------------------------------------------------

  predicate HoldsLock(c: Call) {
    c.Inside? || c.ForwardInside? || c.Pushing? || c.Leaving?
  }

  predicate SetterHoldsLock(t: Setter) {
    t.SetLocked? || t.Flushing? || t.Cleared?
  }

  /** The call has handed its message over. */
  predicate Settled(c: Call) {
    c.Leaving? || c.Returned?
  }

  /** The pending messages that are still to be passed on. */
  function Rest(s: State): seq<nat> {
    if s.setter.Flushing? && s.setter.next <= |s.pending| then s.pending[s.setter.next..] else s.pending
  }

  ghost predicate LockKept(s: State) {
    && (s.lock == BySetter <==> SetterHoldsLock(s.setter))
    && (forall i: nat :: i < |s.calls| ==> (HoldsLock(s.calls[i]) <==> s.lock == ByCall(i)))
    && (s.lock.ByCall? ==> s.lock.i < |s.calls|)
  }

  ghost predicate LoggerKept(s: State) {
    && (s.logger <==> !(s.setter.NotCalled? || s.setter.SetLocked?))
    && (forall i: nat :: i < |s.calls| && s.calls[i].Pushing? ==> !s.logger)
    && (forall i: nat :: i < |s.calls| && (s.calls[i].Forwarding? || s.calls[i].ForwardInside?) ==> s.logger)
    && (s.setter.Flushing? ==> s.setter.next <= |s.pending|)
    && (s.setter.Cleared? || s.setter.SetReturned? ==> s.pending == [])
    && (!(s.setter.Cleared? || s.setter.SetReturned?) ==> s.pending == s.buffered)
  }

  /** How often message `i` occurs. */
  function Count(q: seq<nat>, i: nat): nat {
    if q == [] then 0 else (if q[|q| - 1] == i then 1 else 0) + Count(q[..|q| - 1], i)
  }

  /** How often message `i` is delivered or still to be passed on. */
  ghost function Share(s: State, i: nat): nat {
    Count(s.delivered, i) + Count(Rest(s), i)
  }

  /** Once for the message of a settled call. */
  ghost function Owed(s: State, i: nat): nat {
    if i < |s.calls| && Settled(s.calls[i]) then 1 else 0
  }

  /** Every message of a settled call is delivered or pending, once in all; no other message is anywhere. */
  ghost predicate AccountKept(s: State) {
    forall i: nat :: Share(s, i) == Owed(s, i)
  }

  /** The elements of `q` that occur in `of`. */
  function Among(q: seq<nat>, of: seq<nat>): seq<nat> {
    if q == [] then []
    else
      var front := Among(q[..|q| - 1], of);
      if q[|q| - 1] in of then front + [q[|q| - 1]] else front
  }

  function Flushed(s: State): seq<nat> {
    if s.setter.Flushing? && s.setter.next <= |s.buffered| then s.buffered[..s.setter.next]
    else if s.setter.Cleared? || s.setter.SetReturned? then s.buffered
    else []
  }

  /** What has been delivered of the buffered messages is a prefix of them, in order. */
  ghost predicate OrderKept(s: State) {
    Among(s.delivered, s.buffered) == Flushed(s)
  }

  ghost predicate BufferedSettled(s: State) {
    forall i :: i in s.buffered ==> i < |s.calls| && Settled(s.calls[i])
  }

  ghost predicate Inv(s: State) {
    LockKept(s) && LoggerKept(s) && BufferedSettled(s) && AccountKept(s) && OrderKept(s)
  }

  lemma LockStep(s: State, step: Step)
    requires LockKept(s) && Enabled(s, step)
    ensures LockKept(Apply(s, step))
  {
  }

  lemma LoggerStep(s: State, step: Step)
    requires LockKept(s) && LoggerKept(s) && Enabled(s, step)
    ensures LoggerKept(Apply(s, step))
  {
    if step.Push? {
      assert s.lock == ByCall(step.i);
    }
    if step.SetPublish? {
      assert s.lock == BySetter;
    }
  }

  lemma SettledStep(s: State, step: Step)
    requires BufferedSettled(s) && Enabled(s, step)
    ensures BufferedSettled(Apply(s, step))
  {
  }

  lemma CountSnoc(q: seq<nat>, x: nat, i: nat)
    ensures Count(q + [x], i) == Count(q, i) + if x == i then 1 else 0
  {
  }

  lemma {:induction false} CountHead(q: seq<nat>, i: nat)
    requires q != []
    ensures Count(q, i) == Count(q[1..], i) + if q[0] == i then 1 else 0
    decreases |q|
  {
    if |q| > 1 {
      CountHead(q[..|q| - 1], i);
      assert q[..|q| - 1][1..] == q[1..][..|q| - 2];
    }
  }

  lemma {:induction false} CountIn(q: seq<nat>, i: nat)
    ensures Count(q, i) > 0 <==> i in q
  {
    if q != [] {
      CountIn(q[..|q| - 1], i);
      assert q == q[..|q| - 1] + [q[|q| - 1]];
    }
  }

  lemma {:induction false} AmongSame(q: seq<nat>, of: seq<nat>, x: nat)
    requires x !in q
    ensures Among(q, of + [x]) == Among(q, of)
  {
    if q != [] {
      AmongSame(q[..|q| - 1], of, x);
    }
  }

  lemma AmongSnoc(q: seq<nat>, x: nat, of: seq<nat>)
    ensures Among(q + [x], of) == if x in of then Among(q, of) + [x] else Among(q, of)
  {
  }

  /** What a step adds to the account of message `i`. */
  function Added(step: Step, i: nat): nat {
    if (step.Forward? || step.DeliverInside? || step.Push?) && step.i == i then 1 else 0
  }

  lemma ShareStep(s: State, step: Step, i: nat)
    requires LockKept(s) && LoggerKept(s) && Enabled(s, step)
    ensures Share(Apply(s, step), i) == Share(s, i) + Added(step, i)
  {
    hide Count, LockKept;
    if step.Forward? || step.DeliverInside? {
      CountSnoc(s.delivered, step.i, i);
    } else if step.Push? {
      assert !s.setter.Flushing?;
      CountSnoc(s.pending, step.i, i);
    } else if step.SetFlush? {
      var rest := s.pending[s.setter.next..];
      CountSnoc(s.delivered, rest[0], i);
      CountHead(rest, i);
      assert rest[1..] == s.pending[s.setter.next + 1..];
    } else if step.SetPublish? {
      assert s.pending[0..] == s.pending;
    } else if step.SetClear? {
      assert s.pending[s.setter.next..] == [];
    }
  }

  lemma OwedStep(s: State, step: Step, i: nat)
    requires Enabled(s, step)
    ensures Owed(Apply(s, step), i) == Owed(s, i) + Added(step, i)
  {
  }

  lemma AccountStep(s: State, step: Step)
    requires LockKept(s) && LoggerKept(s) && AccountKept(s) && Enabled(s, step)
    ensures AccountKept(Apply(s, step))
  {
    hide Share, Owed, LockKept, LoggerKept, Apply, Added, Enabled;
    forall i: nat
      ensures Share(Apply(s, step), i) == Owed(Apply(s, step), i)
    {
      ShareStep(s, step, i);
      OwedStep(s, step, i);
    }
  }

  lemma OrderStep(s: State, step: Step)
    requires Inv(s) && Enabled(s, step)
    ensures OrderKept(Apply(s, step))
  {
    hide Among, LockKept;
    if step.Forward? || step.DeliverInside? {
      AmongSnoc(s.delivered, step.i, s.buffered);
      assert step.i !in s.buffered;
    } else if step.Push? {
      assert Share(s, step.i) == Owed(s, step.i) == 0;
      CountIn(s.delivered, step.i);
      AmongSame(s.delivered, s.buffered, step.i);
    } else if step.SetFlush? {
      AmongSnoc(s.delivered, s.pending[s.setter.next], s.buffered);
    }
  }

  lemma InvStep(s: State, step: Step)
    requires Inv(s) && Enabled(s, step)
    ensures Inv(Apply(s, step))
  {
    LockStep(s, step);
    LoggerStep(s, step);
    SettledStep(s, step);
    AccountStep(s, step);
    OrderStep(s, step);
    hide LockKept, LoggerKept, BufferedSettled, AccountKept, OrderKept, Apply;
  }

  lemma {:induction false} InvAlways(s: State, run: seq<Step>)
    requires Inv(s) && ValidRun(s, run)
    ensures Inv(After(s, run))
    decreases |run|
  {
    if run != [] {
      InvStep(s, run[0]);
      InvAlways(Apply(s, run[0]), run[1..]);
    }
  }

  // ---------------------------------------------------------------------------------------------
  // Once, and in order
  // ---------------------------------------------------------------------------------------------

  predicate AllReturned(s: State) {
    s.setter == SetReturned && forall i: nat :: i < |s.calls| ==> s.calls[i] == Returned
  }

  lemma InitInv()
    ensures Inv(Init())
  {
  }

  /** Once `Set` and all calls of `Log` have returned, the real logger has had every message exactly once and no
      other, and the messages buffered before `Set` in the order in which they were buffered. */
  lemma ExactlyOnce(run: seq<Step>)
    requires ValidRun(Init(), run) && AllReturned(After(Init(), run))
    ensures var end := After(Init(), run);
            && (forall i: nat :: Count(end.delivered, i) == if i < |end.calls| then 1 else 0)
            && Among(end.delivered, end.buffered) == end.buffered
  {
    var end := After(Init(), run);
    InitInv();
    InvAlways(Init(), run);
    hide Count, Among, LockKept, OrderKept;
    assert Rest(end) == [];
    forall i: nat
      ensures Count(end.delivered, i) == if i < |end.calls| then 1 else 0
    {
      EmptyCount(i);
      assert Share(end, i) == Owed(end, i);
    }
    OrderAtEnd(end);
  }

  lemma EmptyCount(i: nat)
    ensures Count([], i) == 0
  {
  }

  lemma OrderAtEnd(s: State)
    requires OrderKept(s) && s.setter == SetReturned
    ensures Among(s.delivered, s.buffered) == s.buffered
  {
  }

  /** No message is lost at any time: a call that has returned has its message delivered or still pending. */
  lemma NothingLost(run: seq<Step>, i: nat)
    requires ValidRun(Init(), run)
    requires i < |After(Init(), run).calls| && After(Init(), run).calls[i] == Returned
    ensures var s := After(Init(), run); i in s.delivered || i in s.pending
  {
    var s := After(Init(), run);
    InitInv();
    InvAlways(Init(), run);
    assert Share(s, i) == Owed(s, i) == 1;
    CountIn(s.delivered, i);
    CountIn(Rest(s), i);
  }

  /** As long as something has not returned, some thread can take a step. */
  lemma NoDeadlock(s: State) returns (step: Step)
    requires Inv(s) && s.setter != NotCalled && !AllReturned(s)
    ensures Enabled(s, step) && step != Enter
  {
    hide AccountKept, OrderKept, BufferedSettled;
    if s.lock == BySetter {
      step := if s.setter == SetLocked then SetPublish
              else if s.setter == Cleared then SetRelease
              else if s.setter.next < |s.pending| then SetFlush else SetClear;
    } else if s.lock.ByCall? {
      var i := s.lock.i;
      assert HoldsLock(s.calls[i]);
      step := if s.calls[i] == Inside then Reload(i)
              else if s.calls[i] == ForwardInside then DeliverInside(i)
              else if s.calls[i] == Pushing then Push(i) else Release(i);
    } else {
      var i: nat :| i < |s.calls| && s.calls[i] != Returned;
      assert !HoldsLock(s.calls[i]);
      step := if s.calls[i] == Entered then Load(i)
              else if s.calls[i] == Forwarding then Forward(i) else Acquire(i);
    }
  }

  /** How many steps a call, the `Set` call and the pending messages still take at most. */
  function Weight(c: Call): nat {
    match c
    case Entered => 6
    case Waiting => 5
    case Inside => 4
    case Pushing => 3
    case ForwardInside => 2
    case Forwarding => 1
    case Leaving => 1
    case Returned => 0
  }

  function SetterWeight(t: Setter): nat {
    match t
    case NotCalled => 4
    case SetLocked => 3
    case Flushing(_) => 2
    case Cleared => 1
    case SetReturned => 0
  }

  function Total(calls: seq<Call>): nat {
    if calls == [] then 0 else Total(calls[..|calls| - 1]) + Weight(calls[|calls| - 1])
  }

  function Work(s: State): nat {
    Total(s.calls) + SetterWeight(s.setter) + |Rest(s)|
  }

  lemma {:induction false} TotalUpdate(calls: seq<Call>, i: nat, c: Call)
    requires i < |calls|
    ensures Total(calls[i := c]) + Weight(calls[i]) == Total(calls) + Weight(c)
    decreases |calls|
  {
    var n := |calls| - 1;
    if i < n {
      TotalUpdate(calls[..n], i, c);
      assert calls[i := c][..n] == calls[..n][i := c];
    } else {
      assert calls[i := c][..n] == calls[..n];
    }
  }

  lemma WorkStep(s: State, step: Step)
    requires LockKept(s) && LoggerKept(s) && Enabled(s, step) && step != Enter
    ensures Work(Apply(s, step)) < Work(s)
  {
    hide Total, LockKept, LoggerKept, Weight;
    RestStep(s, step);
    hide Rest;
    if step.Load? || step.Forward? || step.Acquire? || step.Reload? || step.DeliverInside? || step.Push?
       || step.Release? {
      TotalUpdate(s.calls, step.i, Apply(s, step).calls[step.i]);
      CallStep(s, step);
    }
  }

  lemma RestStep(s: State, step: Step)
    requires LockKept(s) && LoggerKept(s) && Enabled(s, step)
    ensures if step.SetFlush? then Rest(s) == [s.pending[s.setter.next]] + Rest(Apply(s, step))
            else Rest(Apply(s, step)) == Rest(s) + if step.Push? then [step.i] else []
  {
  }

  lemma CallStep(s: State, step: Step)
    requires Enabled(s, step) && step != Enter && !step.SetAcquire? && !step.SetPublish? && !step.SetFlush?
    requires !step.SetClear? && !step.SetRelease?
    ensures Weight(Apply(s, step).calls[step.i]) + (if step.Push? then 1 else 0) < Weight(s.calls[step.i])
  {
  }

  /** Without new calls every run ends: it takes at most `Work` steps. */
  lemma {:induction false} ProgressBounded(s: State, run: seq<Step>)
    requires Inv(s) && ValidRun(s, run) && Enter !in run
    ensures |run| + Work(After(s, run)) <= Work(s)
    decreases |run|
  {
    hide Work, Apply, Enabled, LockKept, LoggerKept, AccountKept, OrderKept, BufferedSettled;
    if run != [] {
      InvStep(s, run[0]);
      WorkStep(s, run[0]);
      ProgressBounded(Apply(s, run[0]), run[1..]);
    }
  }

  // ---------------------------------------------------------------------------------------------
  // Exactly when messages are delivered in the order in which they were handed over
  // ---------------------------------------------------------------------------------------------

  /** What is delivered and what is still to be passed on, in this order, is what was handed over. */
  ghost predicate InOrder(s: State) {
    s.delivered + Rest(s) == s.handed
  }

  /** A delivery in front of messages that were handed over earlier. */
  predicate Overtakes(s: State, step: Step) {
    (step.Forward? || step.DeliverInside?) && Rest(s) != []
  }

  /** That is exactly a forwarding without the lock while `Set` has messages left to flush. */
  lemma OvertakesIff(s: State, step: Step)
    requires Inv(s) && Enabled(s, step)
    ensures Overtakes(s, step) <==> step.Forward? && s.setter.Flushing? && s.setter.next < |s.pending|
  {
    hide AccountKept, OrderKept, BufferedSettled;
  }

  /** The buffered messages were handed over first, and nothing else was before the logger was set. */
  ghost predicate HandedKept(s: State) {
    && |s.buffered| <= |s.handed| && s.handed[..|s.buffered|] == s.buffered
    && (!s.logger ==> s.handed == s.buffered)
  }

  lemma HandedStep(s: State, step: Step)
    requires Inv(s) && HandedKept(s) && Enabled(s, step)
    ensures HandedKept(Apply(s, step)) && s.handed <= Apply(s, step).handed
  {
    hide AccountKept, OrderKept, BufferedSettled, LockKept;
  }

  lemma InOrderStep(s: State, step: Step)
    requires Inv(s) && InOrder(s) && Enabled(s, step) && !Overtakes(s, step)
    ensures InOrder(Apply(s, step))
  {
    hide AccountKept, OrderKept, BufferedSettled, LockKept, LoggerKept, Rest;
    RestStep(s, step);
  }

  /** Message number `q` of what is delivered and left is the one that was buffered last, but stands behind the place
      where it was handed over. */
  ghost predicate Misplaced(s: State, q: nat) {
    && s.logger && s.buffered != [] && |s.buffered| <= q < |s.delivered + Rest(s)|
    && (s.delivered + Rest(s))[q] == s.buffered[|s.buffered| - 1]
  }

  lemma OvertakingMisplaces(s: State, step: Step)
    requires Inv(s) && HandedKept(s) && InOrder(s) && Enabled(s, step) && Overtakes(s, step)
    ensures Misplaced(Apply(s, step), |s.handed|)
  {
    OvertakesIff(s, step);
    hide AccountKept, OrderKept, BufferedSettled, LockKept;
    assert |s.delivered + Rest(s)| == |s.handed|;
  }

  /** Once the logger is set, a step leaves the line of delivered and remaining messages or puts one into it. */
  lemma LineStep(s: State, step: Step)
    requires LockKept(s) && LoggerKept(s) && Enabled(s, step) && s.logger
    ensures var t := Apply(s, step);
            && t.logger && t.buffered == s.buffered
            && t.delivered + Rest(t) == if step.Forward? || step.DeliverInside? then s.delivered + [step.i] + Rest(s)
                                        else s.delivered + Rest(s)
  {
    RestStep(s, step);
    hide LockKept, Rest;
  }

  lemma Inserted(a: seq<nat>, x: nat, b: seq<nat>, q: nat)
    requires q < |a + b|
    ensures (a + [x] + b)[if q < |a| then q else q + 1] == (a + b)[q]
  {
  }

  lemma MisplacedStep(s: State, step: Step, q: nat) returns (r: nat)
    requires Inv(s) && Misplaced(s, q) && Enabled(s, step)
    ensures Misplaced(Apply(s, step), r)
  {
    LineStep(s, step);
    r := q;
    if step.Forward? || step.DeliverInside? {
      Inserted(s.delivered, step.i, Rest(s), q);
      r := if q < |s.delivered| then q else q + 1;
    }
    hide AccountKept, OrderKept, BufferedSettled, LockKept, LoggerKept, Rest, Apply, Enabled;
  }

  lemma {:induction false} CountTwice(q: seq<nat>, i: nat, j: nat)
    requires i < j < |q| && q[i] == q[j]
    ensures Count(q, q[i]) >= 2
    decreases |q|
  {
    var n := |q| - 1;
    if j < n {
      CountTwice(q[..n], i, j);
    } else {
      CountIn(q[..n], q[i]);
      assert q[..n][i] == q[i];
    }
  }

  lemma {:induction false} CountJoined(a: seq<nat>, b: seq<nat>, i: nat)
    ensures Count(a + b, i) == Count(a, i) + Count(b, i)
    decreases |b|
  {
    if b == [] {
      assert a + b == a;
    } else {
      CountJoined(a, b[..|b| - 1], i);
      assert (a + b)[..|a + b| - 1] == a + b[..|b| - 1];
    }
  }

  lemma MisplacedNotInOrder(s: State, q: nat)
    requires Inv(s) && HandedKept(s) && Misplaced(s, q)
    ensures !InOrder(s)
  {
    var all, n := s.delivered + Rest(s), |s.buffered| - 1;
    var last := s.buffered[n];
    assert Share(s, last) == Owed(s, last);
    CountJoined(s.delivered, Rest(s), last);
    assert s.handed[..|s.buffered|][n] == last;
    if all == s.handed {
      CountTwice(all, n, q);
    }
  }

  lemma {:induction false} MisplacedForGood(s: State, run: seq<Step>, q: nat)
    requires Inv(s) && HandedKept(s) && Misplaced(s, q) && ValidRun(s, run)
    ensures !InOrder(After(s, run))
    decreases |run|
  {
    hide Inv, HandedKept, Misplaced, InOrder, Apply, Enabled;
    if run == [] {
      MisplacedNotInOrder(s, q);
    } else {
      var r := MisplacedStep(s, run[0], q);
      InvStep(s, run[0]);
      HandedStep(s, run[0]);
      MisplacedForGood(Apply(s, run[0]), run[1..], r);
    }
  }

  predicate NobodyOvertakes(s: State, run: seq<Step>)
    requires ValidRun(s, run)
    decreases |run|
  {
    run == [] || (!Overtakes(s, run[0]) && NobodyOvertakes(Apply(s, run[0]), run[1..]))
  }

  lemma {:induction false} InOrderIffFrom(s: State, run: seq<Step>)
    requires Inv(s) && HandedKept(s) && InOrder(s) && ValidRun(s, run)
    ensures InOrder(After(s, run)) <==> NobodyOvertakes(s, run)
    ensures Inv(After(s, run)) && HandedKept(After(s, run)) && s.handed <= After(s, run).handed
    decreases |run|
  {
    hide Inv, HandedKept, InOrder, Overtakes, Apply, Enabled;
    if run != [] {
      InvStep(s, run[0]);
      HandedStep(s, run[0]);
      if Overtakes(s, run[0]) {
        OvertakingMisplaces(s, run[0]);
        MisplacedForGood(Apply(s, run[0]), run[1..], |s.handed|);
        HandedGrows(Apply(s, run[0]), run[1..]);
      } else {
        InOrderStep(s, run[0]);
        InOrderIffFrom(Apply(s, run[0]), run[1..]);
      }
    }
  }

  lemma {:induction false} HandedGrows(s: State, run: seq<Step>)
    requires Inv(s) && HandedKept(s) && ValidRun(s, run)
    ensures Inv(After(s, run)) && HandedKept(After(s, run)) && s.handed <= After(s, run).handed
    decreases |run|
  {
    hide Inv, HandedKept, Apply, Enabled;
    if run != [] {
      InvStep(s, run[0]);
      HandedStep(s, run[0]);
      HandedGrows(Apply(s, run[0]), run[1..]);
    }
  }

  /** On every run, what is delivered and pending is in the order of handing over exactly if nobody overtook. */
  lemma InOrderIff(run: seq<Step>)
    requires ValidRun(Init(), run)
    ensures InOrder(After(Init(), run)) <==> NobodyOvertakes(Init(), run)
  {
    InitInv();
    assert HandedKept(Init()) && InOrder(Init());
    InOrderIffFrom(Init(), run);
  }

  /** Without overtaking, a message whose call has handed it over before another call begins is delivered first. */
  lemma EarlierIsDeliveredFirst(s: State, run: seq<Step>, i: nat, j: nat) returns (p: nat, q: nat)
    requires Inv(s) && HandedKept(s) && InOrder(s) && ValidRun(s, run) && NobodyOvertakes(s, run)
    requires i < |s.calls| <= j && Settled(s.calls[i])
    requires AllReturned(After(s, run)) && j < |After(s, run).calls|
    ensures p < q < |After(s, run).delivered|
    ensures After(s, run).delivered[p] == i && After(s, run).delivered[q] == j
  {
    var end := After(s, run);
    InOrderIffFrom(s, run);
    hide Inv, InOrder, HandedKept, ValidRun, After, NobodyOvertakes;
    DeliveredAtEnd(end);
    InHanded(s, i);
    InHanded(s, j);
    InHanded(end, j);
    p, q := Places(s.handed, end.handed, i, j);
  }

  lemma Places(a: seq<nat>, b: seq<nat>, i: nat, j: nat) returns (p: nat, q: nat)
    requires a <= b && i in a && j in b && j !in a
    ensures p < q < |b| && b[p] == i && b[q] == j
  {
    p :| p < |a| && a[p] == i;
    q :| q < |b| && b[q] == j;
    assert q < |a| ==> a[q] == b[q];
  }

  lemma DeliveredAtEnd(s: State)
    requires Inv(s) && InOrder(s) && AllReturned(s)
    ensures s.delivered == s.handed
  {
    hide AccountKept, OrderKept, BufferedSettled;
  }

  lemma InHanded(s: State, i: nat)
    requires Inv(s) && InOrder(s)
    ensures i in s.handed <==> i < |s.calls| && Settled(s.calls[i])
  {
    assert Share(s, i) == Owed(s, i);
    CountIn(s.delivered, i);
    CountIn(Rest(s), i);
  }

  ghost predicate Leads(s: State, run: seq<Step>, end: State) {
    ValidRun(s, run) && After(s, run) == end
  }

  lemma TakeStep(s: State, step: Step, next: State, rest: seq<Step>, end: State) returns (run: seq<Step>)
    requires Enabled(s, step) && Apply(s, step) == next && Leads(next, rest, end)
    ensures run == [step] + rest && Leads(s, run, end)
  {
    run := [step] + rest;
    assert run[1..] == rest;
  }

  lemma {:induction false} RunThen(s: State, a: seq<Step>, mid: State, b: seq<Step>, end: State)
    requires Leads(s, a, mid) && Leads(mid, b, end)
    ensures Leads(s, a + b, end)
    decreases |a|
  {
    if a == [] {
      assert a + b == b;
    } else {
      RunThen(Apply(s, a[0]), a[1..], mid, b, end);
      assert (a + b)[1..] == a[1..] + b;
    }
  }

  /** A call that has found no logger buffers its message and returns. */
  lemma BufferRun() returns (run: seq<Step>)
    ensures Leads(State(false, [], ByCall(0), [Inside], NotCalled, [], [], []), run,
                  State(false, [0], Free, [Returned], NotCalled, [], [0], [0]))
  {
    var s3 := State(false, [], ByCall(0), [Inside], NotCalled, [], [], []);
    var s4 := State(false, [], ByCall(0), [Pushing], NotCalled, [], [], []);
    var s5 := State(false, [0], ByCall(0), [Leaving], NotCalled, [], [0], [0]);
    var s6 := State(false, [0], Free, [Returned], NotCalled, [], [0], [0]);
    assert Leads(s6, [], s6);
    hide Leads;
    run := TakeStep(s5, Release(0), s6, [], s6);
    run := TakeStep(s4, Push(0), s5, run, s6);
    run := TakeStep(s3, Reload(0), s4, run, s6);
  }

  lemma EarlyRun() returns (run: seq<Step>)
    ensures Leads(Init(), run, State(false, [0], Free, [Returned], NotCalled, [], [0], [0]))
  {
    hide Leads;
    var s1 := State(false, [], Free, [Entered], NotCalled, [], [], []);
    var s2 := State(false, [], Free, [Waiting], NotCalled, [], [], []);
    var s3 := State(false, [], ByCall(0), [Inside], NotCalled, [], [], []);
    var s6 := State(false, [0], Free, [Returned], NotCalled, [], [0], [0]);
    run := BufferRun();
    run := TakeStep(s2, Acquire(0), s3, run, s6);
    run := TakeStep(s1, Load(0), s2, run, s6);
    run := TakeStep(Init(), Enter, s1, run, s6);
  }

  /** `Set` publishes the logger, and a second call forwards its message before the flush gets to the first. */
  lemma LateRun(s: State) returns (run: seq<Step>, end: State)
    requires s == State(false, [0], Free, [Returned], NotCalled, [], [0], [0])
    ensures Leads(s, run, end) && end.delivered == [1, 0]
  {
    var s1 := State(false, [0], BySetter, [Returned], SetLocked, [], [0], [0]);
    var s2 := State(true, [0], BySetter, [Returned], Flushing(0), [], [0], [0]);
    var s3 := State(true, [0], BySetter, [Returned, Entered], Flushing(0), [], [0], [0]);
    var s4 := State(true, [0], BySetter, [Returned, Forwarding], Flushing(0), [], [0], [0]);
    var s5 := State(true, [0], BySetter, [Returned, Returned], Flushing(0), [1], [0], [0, 1]);
    end := State(true, [0], BySetter, [Returned, Returned], Flushing(1), [1, 0], [0], [0, 1]);
    assert Leads(end, [], end);
    hide Leads;
    run := TakeStep(s5, SetFlush, end, [], end);
    run := TakeStep(s4, Forward(1), s5, run, end);
    run := TakeStep(s3, Load(1), s4, run, end);
    run := TakeStep(s2, Enter, s3, run, end);
    run := TakeStep(s1, SetPublish, s2, run, end);
    run := TakeStep(s, SetAcquire, s1, run, end);
  }

  /** Direct forwarding can overtake the flush: a message whose call has returned before another call begins can be
      delivered after that one's. */
  lemma ForwardingOvertakes() returns (early: seq<Step>, late: seq<Step>, mid: State, end: State)
    ensures Leads(Init(), early, mid) && mid.calls == [Returned]
    ensures Leads(Init(), early + late, end) && end.delivered == [1, 0]
  {
    hide Leads;
    early := EarlyRun();
    mid := State(false, [0], Free, [Returned], NotCalled, [], [0], [0]);
    late, end := LateRun(mid);
    RunThen(Init(), early, mid, late, end);
  }
}
