/** The queue-and-writer protocol of the hit batcher and the request log, under every interleaving. */
module Shutdown {
  type Pid = nat

  /** How a closer keeps the queue from being closed twice: the batcher's once, or the log's flag under the lock. */
  datatype Guard = OnceGuard | FlagGuard

  /** Where each caller stands. A recorder holds the read lock from Locked to Released; a closer holds the write lock
      from Holding until it is done. */
  datatype Caller<E> =
    | WantsToRecord(entry: E)
    | Locked(entry: E)
    | PassedCheck(entry: E)
    | Sent
    | Recorded
    | WantsToClose
    | Chosen
    | Holding
    | Flagged
    | ChannelShut
    | Done

  predicate Reading<E>(c: Caller<E>) { c.Locked? || c.PassedCheck? || c.Sent? }

  predicate Writing<E>(c: Caller<E>) { c.Holding? || c.Flagged? || c.ChannelShut? }

  /** accepted is every entry a send put in the queue, in order; shutTwice and sentLate record the two panics. */
  datatype State<E> = State(
    queue: seq<E>, open: bool, closed: bool, onceTaken: bool, callers: map<Pid, Caller<E>>,
    pending: multiset<E>, flushed: multiset<E>, written: seq<E>, exited: bool,
    accepted: seq<E>, shutTwice: bool, sentLate: bool)

  datatype Step<E> =
    | CallRecord(p: Pid, entry: E)
    | CallClose(p: Pid)
    | LockToRecord(p: Pid)
    | Check(p: Pid)
    | Send(p: Pid)
    | Unlock(p: Pid)
    | EnterOnce(p: Pid)
    | SkipOnce(p: Pid)
    | LockToClose(p: Pid)
    | Flag(p: Pid)
    | Shut(p: Pid)
    | UnlockClosed(p: Pid)
    | Receive
    | Tick
    | Exit

  ghost predicate NoWriter<E>(callers: map<Pid, Caller<E>>) {
    forall p :: p in callers ==> !Writing(callers[p])
  }

  ghost predicate NoReader<E>(callers: map<Pid, Caller<E>>) {
    forall p :: p in callers ==> !Reading(callers[p])
  }

  ghost predicate Can<E>(guard: Guard, s: State<E>, step: Step<E>) {
    match step
    case CallRecord(p, _) => p !in s.callers
    case CallClose(p) => p !in s.callers
    case LockToRecord(p) => p in s.callers && s.callers[p].WantsToRecord? && NoWriter(s.callers)
    case Check(p) => p in s.callers && s.callers[p].Locked?
    case Send(p) => p in s.callers && s.callers[p].PassedCheck?
    case Unlock(p) => p in s.callers && s.callers[p].Sent?
    case EnterOnce(p) => guard.OnceGuard? && p in s.callers && s.callers[p].WantsToClose? && !s.onceTaken
    case SkipOnce(p) => guard.OnceGuard? && p in s.callers && s.callers[p].WantsToClose? && s.onceTaken
    case LockToClose(p) =>
      && p in s.callers && NoWriter(s.callers) && NoReader(s.callers)
      && (if guard.OnceGuard? then s.callers[p].Chosen? else s.callers[p].WantsToClose?)
    case Flag(p) => p in s.callers && s.callers[p].Holding?
    case Shut(p) => p in s.callers && s.callers[p].Flagged?
    case UnlockClosed(p) => p in s.callers && s.callers[p].ChannelShut?
    case Receive => !s.exited && s.queue != []
    case Tick => !s.exited
    case Exit => !s.exited && s.queue == [] && !s.open
  }

  ghost function Move<E>(s: State<E>, p: Pid, c: Caller<E>): State<E> {
    s.(callers := s.callers[p := c])
  }

  /** limit is the channel's capacity; a full queue drops the entry. */
  ghost function Do<E>(guard: Guard, limit: nat, s: State<E>, step: Step<E>): State<E>
    requires Can(guard, s, step)
  {
    match step
    case CallRecord(p, entry) => Move(s, p, WantsToRecord(entry))
    case CallClose(p) => Move(s, p, WantsToClose)
    case LockToRecord(p) => Move(s, p, Locked(s.callers[p].entry))
    case Check(p) => Move(s, p, if s.closed then Sent else PassedCheck(s.callers[p].entry))
    case Send(p) =>
      var entry := s.callers[p].entry;
      if !s.open then Move(s, p, Sent).(sentLate := true)
      else if |s.queue| >= limit then Move(s, p, Sent)
      else Move(s, p, Sent).(queue := s.queue + [entry], accepted := s.accepted + [entry])
    case Unlock(p) => Move(s, p, Recorded)
    case EnterOnce(p) => Move(s, p, Chosen).(onceTaken := true)
    case SkipOnce(p) => Move(s, p, Done)
    case LockToClose(p) => if guard.FlagGuard? && s.closed then Move(s, p, Done) else Move(s, p, Holding)
    case Flag(p) => Move(s, p, Flagged).(closed := true)
    case Shut(p) => Move(s, p, ChannelShut).(open := false, shutTwice := s.shutTwice || !s.open)
    case UnlockClosed(p) => Move(s, p, Done)
    case Receive =>
      s.(queue := s.queue[1..], written := s.written + [s.queue[0]], pending := s.pending + multiset{s.queue[0]})
    case Tick => s.(flushed := s.flushed + s.pending, pending := multiset{})
    case Exit => s.(flushed := s.flushed + s.pending, pending := multiset{}, exited := true)
  }

  ghost predicate Init<E>(s: State<E>) {
    s == State([], true, false, false, map[], multiset{}, multiset{}, [], false, [], false, false)
  }

  // ----- the invariant -----

  /** The lock: one closer inside at most, and never beside a recorder. */
  ghost predicate LockHeld<E>(callers: map<Pid, Caller<E>>) {
    && (forall p, q :: p in callers && q in callers && Writing(callers[p]) && Writing(callers[q]) ==> p == q)
    && (forall p, q :: p in callers && q in callers && Writing(callers[p]) ==> !Reading(callers[q]))
  }

  predicate Closing<E>(c: Caller<E>) { c.Chosen? || Writing(c) }

  /** With a once, one caller in all ever gets to close, and it has not flagged the queue before it holds the lock. */
  ghost predicate OnceHeld<E>(callers: map<Pid, Caller<E>>, onceTaken: bool, closed: bool) {
    && (closed ==> onceTaken)
    && (forall p :: p in callers && Closing(callers[p]) ==> onceTaken)
    && (forall p, q :: p in callers && q in callers && Closing(callers[p]) && Closing(callers[q]) ==> p == q)
    && (forall p :: p in callers && callers[p].Chosen? ==> !closed)
  }

  /** The queue is open until the flagged closer shuts it, and a recorder past its check still finds it open. */
  ghost predicate ShutOnce<E>(callers: map<Pid, Caller<E>>, open: bool, closed: bool) {
    && (!closed ==> open)
    && (forall p :: p in callers && (callers[p].PassedCheck? || callers[p].Holding?) ==> !closed)
    && (forall p :: p in callers && callers[p].Flagged? ==> closed && open)
  }

  /** Accepted entries are written, in order, or still queued; written ones are flushed or pending. */
  ghost predicate Accounted<E>(s: State<E>) {
    && s.accepted == s.written + s.queue
    && multiset(s.written) == s.flushed + s.pending
    && (s.exited ==> s.queue == [] && !s.open && s.pending == multiset{})
  }

  ghost predicate Inv<E>(guard: Guard, s: State<E>) {
    && LockHeld(s.callers)
    && (guard.OnceGuard? ==> OnceHeld(s.callers, s.onceTaken, s.closed))
    && ShutOnce(s.callers, s.open, s.closed)
    && !s.sentLate && !s.shutTwice
    && Accounted(s)
  }

  /** One caller moves; entering the lock takes the lock's own conditions. */
  lemma LockMove<E>(callers: map<Pid, Caller<E>>, p: Pid, c: Caller<E>)
    requires LockHeld(callers)
    requires Writing(c) ==> (p in callers && Writing(callers[p])) || (NoWriter(callers) && NoReader(callers))
    requires Reading(c) ==> (p in callers && Reading(callers[p])) || NoWriter(callers)
    ensures LockHeld(callers[p := c])
  {
  }

  lemma LockKept<E>(guard: Guard, limit: nat, s: State<E>, step: Step<E>)
    requires LockHeld(s.callers) && Can(guard, s, step)
    ensures LockHeld(Do(guard, limit, s, step).callers)
  {
    hide LockHeld;
    var s' := Do(guard, limit, s, step);
    if !step.Receive? && !step.Tick? && !step.Exit? {
      LockMove(s.callers, step.p, s'.callers[step.p]);
    }
  }

  lemma OnceMove<E>(callers: map<Pid, Caller<E>>, onceTaken: bool, closed: bool, p: Pid, c: Caller<E>,
                    onceTaken': bool, closed': bool)
    requires OnceHeld(callers, onceTaken, closed) && (onceTaken ==> onceTaken')
    requires Closing(c) ==> onceTaken' && ((p in callers && Closing(callers[p])) || !onceTaken)
    requires c.Chosen? ==> !closed'
    requires closed' && !closed ==> p in callers && Closing(callers[p]) && !c.Chosen?
    ensures OnceHeld(callers[p := c], onceTaken', closed')
  {
  }

  lemma OnceKept<E>(limit: nat, s: State<E>, step: Step<E>)
    requires OnceHeld(s.callers, s.onceTaken, s.closed) && Can(OnceGuard, s, step)
    ensures var s' := Do(OnceGuard, limit, s, step); OnceHeld(s'.callers, s'.onceTaken, s'.closed)
  {
    if !step.Receive? && !step.Tick? && !step.Exit? && step.p in s.callers {
      ChosenFirst(s.callers, s.onceTaken, s.closed, step.p);
    }
    hide OnceHeld, NoWriter, NoReader;
    var s' := Do(OnceGuard, limit, s, step);
    if !step.Receive? && !step.Tick? && !step.Exit? {
      OnceMove(s.callers, s.onceTaken, s.closed, step.p, s'.callers[step.p], s'.onceTaken, s'.closed);
    }
  }

  lemma ChosenFirst<E>(callers: map<Pid, Caller<E>>, onceTaken: bool, closed: bool, p: Pid)
    requires OnceHeld(callers, onceTaken, closed) && p in callers
    ensures callers[p].Chosen? ==> !closed
    ensures Closing(callers[p]) ==> onceTaken
  {
  }

  lemma ShutFacts<E>(callers: map<Pid, Caller<E>>, open: bool, closed: bool, p: Pid)
    requires ShutOnce(callers, open, closed) && p in callers
    ensures !closed ==> open
    ensures callers[p].PassedCheck? || callers[p].Holding? ==> !closed
    ensures callers[p].Flagged? ==> closed && open
  {
  }

  lemma ShutMove<E>(callers: map<Pid, Caller<E>>, open: bool, closed: bool, p: Pid, c: Caller<E>,
                    open': bool, closed': bool)
    requires LockHeld(callers) && ShutOnce(callers, open, closed)
    requires c.PassedCheck? || c.Holding? ==> !closed'
    requires c.Flagged? ==> closed' && open'
    requires (open' == open && closed' == closed)
          || (p in callers && callers[p].Holding? && c.Flagged? && open' == open && closed')
          || (p in callers && callers[p].Flagged? && c.ChannelShut? && !open' && closed' == closed)
    ensures ShutOnce(callers[p := c], open', closed')
  {
  }

  lemma ShutKept<E>(guard: Guard, limit: nat, s: State<E>, step: Step<E>)
    requires Inv(guard, s) && Can(guard, s, step)
    ensures var s' := Do(guard, limit, s, step);
      ShutOnce(s'.callers, s'.open, s'.closed) && !s'.sentLate && !s'.shutTwice
  {
    if !step.Receive? && !step.Tick? && !step.Exit? && step.p in s.callers {
      ShutFacts(s.callers, s.open, s.closed, step.p);
      if guard.OnceGuard? {
        ChosenFirst(s.callers, s.onceTaken, s.closed, step.p);
      }
    }
    hide LockHeld, OnceHeld, ShutOnce, NoWriter, NoReader, Accounted;
    var s' := Do(guard, limit, s, step);
    if !step.Receive? && !step.Tick? && !step.Exit? {
      ShutMove(s.callers, s.open, s.closed, step.p, s'.callers[step.p], s'.open, s'.closed);
    }
  }

  lemma AccountKept<E>(guard: Guard, limit: nat, s: State<E>, step: Step<E>)
    requires Inv(guard, s) && Can(guard, s, step)
    ensures Accounted(Do(guard, limit, s, step))
  {
    var s' := Do(guard, limit, s, step);
    if step.Receive? {
      ReceiveAccounts(s.accepted, s.written, s.queue, s.flushed, s.pending);
    } else if step.Send? {
      assert s.accepted + [s.callers[step.p].entry] == s.written + (s.queue + [s.callers[step.p].entry]);
    }
    hide LockHeld, OnceHeld;
  }

  lemma ReceiveAccounts<E>(accepted: seq<E>, written: seq<E>, queue: seq<E>, flushed: multiset<E>, pending: multiset<E>)
    requires accepted == written + queue && queue != [] && multiset(written) == flushed + pending
    ensures accepted == (written + [queue[0]]) + queue[1..]
    ensures multiset(written + [queue[0]]) == flushed + (pending + multiset{queue[0]})
  {
  }

  lemma StepKeeps<E>(guard: Guard, limit: nat, s: State<E>, step: Step<E>)
    requires Inv(guard, s) && Can(guard, s, step)
    ensures Inv(guard, Do(guard, limit, s, step))
  {
    LockKept(guard, limit, s, step);
    if guard.OnceGuard? {
      OnceKept(limit, s, step);
    }
    ShutKept(guard, limit, s, step);
    AccountKept(guard, limit, s, step);
    hide Do, Can, LockHeld, OnceHeld, ShutOnce, Accounted;
  }

  // ----- whole runs -----

  ghost predicate Run<E>(guard: Guard, limit: nat, states: seq<State<E>>, steps: seq<Step<E>>) {
    && |states| == |steps| + 1 && Init(states[0])
    && forall i :: 0 <= i < |steps| ==>
         Can(guard, states[i], steps[i]) && states[i+1] == Do(guard, limit, states[i], steps[i])
  }

  lemma RunStep<E>(guard: Guard, limit: nat, states: seq<State<E>>, steps: seq<Step<E>>, i: nat)
    requires Run(guard, limit, states, steps) && i < |steps|
    ensures Can(guard, states[i], steps[i]) && states[i+1] == Do(guard, limit, states[i], steps[i])
  {
  }

  lemma {:induction false} RunKeepsInv<E>(guard: Guard, limit: nat, states: seq<State<E>>, steps: seq<Step<E>>, i: nat)
    requires Run(guard, limit, states, steps) && i < |states|
    ensures Inv(guard, states[i])
    decreases i
  {
    if i > 0 {
      RunStep(guard, limit, states, steps, i - 1);
      hide *;
      RunKeepsInv(guard, limit, states, steps, i - 1);
      StepKeeps(guard, limit, states[i-1], steps[i-1]);
    }
  }

  /** At every moment of every run: no send on a shut queue, no second shut, and no accepted entry lost or doubled. */
  lemma NothingLost<E>(guard: Guard, limit: nat, states: seq<State<E>>, steps: seq<Step<E>>, i: nat)
    requires Run(guard, limit, states, steps) && i < |states|
    ensures !states[i].sentLate && !states[i].shutTwice
    ensures states[i].accepted == states[i].written + states[i].queue
    ensures multiset(states[i].accepted) == states[i].flushed + states[i].pending + multiset(states[i].queue)
  {
    RunKeepsInv(guard, limit, states, steps, i);
    hide Run, LockHeld, OnceHeld, ShutOnce;
    assert multiset(states[i].accepted) == multiset(states[i].written) + multiset(states[i].queue);
  }

  lemma {:induction false} ExitLasts<E>(guard: Guard, limit: nat, states: seq<State<E>>, steps: seq<Step<E>>,
                                       i: nat, j: nat)
    requires Run(guard, limit, states, steps) && i <= j < |states| == |steps| + 1
    ensures states[i].exited ==> ExitedWith(states[j], states[i].accepted)
    decreases j - i
  {
    hide Run;
    if i < j {
      ExitedNext(guard, limit, states, steps, j - 1);
      ExitLasts(guard, limit, states, steps, i, j - 1);
    }
  }

  predicate ExitedWith<E(==)>(s: State<E>, accepted: seq<E>) { s.exited && s.accepted == accepted }

  /** When the writer has exited, every accepted entry was flushed once and written in order, and none comes later. */
  lemma ExitIsFinal<E>(guard: Guard, limit: nat, states: seq<State<E>>, steps: seq<Step<E>>, i: nat, j: nat)
    requires Run(guard, limit, states, steps) && i <= j < |states| && states[i].exited
    ensures states[j].exited && states[j].accepted == states[i].accepted
    ensures states[j].written == states[j].accepted && states[j].flushed == multiset(states[j].accepted)
  {
    assert |states| == |steps| + 1;
    hide Run, Inv;
    RunKeepsInv(guard, limit, states, steps, j);
    ExitedAccount(guard, states[j]);
    ExitLasts(guard, limit, states, steps, i, j);
  }

  lemma ExitedNext<E>(guard: Guard, limit: nat, states: seq<State<E>>, steps: seq<Step<E>>, i: nat)
    requires Run(guard, limit, states, steps) && i < |steps|
    ensures |states| == |steps| + 1 && (states[i].exited ==> ExitedWith(states[i+1], states[i].accepted))
  {
    RunKeepsInv(guard, limit, states, steps, i);
    RunStep(guard, limit, states, steps, i);
    assert |states| == |steps| + 1;
    hide *;
    ExitedStays(guard, limit, states[i], steps[i]);
  }

  lemma ExitedAccount<E>(guard: Guard, s: State<E>)
    requires Inv(guard, s)
    ensures s.exited ==> s.written == s.accepted && s.flushed == multiset(s.accepted)
  {
  }

  lemma ExitedStays<E>(guard: Guard, limit: nat, s: State<E>, step: Step<E>)
    requires Inv(guard, s) && Can(guard, s, step)
    ensures s.exited ==> ExitedWith(Do(guard, limit, s, step), s.accepted)
  {
    hide LockHeld, OnceHeld, NoWriter, NoReader;
  }

  lemma {:induction false} QueueBounded<E>(guard: Guard, limit: nat, states: seq<State<E>>, steps: seq<Step<E>>, i: nat)
    requires Run(guard, limit, states, steps) && i < |states|
    ensures |states[i].queue| <= limit
    decreases i
  {
    assert |states| == |steps| + 1 && |states[0].queue| == 0;
    if i > 0 {
      RunStep(guard, limit, states, steps, i - 1);
      hide *;
      QueueBounded(guard, limit, states, steps, i - 1);
      StepBounds(guard, limit, states[i-1], steps[i-1]);
    }
  }

  lemma StepBounds<E>(guard: Guard, limit: nat, s: State<E>, step: Step<E>)
    requires Can(guard, s, step) && |s.queue| <= limit
    ensures |Do(guard, limit, s, step).queue| <= limit
  {
    hide NoWriter, NoReader;
    var s' := Do(guard, limit, s, step);
    if step.Receive? {
      assert s'.queue == s.queue[1..];
    } else if step.Send? {
      assert s'.queue == s.queue || (|s.queue| < limit && s'.queue == s.queue + [s.callers[step.p].entry]);
    } else {
      assert s'.queue == s.queue;
    }
  }

  /** A recorder is turned away exactly when closing has begun, or when its send finds the queue full. */
  lemma DroppedOnlyWhen<E>(guard: Guard, limit: nat, states: seq<State<E>>, steps: seq<Step<E>>, i: nat, p: Pid)
    requires Run(guard, limit, states, steps) && i < |states|
    ensures Can(guard, states[i], Check(p)) ==>
      (Do(guard, limit, states[i], Check(p)).callers[p].Sent? <==> states[i].closed)
    ensures Can(guard, states[i], Send(p)) ==>
      var s, s' := states[i], Do(guard, limit, states[i], Send(p));
      || (|s.queue| < limit && s'.accepted == s.accepted + [s.callers[p].entry])
      || (|s.queue| == limit && s'.accepted == s.accepted)
  {
    RunKeepsInv(guard, limit, states, steps, i);
    QueueBounded(guard, limit, states, steps, i);
    if Can(guard, states[i], Send(p)) {
      ShutFacts(states[i].callers, states[i].open, states[i].closed, p);
    }
    hide Run, LockHeld, OnceHeld, ShutOnce, Accounted, NoWriter, NoReader;
  }

  // ----- closing gets done -----

  /** A flagged queue still open is in the hands of the closer that flagged it. */
  ghost predicate InHand<E>(callers: map<Pid, Caller<E>>, open: bool, closed: bool) {
    closed && open ==> exists p :: p in callers && callers[p].Flagged?
  }

  /** Choosing is the once's. */
  ghost predicate ChosenByOnce<E>(guard: Guard, callers: map<Pid, Caller<E>>) {
    forall p :: p in callers && callers[p].Chosen? ==> guard.OnceGuard?
  }

  lemma HandMove<E>(callers: map<Pid, Caller<E>>, open: bool, closed: bool, p: Pid, c: Caller<E>, open': bool,
                    closed': bool)
    requires InHand(callers, open, closed)
    requires c.Flagged? || !open' || (open' == open && closed' == closed && (p in callers ==> !callers[p].Flagged?))
    ensures InHand(callers[p := c], open', closed')
  {
    if closed' && open' && !c.Flagged? {
      var q :| q in callers && callers[q].Flagged?;
      assert q in callers[p := c] && callers[p := c][q].Flagged?;
    } else if c.Flagged? {
      assert callers[p := c][p].Flagged?;
    }
  }

  lemma HandedOn<E>(guard: Guard, limit: nat, s: State<E>, step: Step<E>)
    requires InHand(s.callers, s.open, s.closed) && Can(guard, s, step)
    ensures var s' := Do(guard, limit, s, step); InHand(s'.callers, s'.open, s'.closed)
  {
    hide InHand, NoWriter, NoReader;
    var s' := Do(guard, limit, s, step);
    if !step.Receive? && !step.Tick? && !step.Exit? {
      HandMove(s.callers, s.open, s.closed, step.p, s'.callers[step.p], s'.open, s'.closed);
    }
  }

  lemma ChosenStays<E>(guard: Guard, limit: nat, s: State<E>, step: Step<E>)
    requires ChosenByOnce(guard, s.callers) && Can(guard, s, step)
    ensures ChosenByOnce(guard, Do(guard, limit, s, step).callers)
  {
    hide NoWriter, NoReader;
    var s' := Do(guard, limit, s, step);
    if !step.Receive? && !step.Tick? && !step.Exit? {
      assert s'.callers == s.callers[step.p := s'.callers[step.p]];
      assert s'.callers[step.p].Chosen? ==> guard.OnceGuard?;
    }
  }

  lemma {:induction false} AlwaysInHand<E>(guard: Guard, limit: nat, states: seq<State<E>>, steps: seq<Step<E>>, i: nat)
    requires Run(guard, limit, states, steps) && i < |states|
    ensures InHand(states[i].callers, states[i].open, states[i].closed) && ChosenByOnce(guard, states[i].callers)
    decreases i
  {
    assert |states| == |steps| + 1;
    if i > 0 {
      RunStep(guard, limit, states, steps, i - 1);
      hide *;
      AlwaysInHand(guard, limit, states, steps, i - 1);
      HandedOn(guard, limit, states[i-1], steps[i-1]);
      ChosenStays(guard, limit, states[i-1], steps[i-1]);
    }
  }

  /** Once the queue is flagged and no closer is inside the lock it is shut, and a writer that finds it empty exits. */
  lemma ClosedIsShut<E>(guard: Guard, limit: nat, states: seq<State<E>>, steps: seq<Step<E>>, i: nat)
    requires Run(guard, limit, states, steps) && i < |states|
    requires states[i].closed && NoWriter(states[i].callers)
    ensures !states[i].open
    ensures states[i].queue == [] && !states[i].exited ==> Can(guard, states[i], Exit)
  {
    AlwaysInHand(guard, limit, states, steps, i);
    hide Run;
  }

  predicate Finished<E>(c: Caller<E>) { c.Recorded? || c.Done? }

  /** Nobody waits for ever: while some caller is unfinished some caller can move, and a writer with an entry to write
      can write it. */
  lemma SomeoneMoves<E>(guard: Guard, limit: nat, states: seq<State<E>>, steps: seq<Step<E>>, i: nat, p: Pid)
    returns (step: Step<E>)
    requires Run(guard, limit, states, steps) && i < |states|
    requires p in states[i].callers && !Finished(states[i].callers[p])
    ensures Can(guard, states[i], step)
    ensures !step.Receive? && !step.Tick? && !step.Exit? && !step.CallRecord? && !step.CallClose?
    ensures states[i].queue != [] && !states[i].exited ==> Can(guard, states[i], Receive)
  {
    AlwaysInHand(guard, limit, states, steps, i);
    hide Run, InHand;
    var callers := states[i].callers;
    if q :| q in callers && Writing(callers[q]) {
      step := if callers[q].Holding? then Flag(q) else if callers[q].Flagged? then Shut(q) else UnlockClosed(q);
    } else if q :| q in callers && Reading(callers[q]) {
      step := if callers[q].Locked? then Check(q) else if callers[q].PassedCheck? then Send(q) else Unlock(q);
    } else if callers[p].WantsToRecord? {
      step := LockToRecord(p);
    } else if callers[p].Chosen? || guard.FlagGuard? {
      step := LockToClose(p);
    } else {
      step := if states[i].onceTaken then SkipOnce(p) else EnterOnce(p);
    }
  }
}
