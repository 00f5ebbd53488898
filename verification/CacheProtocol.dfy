/** Readers and writers sharing the cache and the database, one atomic step at a time. */
module CacheProtocol {
  import opened Basics
  import opened ResolveCache

  type Pid = nat

  /** One database write that went through. */
  datatype Commit = Commit(code: Code, link: Link)

  /** The database after some commits over what it held at the start. */
  function Content(base: map<Code, Link>, commits: seq<Commit>, code: Code): Option<Link> {
    if commits == [] then if code in base then Some(base[code]) else None
    else
      var last := commits[|commits|-1];
      if last.code == code then Some(last.link) else Content(base, commits[..|commits|-1], code)
  }

  /** A ByCode call. seen is the set of writers that had already returned when it began; version counts the
      commits behind its value. Neither exists in the program. */
  datatype Reader =
    | Began(code: Code, seen: set<Pid>)
    | Missed(code: Code, seen: set<Pid>)
    | Captured(code: Code, seen: set<Pid>, gen: nat)
    | Fetched(code: Code, seen: set<Pid>, gen: nat, value: Option<Link>, version: nat)
    | Answered(code: Code, seen: set<Pid>, value: Option<Link>, version: nat)
    | Failed(code: Code, seen: set<Pid>)

  datatype Op = Insert(link: Link) | Revoke(at: int)

  /** An Insert or Revoke call; version counts the commits up to and including its own. */
  datatype Writer =
    | Writing(code: Code, op: Op)
    | Committed(code: Code, op: Op, version: nat)
    | Returned(code: Code, op: Op, version: nat)
    | Refused(code: Code)

  datatype State = State(
    commits: seq<Commit>, cache: Cache, versions: map<Code, nat>, readers: map<Pid, Reader>, writers: map<Pid, Writer>)

  datatype Step =
    | BeginRead(r: Pid, code: Code)
    | LookUp(r: Pid, now: int)
    | TakeGeneration(r: Pid)
    | FindOne(r: Pid)
    | FindFails(r: Pid)
    | Publish(r: Pid, now: int)
    | BeginWrite(w: Pid, code: Code, op: Op)
    | CommitWrite(w: Pid)
    | Refuse(w: Pid)
    | FinishWrite(w: Pid)

  function ReturnedBy(s: State): set<Pid> {
    set w | w in s.writers && s.writers[w].Returned?
  }

  /** What a write leaves in the document, or nothing when the database turns it down. */
  function Outcome(base: map<Code, Link>, commits: seq<Commit>, code: Code, op: Op): Option<Link> {
    var held := Content(base, commits, code);
    match op
    case Insert(link) => if held.None? && code != "" then Some(link) else None
    case Revoke(at) => if held.Some? then Some(held.value.(revokedAt := Some(at))) else None
  }

  ghost predicate Can(base: map<Code, Link>, s: State, step: Step) {
    match step
    case BeginRead(r, _) => r !in s.readers
    case LookUp(r, _) => r in s.readers && s.readers[r].Began?
    case TakeGeneration(r) => r in s.readers && s.readers[r].Missed?
    case FindOne(r) => r in s.readers && s.readers[r].Captured?
    case FindFails(r) => r in s.readers && s.readers[r].Captured?
    case Publish(r, _) => r in s.readers && s.readers[r].Fetched?
    case BeginWrite(w, _, _) => w !in s.writers
    case CommitWrite(w) =>
      w in s.writers && s.writers[w].Writing? && Outcome(base, s.commits, s.writers[w].code, s.writers[w].op).Some?
    case Refuse(w) => w in s.writers && s.writers[w].Writing?
    case FinishWrite(w) => w in s.writers && s.writers[w].Committed?
  }

  ghost function SetReader(s: State, r: Pid, reader: Reader): State {
    s.(readers := s.readers[r := reader])
  }

  ghost function SetWriter(s: State, w: Pid, writer: Writer): State {
    s.(writers := s.writers[w := writer])
  }

  ghost function Do(base: map<Code, Link>, s: State, step: Step): State
    requires Can(base, s, step)
  {
    match step
    case BeginRead(r, code) => SetReader(s, r, Began(code, ReturnedBy(s)))
    case LookUp(r, now) =>
      var Began(code, seen) := s.readers[r];
      (match Get(s.cache, code, now)
       case Some(value) =>
         SetReader(s, r, Answered(code, seen, value, if code in s.versions then s.versions[code] else 0))
       case None => SetReader(s, r, Missed(code, seen)))
    case TakeGeneration(r) =>
      var Missed(code, seen) := s.readers[r];
      SetReader(s, r, Captured(code, seen, s.cache.gen))
    case FindOne(r) =>
      var Captured(code, seen, gen) := s.readers[r];
      SetReader(s, r, Fetched(code, seen, gen, Content(base, s.commits, code), |s.commits|))
    case FindFails(r) => SetReader(s, r, Failed(s.readers[r].code, s.readers[r].seen))
    case Publish(r, now) =>
      var Fetched(code, seen, gen, value, version) := s.readers[r];
      var cache := PutIfFresh(s.cache, code, value, gen, now);
      var versions := if gen == s.cache.gen then s.versions[code := version] else s.versions;
      SetReader(s, r, Answered(code, seen, value, version)).(cache := cache, versions := versions)
    case BeginWrite(w, code, op) => SetWriter(s, w, Writing(code, op))
    case CommitWrite(w) =>
      var Writing(code, op) := s.writers[w];
      var link := Outcome(base, s.commits, code, op).value;
      SetWriter(s, w, Committed(code, op, |s.commits| + 1)).(commits := s.commits + [Commit(code, link)])
    case Refuse(w) => SetWriter(s, w, Refused(s.writers[w].code))
    case FinishWrite(w) =>
      var Committed(code, op, version) := s.writers[w];
      SetWriter(s, w, Returned(code, op, version)).(cache := Invalidate(s.cache, code))
  }

  // ----- the invariant -----

  /** Some writer of this code sits between its commit and its invalidate. */
  ghost predicate InFlight(writers: map<Pid, Writer>, code: Code) {
    exists w :: w in writers && writers[w].Committed? && writers[w].code == code
  }

  /** A value read at this version is out of date only because of writers still in flight. */
  ghost predicate Current(commits: seq<Commit>, writers: map<Pid, Writer>, code: Code, version: nat) {
    forall n :: version <= n < |commits| && commits[n].code == code ==> InFlight(writers, code)
  }

  /** No writer that has returned is newer than this version. */
  ghost predicate CoversReturned(writers: map<Pid, Writer>, code: Code, version: nat) {
    forall w :: w in writers && writers[w].Returned? && writers[w].code == code ==> writers[w].version <= version
  }

  ghost predicate ValueAt(base: map<Code, Link>, commits: seq<Commit>, code: Code, value: Option<Link>, version: nat) {
    version <= |commits| && value == Content(base, commits[..version], code)
  }

  /** Writers the reader saw return have returned, and its version is no older than theirs. */
  ghost predicate SeenReturned(writers: map<Pid, Writer>, seen: set<Pid>) {
    forall w :: w in seen ==> w in writers && writers[w].Returned?
  }

  ghost predicate CoversSeen(writers: map<Pid, Writer>, seen: set<Pid>, code: Code, version: nat) {
    forall w :: w in seen && w in writers && writers[w].Returned? && writers[w].code == code ==>
        writers[w].version <= version
  }

  ghost predicate ReaderOk(base: map<Code, Link>, commits: seq<Commit>, gen: nat, writers: map<Pid, Writer>,
                           r: Reader) {
    && SeenReturned(writers, r.seen)
    && (r.Captured? ==> r.gen <= gen)
    && (r.Fetched? || r.Answered? ==>
          ValueAt(base, commits, r.code, r.value, r.version) && CoversSeen(writers, r.seen, r.code, r.version))
    && (r.Fetched? ==> r.gen <= gen)
    && (r.Fetched? && r.gen == gen ==>
          Current(commits, writers, r.code, r.version) && CoversReturned(writers, r.code, r.version))
  }

  predicate Wrote(w: Writer) { w.Committed? || w.Returned? }

  /** The commit at the writer's version is what its own operation made of the database as it was just before. */
  ghost predicate WriterOk(base: map<Code, Link>, commits: seq<Commit>, w: Writer) {
    Wrote(w) ==>
      && 1 <= w.version <= |commits| && commits[w.version-1].code == w.code
      && Outcome(base, commits[..w.version-1], w.code, w.op) == Some(commits[w.version-1].link)
  }

  /** No two writers claim one commit. */
  ghost predicate OneCommitEach(writers: map<Pid, Writer>) {
    forall v, w | v in writers && w in writers && Wrote(writers[v]) && Wrote(writers[w]) ::
      writers[v].version == writers[w].version ==> v == w
  }

  ghost predicate EntryOk(base: map<Code, Link>, commits: seq<Commit>, writers: map<Pid, Writer>,
                         versions: map<Code, nat>, code: Code, e: Entry) {
    && code in versions
    && ValueAt(base, commits, code, e.link, versions[code])
    && Current(commits, writers, code, versions[code]) && CoversReturned(writers, code, versions[code])
  }

  ghost predicate ReadersOk(base: map<Code, Link>, s: State) {
    forall r :: r in s.readers ==> ReaderOk(base, s.commits, s.cache.gen, s.writers, s.readers[r])
  }

  ghost predicate WritersOk(base: map<Code, Link>, s: State) {
    OneCommitEach(s.writers) && forall w :: w in s.writers ==> WriterOk(base, s.commits, s.writers[w])
  }

  ghost predicate EntriesOk(base: map<Code, Link>, s: State) {
    forall code :: code in s.cache.entries ==>
        EntryOk(base, s.commits, s.writers, s.versions, code, s.cache.entries[code])
  }

  ghost predicate Inv(base: map<Code, Link>, s: State) {
    |s.cache.entries| <= MAX_ENTRIES && ReadersOk(base, s) && WritersOk(base, s) && EntriesOk(base, s)
  }

  ghost predicate Init(s: State) {
    s == State([], Cache(map[], 0), map[], map[], map[])
  }

  /** Nothing committed after a version means the database has not changed since, for that code. */
  lemma {:induction false} Unchanged(base: map<Code, Link>, commits: seq<Commit>, code: Code, version: nat)
    requires version <= |commits|
    requires forall n :: version <= n < |commits| ==> commits[n].code != code
    ensures Content(base, commits[..version], code) == Content(base, commits, code)
    decreases |commits|
  {
    if version == |commits| {
      assert commits[..version] == commits;
    } else {
      var init := commits[..|commits|-1];
      assert init[..version] == commits[..version];
      Unchanged(base, init, code, version);
    }
  }

  // ----- each kind of step keeps the invariant -----

  lemma ReaderStepKeeps(base: map<Code, Link>, s: State, step: Step)
    requires Inv(base, s) && Can(base, s, step)
    requires step.BeginRead? || step.LookUp? || step.TakeGeneration? || step.FindOne? || step.FindFails?
    ensures Inv(base, Do(base, s, step))
  {
    NewReaderOk(base, s, step);
    var s' := Do(base, s, step);
    assert s' == SetReader(s, step.r, s'.readers[step.r]);
    hide Do, Can, ReaderOk, WriterOk, EntryOk, OneCommitEach;
  }

  lemma NewReaderOk(base: map<Code, Link>, s: State, step: Step)
    requires Inv(base, s) && Can(base, s, step)
    requires step.BeginRead? || step.LookUp? || step.TakeGeneration? || step.FindOne? || step.FindFails?
    ensures ReaderOk(base, s.commits, s.cache.gen, s.writers, Do(base, s, step).readers[step.r])
  {
    if !step.BeginRead? {
      var reader := s.readers[step.r];
      assert ReaderOk(base, s.commits, s.cache.gen, s.writers, reader);
      if reader.code in s.cache.entries {
        assert EntryOk(base, s.commits, s.writers, s.versions, reader.code, s.cache.entries[reader.code]);
      }
      assert s.commits[..|s.commits|] == s.commits;
      forall w | w in s.writers ensures WriterOk(base, s.commits, s.writers[w]) {
      }
    }
  }

  lemma PublishKeeps(base: map<Code, Link>, s: State, r: Pid, now: int)
    requires Inv(base, s) && Can(base, s, Publish(r, now))
    ensures Inv(base, Do(base, s, Publish(r, now)))
  {
    var s' := Do(base, s, Publish(r, now));
    var Fetched(code, seen, gen, value, version) := s.readers[r];
    assert ReaderOk(base, s.commits, s.cache.gen, s.writers, s.readers[r]);
    PutBounded(s.cache, code, value, gen, now);
    forall k | k in s'.cache.entries
      ensures EntryOk(base, s'.commits, s'.writers, s'.versions, k, s'.cache.entries[k])
    {
      if k != code || gen != s.cache.gen {
        assert EntryOk(base, s.commits, s.writers, s.versions, k, s.cache.entries[k]);
      }
    }
    forall q | q in s'.readers ensures ReaderOk(base, s'.commits, s'.cache.gen, s'.writers, s'.readers[q]) {
      if q != r {
        assert ReaderOk(base, s.commits, s.cache.gen, s.writers, s.readers[q]);
      }
    }
  }

  /** Writers that neither commit nor return leave every other fact as it was. */
  lemma QuietWriteKeeps(base: map<Code, Link>, s: State, step: Step)
    requires Inv(base, s) && Can(base, s, step) && (step.BeginWrite? || step.Refuse?)
    ensures Inv(base, Do(base, s, step))
  {
    var s' := Do(base, s, step);
    forall code, version: nat
      ensures Current(s.commits, s.writers, code, version) ==> Current(s.commits, s'.writers, code, version)
    {
      InFlightKept(s.writers, s'.writers, code, step.w);
    }
    QuietWriteFrames(s.writers, s'.writers, step.w);
    EverythingKept(base, s, s', step.w);
  }

  lemma InFlightKept(writers: map<Pid, Writer>, writers': map<Pid, Writer>, code: Code, w: Pid)
    requires forall v :: v in writers && v != w ==> v in writers' && writers'[v] == writers[v]
    requires w in writers ==> !writers[w].Committed? || writers[w].code != code
    ensures InFlight(writers, code) ==> InFlight(writers', code)
  {
    if InFlight(writers, code) {
      var v :| v in writers && writers[v].Committed? && writers[v].code == code;
      assert writers'[v] == writers[v];
    }
  }

  lemma QuietWriteFrames(writers: map<Pid, Writer>, writers': map<Pid, Writer>, w: Pid)
    requires w in writers' && writers' == writers[w := writers'[w]]
    requires !writers'[w].Returned? && (w in writers ==> !writers[w].Returned?)
    ensures forall code, version: nat :: CoversReturned(writers, code, version) ==>
        CoversReturned(writers', code, version)
    ensures forall seen :: SeenReturned(writers, seen) ==> SeenReturned(writers', seen)
    ensures forall seen, code, version: nat :: CoversSeen(writers, seen, code, version) ==>
        CoversSeen(writers', seen, code, version)
  {
  }

  /** An answer published while nothing was invalidated is what a lookup in the next minute finds. */
  lemma PublishedIsServed(base: map<Code, Link>, s: State, r: Pid, now: int, q: Pid, later: int)
    requires |s.cache.entries| <= MAX_ENTRIES && Can(base, s, Publish(r, now)) && s.readers[r].gen == s.cache.gen
    requires q !in s.readers && now <= later <= now + 60
    ensures var reader := s.readers[r];
      var s1 := Do(base, s, Publish(r, now));
      && Can(base, s1, BeginRead(q, reader.code))
      && var s2 := Do(base, s1, BeginRead(q, reader.code));
         && Can(base, s2, LookUp(q, later))
         && Do(base, s2, LookUp(q, later)).readers[q] ==
            Answered(reader.code, ReturnedBy(s), reader.value, reader.version)
  {
    PutBounded(s.cache, s.readers[r].code, s.readers[r].value, s.readers[r].gen, now);
  }

  /** When every clause about writers carries over, so does the invariant. */
  lemma EverythingKept(base: map<Code, Link>, s: State, s': State, w: Pid)
    requires Inv(base, s) && s'.cache == s.cache && s'.readers == s.readers && s'.versions == s.versions
    requires w in s'.writers && s'.writers == s.writers[w := s'.writers[w]] && WriterOk(base, s'.commits, s'.writers[w])
    requires s.commits <= s'.commits && OneCommitEach(s'.writers)
    requires forall code, version: nat :: version <= |s.commits| && Current(s.commits, s.writers, code, version) ==>
        Current(s'.commits, s'.writers, code, version)
    requires forall code, version: nat :: CoversReturned(s.writers, code, version) ==>
        CoversReturned(s'.writers, code, version)
    requires forall seen :: SeenReturned(s.writers, seen) ==> SeenReturned(s'.writers, seen)
    requires forall seen, code, version: nat :: CoversSeen(s.writers, seen, code, version) ==>
        CoversSeen(s'.writers, seen, code, version)
    ensures Inv(base, s')
  {
    hide Current, CoversReturned, SeenReturned, CoversSeen, Content, Outcome, OneCommitEach;
    assert forall version: nat :: version <= |s.commits| ==> s'.commits[..version] == s.commits[..version];
    forall r | r in s'.readers ensures ReaderOk(base, s'.commits, s'.cache.gen, s'.writers, s'.readers[r]) {
      assert ReaderOk(base, s.commits, s.cache.gen, s.writers, s.readers[r]);
    }
    forall code | code in s'.cache.entries
      ensures EntryOk(base, s'.commits, s'.writers, s'.versions, code, s'.cache.entries[code])
    {
      assert EntryOk(base, s.commits, s.writers, s.versions, code, s.cache.entries[code]);
    }
    forall v | v in s'.writers ensures WriterOk(base, s'.commits, s'.writers[v]) {
      if v != w {
        assert WriterOk(base, s.commits, s.writers[v]);
      }
    }
  }

  lemma CommitKeeps(base: map<Code, Link>, s: State, w: Pid)
    requires Inv(base, s) && Can(base, s, CommitWrite(w))
    ensures Inv(base, Do(base, s, CommitWrite(w)))
  {
    var s' := Do(base, s, CommitWrite(w));
    forall code, version: nat | version <= |s.commits| && Current(s.commits, s.writers, code, version)
      ensures Current(s'.commits, s'.writers, code, version)
    {
      InFlightKept(s.writers, s'.writers, code, w);
      forall n | version <= n < |s'.commits| && s'.commits[n].code == code ensures InFlight(s'.writers, code) {
        if n < |s.commits| {
          assert s.commits[n].code == code;
        } else {
          assert s'.writers[w].Committed? && s'.writers[w].code == code;
        }
      }
    }
    QuietWriteFrames(s.writers, s'.writers, w);
    assert s'.commits[..|s.commits|] == s.commits;
    assert forall v :: v in s.writers ==> WriterOk(base, s.commits, s.writers[v]);
    EverythingKept(base, s, s', w);
  }

  lemma FinishKeeps(base: map<Code, Link>, s: State, w: Pid)
    requires Inv(base, s) && Can(base, s, FinishWrite(w))
    ensures Inv(base, Do(base, s, FinishWrite(w)))
  {
    hide ReadersOk, WritersOk, EntriesOk, Content, Outcome, Get;
    InvalidateForgets(s.cache, s.writers[w].code, 0);
    FinishEntries(base, s, w);
    FinishReaders(base, s, w);
    FinishWriters(base, s, w);
  }

  lemma FinishWriters(base: map<Code, Link>, s: State, w: Pid)
    requires Inv(base, s) && Can(base, s, FinishWrite(w))
    ensures WritersOk(base, Do(base, s, FinishWrite(w)))
  {
    var s' := Do(base, s, FinishWrite(w));
    forall v | v in s'.writers ensures WriterOk(base, s'.commits, s'.writers[v]) {
      assert WriterOk(base, s.commits, s.writers[v]);
    }
  }

  /** A finishing writer moves the generation on, so no reader's value is current any more. */
  lemma FinishReader(base: map<Code, Link>, commits: seq<Commit>, gen: nat, writers: map<Pid, Writer>,
                     writers': map<Pid, Writer>,
                     r: Reader, w: Pid)
    requires w in writers && writers[w].Committed? && w in writers' && writers' == writers[w := writers'[w]]
    requires ReaderOk(base, commits, gen, writers, r)
    ensures ReaderOk(base, commits, gen + 1, writers', r)
  {
    hide ValueAt, Current, CoversReturned;
  }

  lemma FinishReaders(base: map<Code, Link>, s: State, w: Pid)
    requires Inv(base, s) && Can(base, s, FinishWrite(w))
    ensures ReadersOk(base, Do(base, s, FinishWrite(w)))
  {
    var s' := Do(base, s, FinishWrite(w));
    hide EntriesOk, WritersOk, Content, Outcome, ReaderOk;
    forall r | r in s'.readers ensures ReaderOk(base, s'.commits, s'.cache.gen, s'.writers, s'.readers[r]) {
      FinishReader(base, s.commits, s.cache.gen, s.writers, s'.writers, s.readers[r], w);
    }
  }

  /** An entry of another code is as good after a writer finishes. */
  lemma FinishEntry(base: map<Code, Link>, commits: seq<Commit>, writers: map<Pid, Writer>, writers': map<Pid, Writer>,
                    versions: map<Code, nat>, code: Code, e: Entry, w: Pid)
    requires w in writers && w in writers' && writers[w].code != code && writers'[w].code != code
    requires writers' == writers[w := writers'[w]] && EntryOk(base, commits, writers, versions, code, e)
    ensures EntryOk(base, commits, writers', versions, code, e)
  {
    hide ValueAt;
    InFlightKept(writers, writers', code, w);
    hide InFlight;
  }

  lemma FinishEntries(base: map<Code, Link>, s: State, w: Pid)
    requires Inv(base, s) && Can(base, s, FinishWrite(w))
    ensures EntriesOk(base, Do(base, s, FinishWrite(w)))
  {
    var s' := Do(base, s, FinishWrite(w));
    hide ReadersOk, WritersOk, EntryOk, Content, Outcome, Get;
    InvalidateForgets(s.cache, s.writers[w].code, 0);
    forall code | code in s'.cache.entries
      ensures EntryOk(base, s'.commits, s'.writers, s'.versions, code, s'.cache.entries[code])
    {
      FinishEntry(base, s.commits, s.writers, s'.writers, s.versions, code, s.cache.entries[code], w);
    }
  }

  lemma StepKeeps(base: map<Code, Link>, s: State, step: Step)
    requires Inv(base, s) && Can(base, s, step)
    ensures Inv(base, Do(base, s, step))
  {
    hide Inv, Do, Can;
    match step
    case Publish(r, now) => PublishKeeps(base, s, r, now);
    case BeginWrite(_, _, _) => QuietWriteKeeps(base, s, step);
    case Refuse(_) => QuietWriteKeeps(base, s, step);
    case CommitWrite(w) => CommitKeeps(base, s, w);
    case FinishWrite(w) => FinishKeeps(base, s, w);
    case _ => ReaderStepKeeps(base, s, step);
  }

  // ----- whole runs -----

  ghost predicate Run(base: map<Code, Link>, states: seq<State>, steps: seq<Step>) {
    && |states| == |steps| + 1 && Init(states[0])
    && forall i :: 0 <= i < |steps| ==> Can(base, states[i], steps[i]) && states[i+1] == Do(base, states[i], steps[i])
  }

  lemma RunStep(base: map<Code, Link>, states: seq<State>, steps: seq<Step>, i: nat)
    requires Run(base, states, steps) && i < |steps|
    ensures Can(base, states[i], steps[i]) && states[i+1] == Do(base, states[i], steps[i])
  {
  }

  lemma {:induction false} RunKeepsInv(base: map<Code, Link>, states: seq<State>, steps: seq<Step>, i: nat)
    requires Run(base, states, steps) && i < |states|
    ensures Inv(base, states[i])
    decreases i
  {
    if i > 0 {
      RunKeepsInv(base, states, steps, i - 1);
      RunStep(base, states, steps, i - 1);
      StepKeeps(base, states[i-1], steps[i-1]);
    }
  }

  /** A cached answer, or a fetched one its reader may still publish, that the database no longer agrees with. */
  ghost predicate Stale(base: map<Code, Link>, s: State, code: Code) {
    || (code in s.cache.entries && s.cache.entries[code].link != Content(base, s.commits, code))
    || exists r :: r in s.readers && s.readers[r].Fetched? && s.readers[r].code == code
        && s.readers[r].gen == s.cache.gen
                   && s.readers[r].value != Content(base, s.commits, code)
  }

  /** At every moment of every run, the cache disagrees with the database about a code only while a writer of that
      code sits between its commit and its invalidate. */
  lemma CacheCoherent(base: map<Code, Link>, states: seq<State>, steps: seq<Step>, i: nat, code: Code)
    requires Run(base, states, steps) && i < |states|
    ensures Stale(base, states[i], code) ==> InFlight(states[i].writers, code)
    ensures |states[i].cache.entries| <= 4096
  {
    var s := states[i];
    RunKeepsInv(base, states, steps, i);
    hide Run;
    if code in s.cache.entries {
      assert EntryOk(base, s.commits, s.writers, s.versions, code, s.cache.entries[code]);
      StaleMeansInFlight(base, s, code, s.cache.entries[code].link, s.versions[code]);
    }
    forall r | r in s.readers && s.readers[r].Fetched? && s.readers[r].code == code && s.readers[r].gen == s.cache.gen
      ensures s.readers[r].value != Content(base, s.commits, code) ==> InFlight(s.writers, code)
    {
      assert ReaderOk(base, s.commits, s.cache.gen, s.writers, s.readers[r]);
      StaleMeansInFlight(base, s, code, s.readers[r].value, s.readers[r].version);
    }
  }

  lemma StaleMeansInFlight(base: map<Code, Link>, s: State, code: Code, value: Option<Link>, version: nat)
    requires ValueAt(base, s.commits, code, value, version) && Current(s.commits, s.writers, code, version)
    ensures value != Content(base, s.commits, code) ==> InFlight(s.writers, code)
  {
    if !InFlight(s.writers, code) {
      Unchanged(base, s.commits, code, version);
    }
  }

  /** A returned writer stays as it is, and a reader that began later has seen it. */
  lemma {:induction false} LaterReadersSee(base: map<Code, Link>, states: seq<State>, steps: seq<Step>, i: nat,
                                           j: nat, w: Pid, r: Pid)
    requires Run(base, states, steps) && i <= j < |states|
    requires w in states[i].writers && states[i].writers[w].Returned? && r !in states[i].readers
    ensures w in states[j].writers && states[j].writers[w] == states[i].writers[w]
    ensures r in states[j].readers ==> w in states[j].readers[r].seen
    decreases j - i
  {
    assert |states| == |steps| + 1;
    hide *;
    if i < j {
      RunStep(base, states, steps, j - 1);
      LaterReadersSee(base, states, steps, i, j - 1, w, r);
      OneStepOn(base, states[j-1], steps[j-1], w, r);
    }
  }

  lemma OneStepOn(base: map<Code, Link>, s: State, step: Step, w: Pid, r: Pid)
    requires Can(base, s, step) && w in s.writers && s.writers[w].Returned?
    requires r in s.readers ==> w in s.readers[r].seen
    ensures var s' := Do(base, s, step);
            && w in s'.writers && s'.writers[w] == s.writers[w]
            && (r in s'.readers ==> w in s'.readers[r].seen)
  {
  }

  /** What an operation that went through left: an Insert its own link, under a code that was free; a Revoke the link
      that was there, at the same target, revoked at its moment. */
  ghost predicate Left(base: map<Code, Link>, before: seq<Commit>, code: Code, op: Op, link: Link) {
    var held := Content(base, before, code);
    match op
    case Insert(l) => code != "" && held == None && link == l
    case Revoke(at) => held.Some? && link.target == held.value.target && link.revokedAt == Some(at)
  }

  /** The database holds the link of the last commit of the code, and what it held at the start if there is none. */
  lemma {:induction false} ContentIs(base: map<Code, Link>, commits: seq<Commit>, code: Code)
    ensures (forall n :: 0 <= n < |commits| ==> commits[n].code != code) ==>
      (Content(base, commits, code).Some? <==> code in base) &&
      (code in base ==> Content(base, commits, code) == Some(base[code]))
    ensures forall n :: LastOf(commits, code, n) ==> Content(base, commits, code) == Some(commits[n].link)
  {
    if commits != [] {
      var k := |commits| - 1;
      ContentIs(base, commits[..k], code);
      forall n | LastOf(commits, code, n) ensures Content(base, commits, code) == Some(commits[n].link) {
        if n < k {
          assert commits[k].code != code;
          assert LastOf(commits[..k], code, n);
        }
      }
    }
  }

  ghost predicate LastOf(commits: seq<Commit>, code: Code, n: int) {
    0 <= n < |commits| && commits[n].code == code && forall m :: n < m < |commits| ==> commits[m].code != code
  }

  /** An Insert goes through exactly when its code is free and not empty, a Revoke exactly when there is a link. */
  lemma CommitsIff(base: map<Code, Link>, s: State, w: Pid)
    requires w in s.writers && s.writers[w].Writing?
    ensures var held, writer := Content(base, s.commits, s.writers[w].code), s.writers[w];
      Can(base, s, CommitWrite(w)) <==>
      match writer.op
      case Insert(_) => writer.code != "" && held == None
      case Revoke(_) => held.Some?
  {
  }

  /** The write a writer returned for is the commit at its version: what its own operation made of the database as it
      was just before, and no other writer's. */
  ghost predicate Recorded(base: map<Code, Link>, s: State, w: Pid, link: Link)
    requires w in s.writers && s.writers[w].Returned?
  {
    var writer := s.writers[w];
    && 1 <= writer.version <= |s.commits| && s.commits[writer.version-1] == Commit(writer.code, link)
    && Left(base, s.commits[..writer.version-1], writer.code, writer.op, link)
    && forall v :: v in s.writers && v != w && Wrote(s.writers[v]) ==> s.writers[v].version != writer.version
  }

  lemma ReturnedIsRecorded(base: map<Code, Link>, states: seq<State>, steps: seq<Step>, i: nat, w: Pid)
    returns (link: Link)
    requires Run(base, states, steps) && i < |states| && w in states[i].writers && states[i].writers[w].Returned?
    ensures Recorded(base, states[i], w, link)
    ensures Content(base, states[i].commits[..states[i].writers[w].version], states[i].writers[w].code) == Some(link)
  {
    RunKeepsInv(base, states, steps, i);
    var s, writer := states[i], states[i].writers[w];
    assert WriterOk(base, s.commits, writer);
    link := s.commits[writer.version-1].link;
    hide Run, ReadersOk, EntriesOk;
    assert Wrote(writer);
  }

  /** Once Insert or Revoke has returned, no ByCode begun later answers from before that write: its answer is the
      database's content for the code at some point no earlier than the write, and the link that write left if nobody
      wrote the code in between. */
  lemma ReadsSeeReturnedWrites(base: map<Code, Link>, states: seq<State>, steps: seq<Step>, i: nat, j: nat, w: Pid,
                               r: Pid)
    returns (link: Link)
    requires Run(base, states, steps) && i <= j < |states|
    requires w in states[i].writers && states[i].writers[w].Returned? && r !in states[i].readers
    requires r in states[j].readers && states[j].readers[r].Answered?
        && states[j].readers[r].code == states[i].writers[w].code
    ensures w in states[j].writers && states[j].writers[w] == states[i].writers[w] && Recorded(base, states[j], w, link)
    ensures var answer, commits := states[j].readers[r], states[j].commits;
      && states[i].writers[w].version <= answer.version <= |commits|
      && answer.value == Content(base, commits[..answer.version], answer.code)
      && ((forall n :: states[i].writers[w].version <= n < answer.version ==> commits[n].code != answer.code) ==>
            answer.value == Some(link))
  {
    LaterReadersSee(base, states, steps, i, j, w, r);
    link := ReturnedIsRecorded(base, states, steps, j, w);
    RunKeepsInv(base, states, steps, j);
    var s := states[j];
    var answer, from := s.readers[r], s.writers[w].version;
    assert ReaderOk(base, s.commits, s.cache.gen, s.writers, answer);
    hide Run, Inv, Content, Outcome, Recorded;
    if forall n :: from <= n < answer.version ==> s.commits[n].code != answer.code {
      Unchanged(base, s.commits[..answer.version], answer.code, from);
      assert s.commits[..answer.version][..from] == s.commits[..from];
    }
  }
}
