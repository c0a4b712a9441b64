/**
 The disk vault under concurrency and crashes. Threads interleave at the granularity of the system
 calls: take the per-id lock, read the record, create, fill and rename the temporary file, remove it,
 unlock. A crash stops every thread at any point and keeps the files.

 The directory is modelled as two maps, record files by id and temporary files by id and number;
 `DiskVault.NamesDistinct` shows that their file names never collide.
 */
module DiskProtocol {
  import opened DiskVault
  import opened Rfc3339
  import opened Text
  import opened VaultProofs
  import opened VaultSpec
  import opened Wrappers

  type Tid = nat
  /** A temporary file: the package it is for and the random number in its name. */
  datatype Temp = Temp(id: string, number: nat)

  /** A call in progress: its operation, and how many operations had taken effect when it was made. */
  datatype Job = Job(op: Op, since: nat)

  /** What a call decided to write after reading its record. */
  datatype Change = Change(now: Instant, pkg: Package, reply: Reply)

  /** Where a thread stands; a ticket numbers the lock acquisitions. */
  datatype Phase =
    | Idle
    | Blocked(job: Job)
    | Reading(job: Job, ticket: nat)
    | Creating(job: Job, ticket: nat, change: Change)
    | Filling(job: Job, ticket: nat, change: Change, number: nat)
    | Renaming(job: Job, ticket: nat, change: Change, number: nat)
    | Removing(job: Job, ticket: nat, reply: Reply, at: Option<nat>, number: nat)
    | Leaving(job: Job, ticket: nat, reply: Reply, at: Option<nat>)
    | Returned(job: Job, reply: Reply, at: Option<nat>)

  /** An operation taking effect: at the read when it writes nothing, at the rename otherwise. */
  datatype Event = Event(tid: Tid, op: Op, now: Instant, reply: Reply, ticket: nat)

  datatype State = State(
    records: map<string, FileContent>,
    temps: map<Temp, FileContent>,
    locks: map<string, Option<Tid>>,
    threads: map<Tid, Phase>,
    tickets: nat,
    history: seq<Event>,
    renames: seq<Call>)

  datatype Step =
    | Invoke(tid: Tid, op: Op)
    | Acquire(tid: Tid)
    | Read(tid: Tid, now: Instant)
    | ReadError(tid: Tid)
    | CreateTemp(tid: Tid, number: nat)
    | CreateError(tid: Tid)
    | WriteTemp(tid: Tid)
    | WriteError(tid: Tid)
    | Rename(tid: Tid)
    | RenameError(tid: Tid)
    | RemoveTemp(tid: Tid, removed: bool)
    | Unlock(tid: Tid)
    | Crash

  function PhaseOf(s: State, t: Tid): Phase {
    if t in s.threads then s.threads[t] else Idle
  }

  predicate HasLock(p: Phase) {
    !p.Idle? && !p.Blocked? && !p.Returned?
  }

  function JobTarget(p: Phase): string
    requires !p.Idle?
  {
    Target(p.job.op)
  }

  predicate Enabled(s: State, step: Step) {
    match step
    case Invoke(t, _) => PhaseOf(s, t).Idle? || PhaseOf(s, t).Returned?
    case Acquire(t) =>
      var p := PhaseOf(s, t);
      p.Blocked? && JobTarget(p) in s.locks && s.locks[JobTarget(p)] == None
    case Read(t, _) =>
      var p := PhaseOf(s, t);
      p.Reading? && (JobTarget(p) in s.records ==> s.records[JobTarget(p)].Record?)
    case ReadError(t) => PhaseOf(s, t).Reading?
    case CreateTemp(t, n) => PhaseOf(s, t).Creating? && Temp(JobTarget(PhaseOf(s, t)), n) !in s.temps
    case CreateError(t) => PhaseOf(s, t).Creating?
    case WriteTemp(t) => PhaseOf(s, t).Filling?
    case WriteError(t) => PhaseOf(s, t).Filling?
    case Rename(t) => PhaseOf(s, t).Renaming? && Temp(JobTarget(PhaseOf(s, t)), PhaseOf(s, t).number) in s.temps
    case RenameError(t) => PhaseOf(s, t).Renaming?
    case RemoveTemp(t, _) => PhaseOf(s, t).Removing?
    case Unlock(t) => PhaseOf(s, t).Leaving?
    case Crash => true
  }

  function SetPhase(s: State, t: Tid, p: Phase): State {
    s.(threads := s.threads[t := p])
  }

  function Happen(s: State, e: Event): State {
    s.(history := s.history + [e])
  }

  /** A call with an id no file can have is over at once. */
  function Rejected(s: State, t: Tid, op: Op): State {
    SetPhase(Happen(s, Event(t, op, 0, Failed(InvalidID), 0)), t,
             Returned(Job(op, |s.history|), Failed(InvalidID), Some(|s.history|)))
  }

  /** Any other call looks up the mutex of its id, which is created on first use. */
  function Queued(s: State, t: Tid, op: Op): State {
    var locks := if Target(op) in s.locks then s.locks else s.locks[Target(op) := None];
    SetPhase(s.(locks := locks), t, Blocked(Job(op, |s.history|)))
  }

  function Invoked(s: State, t: Tid, op: Op): State {
    if ValidId(Target(op)) then Queued(s, t, op) else Rejected(s, t, op)
  }

  /** What the operation does to the record file as it is now. */
  function EffectOn(s: State, op: Op, now: Instant): Effect
    requires Target(op) in s.records ==> s.records[Target(op)].Record?
  {
    DiskEffect(op, now, if Target(op) in s.records then Some(s.records[Target(op)].pkg) else None)
  }

  /** After the read a thread knows what to write, or its operation is over. */
  function Decided(s: State, t: Tid, now: Instant): State
    requires Enabled(s, Read(t, now))
  {
    var p := PhaseOf(s, t);
    var effect := EffectOn(s, p.job.op, now);
    match effect.write
    case Some(pkg) => SetPhase(s, t, Creating(p.job, p.ticket, Change(now, pkg, effect.reply)))
    case None =>
      SetPhase(Happen(s, Event(t, p.job.op, now, effect.reply, p.ticket)), t,
               Leaving(p.job, p.ticket, effect.reply, Some(|s.history|)))
  }

  /** The temporary file takes the place of the record file in one step. */
  function Renamed(s: State, t: Tid): State
    requires Enabled(s, Rename(t))
  {
    var p := PhaseOf(s, t);
    var temp := Temp(JobTarget(p), p.number);
    var renamed := s.(
      records := s.records[JobTarget(p) := s.temps[temp]],
      temps := s.temps - {temp},
      renames := s.renames + [Call(p.job.op, p.change.now)]);
    SetPhase(Happen(renamed, Event(t, p.job.op, p.change.now, p.change.reply, p.ticket)), t,
             Removing(p.job, p.ticket, p.change.reply, Some(|s.history|), p.number))
  }

  function Execute(s: State, step: Step): State
    requires Enabled(s, step)
  {
    match step
    case Invoke(t, op) => Invoked(s, t, op)
    case Acquire(t) =>
      var job := PhaseOf(s, t).job;
      SetPhase(s.(locks := s.locks[Target(job.op) := Some(t)], tickets := s.tickets + 1), t, Reading(job, s.tickets))
    case Read(t, now) => Decided(s, t, now)
    case ReadError(t) =>
      var p := PhaseOf(s, t);
      SetPhase(s, t, Leaving(p.job, p.ticket, Failed(IoFailure), None))
    case CreateTemp(t, n) =>
      var p := PhaseOf(s, t);
      SetPhase(s.(temps := s.temps[Temp(JobTarget(p), n) := Partial]), t, Filling(p.job, p.ticket, p.change, n))
    case CreateError(t) =>
      var p := PhaseOf(s, t);
      SetPhase(s, t, Leaving(p.job, p.ticket, Failed(IoFailure), None))
    case WriteTemp(t) =>
      var p := PhaseOf(s, t);
      SetPhase(s.(temps := s.temps[Temp(JobTarget(p), p.number) := Record(p.change.pkg)]), t,
               Renaming(p.job, p.ticket, p.change, p.number))
    case WriteError(t) =>
      var p := PhaseOf(s, t);
      SetPhase(s, t, Removing(p.job, p.ticket, Failed(IoFailure), None, p.number))
    case Rename(t) => Renamed(s, t)
    case RenameError(t) =>
      var p := PhaseOf(s, t);
      SetPhase(s, t, Removing(p.job, p.ticket, Failed(IoFailure), None, p.number))
    case RemoveTemp(t, removed) =>
      var p := PhaseOf(s, t);
      var temps := if removed then s.temps - {Temp(JobTarget(p), p.number)} else s.temps;
      SetPhase(s.(temps := temps), t, Leaving(p.job, p.ticket, p.reply, p.at))
    case Unlock(t) =>
      var p := PhaseOf(s, t);
      SetPhase(s.(locks := s.locks[JobTarget(p) := None]), t, Returned(p.job, p.reply, p.at))
    case Crash => s.(locks := map[], threads := map[])
  }

  // ----- invariant -----

  predicate Complete(records: map<string, FileContent>) {
    forall id :: id in records ==> records[id].Record?
  }

  function Packages(records: map<string, FileContent>): Contents
    requires Complete(records)
  {
    map id | id in records :: records[id].pkg
  }

  function CallsOf(history: seq<Event>): seq<Call> {
    seq(|history|, i requires 0 <= i < |history| => Call(history[i].op, history[i].now))
  }

  function RepliesOf(history: seq<Event>): seq<Reply> {
    seq(|history|, i requires 0 <= i < |history| => history[i].reply)
  }

  /** The change a thread is about to commit is what the operation does to the record as it is now. */
  predicate UpToDate(s: State, job: Job, change: Change)
    requires Complete(s.records)
  {
    EffectOn(s, job.op, change.now) == Effect(Some(change.pkg), change.reply)
  }

  /** Everything that happened to this id happened under an earlier lock acquisition. */
  predicate Latest(s: State, id: string, ticket: nat) {
    && ticket < s.tickets
    && forall i :: 0 <= i < |s.history| && Target(s.history[i].op) == id ==> s.history[i].ticket < ticket
  }

  /** A call that took effect did so between its invocation and now, with the reply it gives. */
  predicate Answered(s: State, t: Tid, job: Job, reply: Reply, at: Option<nat>) {
    match at
    case None => reply == Failed(IoFailure)
    case Some(i) =>
      && job.since <= i < |s.history|
      && s.history[i].tid == t && s.history[i].op == job.op && s.history[i].reply == reply
  }

  predicate ThreadOk(s: State, t: Tid, p: Phase)
    requires Complete(s.records)
  {
    match p
    case Idle => true
    case Blocked(job) => ValidId(Target(job.op)) && Target(job.op) in s.locks && job.since <= |s.history|
    case Reading(job, k) => Holds(s, t, job) && Latest(s, Target(job.op), k)
    case Creating(job, k, c) => Holds(s, t, job) && Latest(s, Target(job.op), k) && UpToDate(s, job, c)
    case Filling(job, k, c, n) =>
      Holds(s, t, job) && Latest(s, Target(job.op), k) && UpToDate(s, job, c) && Temp(Target(job.op), n) in s.temps
    case Renaming(job, k, c, n) =>
      && Holds(s, t, job) && Latest(s, Target(job.op), k) && UpToDate(s, job, c)
      && Temp(Target(job.op), n) in s.temps && s.temps[Temp(Target(job.op), n)] == Record(c.pkg)
    case Removing(job, _, reply, at, _) => Holds(s, t, job) && Answered(s, t, job, reply, at)
    case Leaving(job, _, reply, at) => Holds(s, t, job) && Answered(s, t, job, reply, at)
    case Returned(job, reply, at) => Answered(s, t, job, reply, at)
  }

  predicate Holds(s: State, t: Tid, job: Job) {
    var id := Target(job.op);
    ValidId(id) && id in s.locks && s.locks[id] == Some(t) && job.since <= |s.history|
  }

  predicate ThreadsOk(s: State)
    requires Complete(s.records)
  {
    forall t :: t in s.threads ==> ThreadOk(s, t, s.threads[t])
  }

  predicate LocksOwned(s: State) {
    forall id :: id in s.locks && s.locks[id].Some? ==>
      HasLock(PhaseOf(s, s.locks[id].value)) && JobTarget(PhaseOf(s, s.locks[id].value)) == id
  }

  /** Operations on one package take effect in the order in which they took its lock. */
  predicate LockOrder(s: State) {
    forall i, j :: 0 <= i < j < |s.history|
      && ValidId(Target(s.history[i].op)) && Target(s.history[i].op) == Target(s.history[j].op)
      ==> s.history[i].ticket < s.history[j].ticket
  }

  predicate TicketsIssued(s: State) {
    forall i :: 0 <= i < |s.history| && ValidId(Target(s.history[i].op)) ==> s.history[i].ticket < s.tickets
  }

  /** The record files are what the operations that took effect make of the initial contents, one after the other. */
  predicate Explained(c0: Contents, s: State)
    requires Complete(s.records)
  {
    && DiskRun(c0, CallsOf(s.history)) == (Packages(s.records), RepliesOf(s.history))
    && DiskRun(c0, s.renames).0 == Packages(s.records)
    && s.renames == Writers(c0, CallsOf(s.history))
  }

  /** The operation finds something to write in these contents. */
  predicate Writes(c: Contents, call: Call) {
    ValidId(Target(call.op)) && DiskEffect(call.op, call.now, Lookup(c, Target(call.op))).write.Some?
  }

  /** The calls of a sequential run that write, in order. */
  function Writers(c: Contents, calls: seq<Call>): seq<Call>
    decreases |calls|
  {
    if calls == [] then []
    else
      (if Writes(c, calls[0]) then [calls[0]] else [])
      + Writers(DiskApply(c, calls[0].op, calls[0].now).0, calls[1..])
  }

  predicate Inv(c0: Contents, s: State) {
    Complete(s.records) && Keyed(Packages(s.records)) && ThreadsOk(s) && LocksOwned(s) && LockOrder(s) && TicketsIssued(s) && Explained(c0, s)
  }

  /** A freshly started process over complete record files; temporary files may be left from an earlier crash. */
  predicate Init(c0: Contents, s: State) {
    && Complete(s.records) && Packages(s.records) == c0 && Keyed(c0)
    && s.locks == map[] && s.threads == map[] && s.history == [] && s.renames == []
  }

  // ----- every step keeps the invariant -----

  lemma {:induction false} RunAppend(c: Contents, calls: seq<Call>, call: Call)
    ensures var (d, replies) := DiskRun(c, calls);
      var (e, r) := DiskApply(d, call.op, call.now);
      DiskRun(c, calls + [call]) == (e, replies + [r])
    decreases |calls|
  {
    hide DiskApply;
    if calls == [] {
      assert calls + [call] == [call] && [call][1..] == [];
      assert [DiskApply(c, call.op, call.now).1] + [] == [] + [DiskApply(c, call.op, call.now).1];
    } else {
      assert (calls + [call])[1..] == calls[1..] + [call];
      var (c1, r) := DiskApply(c, calls[0].op, calls[0].now);
      RunAppend(c1, calls[1..], call);
      var (d, replies) := DiskRun(c1, calls[1..]);
      Regroup([r], replies, [DiskApply(d, call.op, call.now).1]);
    }
  }

  lemma {:induction false} WritersAppend(c: Contents, calls: seq<Call>, call: Call)
    ensures Writers(c, calls + [call]) ==
      Writers(c, calls) + if Writes(DiskRun(c, calls).0, call) then [call] else []
    decreases |calls|
  {
    hide DiskApply, Writes;
    if calls == [] {
      assert calls + [call] == [call] && [call][1..] == [];
    } else {
      assert (calls + [call])[1..] == calls[1..] + [call];
      var c1 := DiskApply(c, calls[0].op, calls[0].now).0;
      WritersAppend(c1, calls[1..], call);
      Regroup(if Writes(c, calls[0]) then [calls[0]] else [], Writers(c1, calls[1..]),
              if Writes(DiskRun(c, calls).0, call) then [call] else []);
    }
  }

  lemma HistoryAppend(history: seq<Event>, e: Event)
    ensures CallsOf(history + [e]) == CallsOf(history) + [Call(e.op, e.now)]
    ensures RepliesOf(history + [e]) == RepliesOf(history) + [e.reply]
  {
  }

  /** Between two states only thread t and the files and lock of one package changed. */
  ghost predicate Undisturbed(s: State, s': State, t: Tid, id: string) {
    && (forall u :: u != t ==> PhaseOf(s', u) == PhaseOf(s, u))
    && (forall k :: k in s.locks ==> k in s'.locks)
    && (forall k :: k != id && k in s.locks ==> s'.locks[k] == s.locks[k])
    && (forall k :: k in s.temps && k.id != id ==> k in s'.temps && s'.temps[k] == s.temps[k])
    && (forall k :: k != id ==> (k in s'.records <==> k in s.records) && (k in s.records ==> s'.records[k] == s.records[k]))
    && s.tickets <= s'.tickets
    && s.history <= s'.history
    && (forall i :: |s.history| <= i < |s'.history| ==> Target(s'.history[i].op) == id)
  }

  lemma OtherThread(s: State, s': State, t: Tid, id: string, u: Tid, p: Phase)
    requires Complete(s.records) && Complete(s'.records)
    requires Undisturbed(s, s', t, id)
    requires u != t && ThreadOk(s, u, p)
    requires HasLock(p) ==> JobTarget(p) != id
    ensures ThreadOk(s', u, p)
  {
    hide DiskEffect, ValidId;
    if HasLock(p) {
      assert Lookup(Packages(s'.records), JobTarget(p)) == Lookup(Packages(s.records), JobTarget(p));
    }
  }

  /** While t holds the lock of a package, or nobody does, no other thread is working on it. */
  lemma OtherThreads(s: State, s': State, t: Tid, id: string)
    requires Complete(s.records) && Complete(s'.records) && ThreadsOk(s)
    requires Undisturbed(s, s', t, id)
    requires ValidId(id) ==> id in s.locks && s.locks[id] in {None, Some(t)}
    requires t in s'.threads ==> ThreadOk(s', t, s'.threads[t])
    ensures ThreadsOk(s')
  {
    hide ValidId, ThreadOk;
    forall u | u in s'.threads
      ensures ThreadOk(s', u, s'.threads[u])
    {
      if u != t {
        assert PhaseOf(s', u) == PhaseOf(s, u);
        if u in s.threads {
          if HasLock(s.threads[u]) {
            HolderOwnsLock(s, u, s.threads[u]);
          }
          OtherThread(s, s', t, id, u, s.threads[u]);
        } else {
          IdleOk(s', u);
        }
      }
    }
  }

  lemma HolderOwnsLock(s: State, t: Tid, p: Phase)
    requires Complete(s.records) && ThreadOk(s, t, p) && HasLock(p)
    ensures Holds(s, t, p.job)
  {
  }

  lemma IdleOk(s: State, t: Tid)
    requires Complete(s.records)
    ensures ThreadOk(s, t, Idle)
  {
  }

  /** A step of the lock holder that changes only its own phase and temporary files. */
  lemma PrivateStep(c0: Contents, s: State, s': State, t: Tid, p: Phase)
    requires Inv(c0, s) && t in s.threads && HasLock(s.threads[t]) && HasLock(p) && p.job == s.threads[t].job
    requires s' == s.(temps := s'.temps, threads := s.threads[t := p])
    requires forall k :: k in s.temps && k.id != Target(p.job.op) ==> k in s'.temps && s'.temps[k] == s.temps[k]
    requires ThreadOk(s', t, p)
    ensures Inv(c0, s')
  {
    hide ThreadOk, ValidId;
    HolderOwnsLock(s, t, s.threads[t]);
    OtherThreads(s, s', t, Target(p.job.op));
  }

  lemma OwnPhase(c0: Contents, s: State, t: Tid)
    requires Inv(c0, s)
    ensures PhaseOf(s, t) != Idle ==> t in s.threads && ThreadOk(s, t, s.threads[t])
  {
    hide ThreadOk;
  }

  lemma StepPrivate(c0: Contents, s: State, step: Step)
    requires Inv(c0, s) && Enabled(s, step)
    requires step.ReadError? || step.CreateTemp? || step.CreateError? || step.WriteTemp? || step.WriteError?
      || step.RenameError? || step.RemoveTemp?
    ensures Inv(c0, Execute(s, step))
  {
    var s', t := Execute(s, step), step.tid;
    OwnPhase(c0, s, t);
    StepPrivateThread(s, step);
    StepPrivateShape(s, step);
    hide ThreadOk, ThreadsOk, LocksOwned, LockOrder, TicketsIssued, Explained, Keyed, Enabled, Execute;
    PrivateStep(c0, s, s', t, s'.threads[t]);
  }

  lemma StepPrivateThread(s: State, step: Step)
    requires Complete(s.records) && Enabled(s, step)
    requires step.ReadError? || step.CreateTemp? || step.CreateError? || step.WriteTemp? || step.WriteError?
      || step.RenameError? || step.RemoveTemp?
    requires step.tid in s.threads && ThreadOk(s, step.tid, s.threads[step.tid])
    ensures var s' := Execute(s, step);
      step.tid in s'.threads && ThreadOk(s', step.tid, s'.threads[step.tid])
  {
    hide ValidId, DiskEffect;
  }

  lemma StepPrivateShape(s: State, step: Step)
    requires Enabled(s, step)
    requires step.ReadError? || step.CreateTemp? || step.CreateError? || step.WriteTemp? || step.WriteError?
      || step.RenameError? || step.RemoveTemp?
    ensures var s', t := Execute(s, step), step.tid;
      && t in s.threads && t in s'.threads && HasLock(s.threads[t]) && HasLock(s'.threads[t])
      && s'.threads[t].job == s.threads[t].job
      && s' == s.(temps := s'.temps, threads := s.threads[t := s'.threads[t]])
      && forall k :: k in s.temps && k.id != Target(s'.threads[t].job.op) ==> k in s'.temps && s'.temps[k] == s.temps[k]
  {
  }

  /** An event under the newest lock acquisition of its package keeps the history in lock order. */
  lemma EventOrder(s: State, s': State, e: Event)
    requires LockOrder(s) && TicketsIssued(s)
    requires s'.history == s.history + [e] && s'.tickets == s.tickets
    requires ValidId(Target(e.op)) ==> Latest(s, Target(e.op), e.ticket)
    ensures LockOrder(s') && TicketsIssued(s')
  {
    hide ValidId;
    forall i, j | 0 <= i < j < |s'.history|
      && ValidId(Target(s'.history[i].op)) && Target(s'.history[i].op) == Target(s'.history[j].op)
      ensures s'.history[i].ticket < s'.history[j].ticket
    {
      assert s'.history[i] == s.history[i];
    }
  }

  /** A holder that keeps its lock keeps every lock accounted for. */
  lemma StillOwned(s: State, s': State, t: Tid)
    requires LocksOwned(s) && s'.locks == s.locks
    requires forall u :: u != t ==> PhaseOf(s', u) == PhaseOf(s, u)
    requires HasLock(PhaseOf(s, t)) && HasLock(PhaseOf(s', t)) && PhaseOf(s', t).job == PhaseOf(s, t).job
    ensures LocksOwned(s')
  {
  }

  lemma SameExplained(c0: Contents, s: State, s': State)
    requires Complete(s.records) && Explained(c0, s)
    requires s'.records == s.records && s'.history == s.history && s'.renames == s.renames
    ensures Explained(c0, s')
  {
  }

  /** An operation that writes nothing takes effect: the history grows and still explains the files. */
  lemma EventExplained(c0: Contents, s: State, s': State, e: Event)
    requires Complete(s.records) && Explained(c0, s)
    requires DiskApply(Packages(s.records), e.op, e.now) == (Packages(s.records), e.reply)
    requires !Writes(Packages(s.records), Call(e.op, e.now))
    requires s'.records == s.records && s'.history == s.history + [e] && s'.renames == s.renames
    ensures Explained(c0, s')
  {
    hide DiskApply, Writes;
    HistoryAppend(s.history, e);
    WritersAppend(c0, CallsOf(s.history), Call(e.op, e.now));
    RunAppend(c0, CallsOf(s.history), Call(e.op, e.now));
  }

  /** What a thread computes from its record file is what the specification computes from the contents. */
  lemma EffectIsApply(s: State, op: Op, now: Instant)
    requires Complete(s.records) && ValidId(Target(op))
    ensures var c, e := Packages(s.records), EffectOn(s, op, now);
      && DiskApply(c, op, now) == (Commits(c, Target(op), e), e.reply)
      && (Writes(c, Call(op, now)) <==> e.write.Some?)
  {
    hide ValidId, DiskEffect;
    assert Lookup(Packages(s.records), Target(op)) ==
      if Target(op) in s.records then Some(s.records[Target(op)].pkg) else None;
  }

  lemma RejectedId(c: Contents, op: Op)
    requires !ValidId(Target(op))
    ensures DiskApply(c, op, 0) == (c, Failed(InvalidID)) && !Writes(c, Call(op, 0))
  {
  }

  lemma EmptyIdInvalid()
    ensures !ValidId("")
  {
  }

  lemma QueuedThread(s: State, t: Tid, op: Op)
    requires Complete(s.records) && ValidId(Target(op))
    ensures var s' := Queued(s, t, op); ThreadOk(s', t, s'.threads[t]) && Undisturbed(s, s', t, "")
  {
    hide ValidId, DiskEffect;
  }

  lemma RejectedThread(s: State, t: Tid, op: Op)
    requires Complete(s.records)
    ensures var s' := Rejected(s, t, op); ThreadOk(s', t, s'.threads[t]) && Undisturbed(s, s', t, Target(op))
  {
    hide ValidId, DiskEffect;
  }

  lemma NoLockGone(s: State, s': State, t: Tid)
    requires LocksOwned(s)
    requires forall id :: id in s'.locks && s'.locks[id].Some? ==> id in s.locks && s'.locks[id] == s.locks[id]
    requires forall u :: u != t ==> PhaseOf(s', u) == PhaseOf(s, u)
    requires !HasLock(PhaseOf(s, t))
    ensures LocksOwned(s')
  {
  }

  lemma StepQueue(c0: Contents, s: State, t: Tid, op: Op)
    requires Inv(c0, s) && (PhaseOf(s, t).Idle? || PhaseOf(s, t).Returned?) && ValidId(Target(op))
    ensures Inv(c0, Queued(s, t, op))
  {
    var s' := Queued(s, t, op);
    QueuedThread(s, t, op);
    EmptyIdInvalid();
    NoLockGone(s, s', t);
    SameExplained(c0, s, s');
    hide ValidId, ThreadOk, Undisturbed, LocksOwned, Explained, Keyed;
    OtherThreads(s, s', t, "");
  }

  lemma StepReject(c0: Contents, s: State, t: Tid, op: Op)
    requires Inv(c0, s) && (PhaseOf(s, t).Idle? || PhaseOf(s, t).Returned?) && !ValidId(Target(op))
    ensures Inv(c0, Rejected(s, t, op))
  {
    var s' := Rejected(s, t, op);
    var e := Event(t, op, 0, Failed(InvalidID), 0);
    RejectedThread(s, t, op);
    NoLockGone(s, s', t);
    RejectedId(Packages(s.records), op);
    EventExplained(c0, s, s', e);
    EventOrder(s, s', e);
    hide ValidId, ThreadOk, Undisturbed, LocksOwned, Explained, Keyed, LockOrder, TicketsIssued;
    OtherThreads(s, s', t, Target(op));
  }

  lemma StepAcquire(c0: Contents, s: State, t: Tid)
    requires Inv(c0, s) && Enabled(s, Acquire(t))
    ensures Inv(c0, Execute(s, Acquire(t)))
  {
    var s' := Execute(s, Acquire(t));
    OwnPhase(c0, s, t);
    AcquiredThread(s, t);
    AcquiredLock(s, t);
    SameExplained(c0, s, s');
    hide ValidId, ThreadOk, Explained, LockOrder, Undisturbed, LocksOwned, Keyed;
    OtherThreads(s, s', t, JobTarget(PhaseOf(s, t)));
  }

  lemma AcquiredThread(s: State, t: Tid)
    requires Complete(s.records) && TicketsIssued(s) && Enabled(s, Acquire(t)) && ThreadOk(s, t, PhaseOf(s, t))
    ensures var s' := Execute(s, Acquire(t));
      ThreadOk(s', t, s'.threads[t]) && Undisturbed(s, s', t, JobTarget(PhaseOf(s, t))) && TicketsIssued(s')
  {
    hide ValidId, DiskEffect;
  }

  lemma AcquiredLock(s: State, t: Tid)
    requires LocksOwned(s) && Enabled(s, Acquire(t))
    ensures LocksOwned(Execute(s, Acquire(t)))
  {
  }

  lemma DecidedThread(s: State, t: Tid, now: Instant)
    requires Complete(s.records) && Enabled(s, Read(t, now)) && ThreadOk(s, t, PhaseOf(s, t))
    ensures var s' := Decided(s, t, now);
      ThreadOk(s', t, s'.threads[t]) && Undisturbed(s, s', t, JobTarget(PhaseOf(s, t)))
  {
    hide ValidId, DiskEffect;
  }

  lemma DecidedExplained(c0: Contents, s: State, t: Tid, now: Instant)
    requires Complete(s.records) && Explained(c0, s) && LockOrder(s) && TicketsIssued(s)
    requires Enabled(s, Read(t, now)) && ThreadOk(s, t, PhaseOf(s, t))
    ensures var s' := Decided(s, t, now); Explained(c0, s') && LockOrder(s') && TicketsIssued(s')
  {
    hide ValidId, DiskEffect;
    var s', p := Decided(s, t, now), PhaseOf(s, t);
    var effect := EffectOn(s, p.job.op, now);
    EffectIsApply(s, p.job.op, now);
    if effect.write.None? {
      var e := Event(t, p.job.op, now, effect.reply, p.ticket);
      EventExplained(c0, s, s', e);
      EventOrder(s, s', e);
    }
  }

  lemma StepRead(c0: Contents, s: State, t: Tid, now: Instant)
    requires Inv(c0, s) && Enabled(s, Read(t, now))
    ensures Inv(c0, Decided(s, t, now))
  {
    var s', p := Decided(s, t, now), PhaseOf(s, t);
    OwnPhase(c0, s, t);
    DecidedThread(s, t, now);
    DecidedExplained(c0, s, t, now);
    HolderOwnsLock(s, t, p);
    hide ValidId, ThreadOk, Explained, LockOrder, TicketsIssued, EffectOn, Undisturbed, LocksOwned;
    OtherThreads(s, s', t, JobTarget(p));
    StillOwned(s, s', t);
  }

  lemma RenamedThread(s: State, t: Tid)
    requires Complete(s.records) && Enabled(s, Rename(t)) && ThreadOk(s, t, PhaseOf(s, t))
    ensures var s' := Renamed(s, t);
      Complete(s'.records) && ThreadOk(s', t, s'.threads[t]) && Undisturbed(s, s', t, JobTarget(PhaseOf(s, t)))
  {
    hide ValidId, DiskEffect;
  }

  /** A record is always written under the id it carries. */
  lemma WrittenId(s: State, op: Op, now: Instant)
    requires Complete(s.records) && Keyed(Packages(s.records))
    ensures var w := EffectOn(s, op, now).write; w.Some? ==> w.value.id == Target(op)
  {
    hide EncodablePackage, ValidId;
    assert Target(op) in s.records ==> Packages(s.records)[Target(op)] == s.records[Target(op)].pkg;
  }

  lemma RenamedExplained(c0: Contents, s: State, t: Tid)
    requires Complete(s.records) && Keyed(Packages(s.records)) && Explained(c0, s) && LockOrder(s) && TicketsIssued(s)
    requires Enabled(s, Rename(t)) && ThreadOk(s, t, PhaseOf(s, t))
    ensures var s' := Renamed(s, t);
      Complete(s'.records) && Keyed(Packages(s'.records)) && Explained(c0, s') && LockOrder(s') && TicketsIssued(s')
  {
    hide ValidId, DiskEffect;
    var s', p := Renamed(s, t), PhaseOf(s, t);
    var c := Packages(s.records);
    WrittenId(s, p.job.op, p.change.now);
    EffectIsApply(s, p.job.op, p.change.now);
    assert Packages(s'.records) == c[JobTarget(p) := p.change.pkg];
    var e := s'.history[|s.history|];
    EventOrder(s, s', e);
    RenameReplays(c0, s, s', e);
  }

  lemma RenameReplays(c0: Contents, s: State, s': State, e: Event)
    requires Complete(s.records) && Complete(s'.records) && Explained(c0, s)
    requires s'.history == s.history + [e] && s'.renames == s.renames + [Call(e.op, e.now)]
    requires DiskApply(Packages(s.records), e.op, e.now) == (Packages(s'.records), e.reply)
    requires Writes(Packages(s.records), Call(e.op, e.now))
    ensures Explained(c0, s')
  {
    hide DiskApply, Packages, Writes;
    WritersAppend(c0, CallsOf(s.history), Call(e.op, e.now));
    HistoryAppend(s.history, e);
    RunAppend(c0, CallsOf(s.history), Call(e.op, e.now));
    RunAppend(c0, s.renames, Call(e.op, e.now));
  }

  lemma StepRename(c0: Contents, s: State, t: Tid)
    requires Inv(c0, s) && Enabled(s, Rename(t))
    ensures Inv(c0, Renamed(s, t))
  {
    var s', p := Renamed(s, t), PhaseOf(s, t);
    OwnPhase(c0, s, t);
    RenamedThread(s, t);
    RenamedExplained(c0, s, t);
    HolderOwnsLock(s, t, p);
    hide ValidId, ThreadOk, Explained, LockOrder, TicketsIssued, EffectOn, Undisturbed, LocksOwned, Keyed;
    OtherThreads(s, s', t, JobTarget(p));
    StillOwned(s, s', t);
  }

  lemma StepUnlock(c0: Contents, s: State, t: Tid)
    requires Inv(c0, s) && Enabled(s, Unlock(t))
    ensures Inv(c0, Execute(s, Unlock(t)))
  {
    var s' := Execute(s, Unlock(t));
    OwnPhase(c0, s, t);
    ReleasedThread(s, t);
    ReleasedLock(s, t);
    HolderOwnsLock(s, t, PhaseOf(s, t));
    SameExplained(c0, s, s');
    hide ValidId, ThreadOk, Explained, LockOrder, TicketsIssued, Undisturbed, LocksOwned, Keyed;
    OtherThreads(s, s', t, JobTarget(PhaseOf(s, t)));
  }

  lemma ReleasedThread(s: State, t: Tid)
    requires Complete(s.records) && Enabled(s, Unlock(t)) && ThreadOk(s, t, PhaseOf(s, t))
    ensures var s' := Execute(s, Unlock(t));
      ThreadOk(s', t, s'.threads[t]) && Undisturbed(s, s', t, JobTarget(PhaseOf(s, t)))
  {
    hide ValidId, DiskEffect;
  }

  lemma ReleasedLock(s: State, t: Tid)
    requires LocksOwned(s) && Enabled(s, Unlock(t))
    ensures LocksOwned(Execute(s, Unlock(t)))
  {
  }

  lemma StepInv(c0: Contents, s: State, step: Step)
    requires Inv(c0, s) && Enabled(s, step)
    ensures Inv(c0, Execute(s, step))
  {
    match step {
      case Invoke(t, op) => if ValidId(Target(op)) { StepQueue(c0, s, t, op); } else { StepReject(c0, s, t, op); }
      case Acquire(t) => StepAcquire(c0, s, t);
      case Read(t, now) => StepRead(c0, s, t, now);
      case Rename(t) => StepRename(c0, s, t);
      case Unlock(t) => StepUnlock(c0, s, t);
      case Crash => SameExplained(c0, s, Execute(s, step));
      case _ => StepPrivate(c0, s, step);
    }
  }

  // ----- every reachable state -----

  predicate Runs(s: State, steps: seq<Step>)
    decreases |steps|
  {
    steps == [] || (Enabled(s, steps[0]) && Runs(Execute(s, steps[0]), steps[1..]))
  }

  function After(s: State, steps: seq<Step>): State
    requires Runs(s, steps)
    decreases |steps|
  {
    if steps == [] then s else After(Execute(s, steps[0]), steps[1..])
  }

  lemma {:induction false} RunsPrefix(s: State, steps: seq<Step>, k: nat)
    requires Runs(s, steps) && k <= |steps|
    ensures Runs(s, steps[..k])
    ensures k < |steps| ==>
      Enabled(After(s, steps[..k]), steps[k]) && Runs(s, steps[..k + 1])
      && After(s, steps[..k + 1]) == Execute(After(s, steps[..k]), steps[k])
    decreases |steps|
  {
    hide Enabled, Execute;
    if k > 0 {
      assert steps[..k][1..] == steps[1..][..k - 1];
      RunsPrefix(Execute(s, steps[0]), steps[1..], k - 1);
      if k < |steps| {
        assert steps[..k + 1][1..] == steps[1..][..k];
      }
    } else if steps != [] {
      assert steps[..1][1..] == [];
    }
  }

  /** The state after the first k steps. */
  function At(s0: State, steps: seq<Step>, k: nat): State
    requires Runs(s0, steps) && k <= |steps|
  {
    RunsPrefix(s0, steps, k);
    After(s0, steps[..k])
  }

  /** The invariant holds after any interleaving of operations, failures of the system calls and crashes. */
  lemma {:induction false} Reachable(c0: Contents, s: State, steps: seq<Step>)
    requires Inv(c0, s) && Runs(s, steps)
    ensures Inv(c0, After(s, steps))
    decreases |steps|
  {
    hide Inv, Execute, Enabled;
    if steps != [] {
      StepInv(c0, s, steps[0]);
      Reachable(c0, Execute(s, steps[0]), steps[1..]);
    }
  }

  lemma InitInv(c0: Contents, s: State)
    requires Init(c0, s)
    ensures Inv(c0, s)
  {
    assert CallsOf(s.history) == [] && RepliesOf(s.history) == [];
  }

  /**
   The disk vault is linearizable across crashes. Started over complete record files and interleaved in
   any way: every record file is complete; the files are the sequential result of the operations that
   took effect, in an order that respects lock order on each package, and equally of just those whose
   rename ran, which are exactly those that had something to write; every recorded reply is the sequential one; and each finished call either failed in the
   operating system or took effect between its invocation and its return with exactly that reply.
   */
  lemma Linearizable(c0: Contents, s0: State, steps: seq<Step>)
    requires Init(c0, s0) && Runs(s0, steps)
    ensures var s := After(s0, steps);
      && Complete(s.records)
      && DiskRun(c0, CallsOf(s.history)) == (Packages(s.records), RepliesOf(s.history))
      && DiskRun(c0, s.renames).0 == Packages(s.records)
      && s.renames == Writers(c0, CallsOf(s.history))
      && LockOrder(s)
      && forall t :: t in s.threads && s.threads[t].Returned? ==>
           Answered(s, t, s.threads[t].job, s.threads[t].reply, s.threads[t].at)
  {
    InitInv(c0, s0);
    Reachable(c0, s0, steps);
  }

  /** Two threads inside the critical section are working on different packages. */
  lemma MutualExclusion(c0: Contents, s0: State, steps: seq<Step>, t: Tid, u: Tid)
    requires Init(c0, s0) && Runs(s0, steps) && t != u
    requires var s := After(s0, steps); HasLock(PhaseOf(s, t)) && HasLock(PhaseOf(s, u))
    ensures var s := After(s0, steps); JobTarget(PhaseOf(s, t)) != JobTarget(PhaseOf(s, u))
  {
    var s := After(s0, steps);
    InitInv(c0, s0);
    Reachable(c0, s0, steps);
    HolderOwnsLock(s, t, PhaseOf(s, t));
    HolderOwnsLock(s, u, PhaseOf(s, u));
  }

  /** In every reachable state the package logs are the initial logs plus one entry per effective call. */
  lemma NoAppendLost(c0: Contents, s0: State, steps: seq<Step>, id: string)
    requires Init(c0, s0) && Runs(s0, steps)
    ensures var s := After(s0, steps);
      && Complete(s.records)
      && |CallsOf(s.history)| == |RepliesOf(s.history)|
      && FactsAt(Packages(s.records), id) == FactsAt(c0, id) + Acknowledged(CallsOf(s.history), RepliesOf(s.history), id)
  {
    Linearizable(c0, s0, steps);
    LogIsAcknowledgedCalls(c0, CallsOf(After(s0, steps).history), id);
  }

  /** In every reachable state all packages are sound, if they started so and stores bring in fresh packages. */
  lemma SoundUnderConcurrency(c0: Contents, s0: State, steps: seq<Step>)
    requires Init(c0, s0) && Runs(s0, steps) && AllDiskSound(c0)
    requires AllFresh(CallsOf(After(s0, steps).history))
    ensures var s := After(s0, steps);
      Complete(s.records) && AllDiskSound(Packages(s.records)) && AllExtend(c0, Packages(s.records))
  {
    Linearizable(c0, s0, steps);
    DiskLifecycle(c0, CallsOf(After(s0, steps).history));
  }

  // ----- progress -----

  lemma UnusedNumber(temps: set<Temp>) returns (n: nat)
    ensures forall k :: k in temps ==> k.number < n
  {
    n := 0;
    var rest := temps;
    while rest != {}
      invariant rest <= temps
      invariant forall k :: k in temps && k !in rest ==> k.number < n
      decreases rest
    {
      var temp :| temp in rest;
      rest := rest - {temp};
      if temp.number >= n {
        n := temp.number + 1;
      }
    }
  }

  predicate Faulty(step: Step) {
    step.ReadError? || step.CreateError? || step.WriteError? || step.RenameError? || step.Crash?
  }

  /** Nobody waits forever on a stuck holder: whoever holds a lock has a next step that is not a failure. */
  lemma HolderCanProceed(c0: Contents, s: State, t: Tid) returns (step: Step)
    requires Inv(c0, s) && HasLock(PhaseOf(s, t))
    ensures !Faulty(step) && !step.Invoke? && step.tid == t && Enabled(s, step)
  {
    OwnPhase(c0, s, t);
    step := ThreadCanProceed(s, t);
  }

  lemma ThreadCanProceed(s: State, t: Tid) returns (step: Step)
    requires Complete(s.records) && ThreadOk(s, t, PhaseOf(s, t)) && HasLock(PhaseOf(s, t))
    ensures !Faulty(step) && !step.Invoke? && step.tid == t && Enabled(s, step)
  {
    hide DiskEffect, ValidId, EffectOn, UpToDate, Latest, Answered;
    match PhaseOf(s, t) {
      case Reading(_, _) => step := Read(t, 0);
      case Creating(_, _, _) =>
        var n := UnusedNumber(s.temps.Keys);
        step := CreateTemp(t, n);
      case Filling(_, _, _, _) => step := WriteTemp(t);
      case Renaming(_, _, _, _) => step := Rename(t);
      case Removing(_, _, _, _, _) => step := RemoveTemp(t, true);
      case Leaving(_, _, _, _) => step := Unlock(t);
    }
  }

  /** The most steps a lock holder still takes until it has unlocked. */
  function StepsLeft(p: Phase): nat {
    match p
    case Reading(_, _) => 6
    case Creating(_, _, _) => 5
    case Filling(_, _, _, _) => 4
    case Renaming(_, _, _, _) => 3
    case Removing(_, _, _, _, _) => 2
    case Leaving(_, _, _, _) => 1
    case _ => 0
  }

  function OwnSteps(steps: seq<Step>, t: Tid): nat {
    if steps == [] then 0
    else (if !steps[0].Crash? && steps[0].tid == t then 1 else 0) + OwnSteps(steps[1..], t)
  }

  predicate CrashFree(steps: seq<Step>) {
    forall i :: 0 <= i < |steps| ==> !steps[i].Crash?
  }

  /** A holder's own step brings it nearer to unlocking, failed or not; the steps of others leave it where it is. */
  lemma TenureStep(s: State, step: Step, t: Tid)
    requires Enabled(s, step) && !step.Crash? && HasLock(PhaseOf(s, t))
    ensures var p, p' := PhaseOf(s, t), PhaseOf(Execute(s, step), t);
      if step.tid == t then StepsLeft(p') < StepsLeft(p) else p' == p
    ensures StepsLeft(PhaseOf(s, t)) > 0
  {
    hide ValidId, DiskEffect;
  }

  /**
   However it is interleaved with others, a holder has unlocked after at most six steps of its own, system
   calls that fail included.
   */
  lemma {:induction false} TenureBounded(s: State, steps: seq<Step>, t: Tid) returns (n: nat)
    requires Runs(s, steps) && CrashFree(steps)
    requires HasLock(PhaseOf(s, t)) && OwnSteps(steps, t) >= StepsLeft(PhaseOf(s, t))
    ensures 0 < n <= |steps| && Runs(s, steps[..n]) && PhaseOf(After(s, steps[..n]), t).Returned?
    decreases |steps|
  {
    hide Enabled, Execute;
    TenureStarts(s, steps, t);
    var s' := Execute(s, steps[0]);
    TenureStep(s, steps[0], t);
    if HasLock(PhaseOf(s', t)) {
      n := TenureBounded(s', steps[1..], t);
      n := n + 1;
      assert steps[..n][1..] == steps[1..][..n - 1];
    } else {
      n := 1;
      TenureEnds(s, steps[0], t);
      assert steps[..1][1..] == [];
    }
  }

  lemma TenureStarts(s: State, steps: seq<Step>, t: Tid)
    requires HasLock(PhaseOf(s, t)) && OwnSteps(steps, t) >= StepsLeft(PhaseOf(s, t))
    ensures steps != []
  {
  }

  lemma TenureEnds(s: State, step: Step, t: Tid)
    requires Enabled(s, step) && !step.Crash? && HasLock(PhaseOf(s, t)) && !HasLock(PhaseOf(Execute(s, step), t))
    ensures PhaseOf(Execute(s, step), t).Returned?
  {
    hide ValidId, DiskEffect;
  }

  /** A thread waiting for a lock can take it, or the lock's holder can move. */
  lemma NoDeadlock(c0: Contents, s: State, t: Tid) returns (step: Step)
    requires Inv(c0, s) && PhaseOf(s, t).Blocked?
    ensures !Faulty(step) && !step.Invoke? && Enabled(s, step)
  {
    OwnPhase(c0, s, t);
    var id := JobTarget(PhaseOf(s, t));
    if s.locks[id] == None {
      step := Acquire(t);
    } else {
      step := HolderCanProceed(c0, s, s.locks[id].value);
    }
  }
}
