/**
 What each thread was asked and told, read off the steps of a run alone: the operation of its latest
 call, the clock it read, and whether one of its system calls failed.
 */
module DiskTrace {
  import opened DiskProtocol
  import opened Rfc3339
  import opened VaultProofs
  import opened VaultSpec
  import opened Wrappers

  /** The latest call of a thread: the position of its Invoke step, and what the thread's steps since then showed. */
  datatype CallTrace = CallTrace(invoked: nat, op: Op, clock: Option<Instant>, faulted: bool)

  /** A thread's latest call in a run, unless there was none or a crash ended it. */
  function TraceOf(steps: seq<Step>, t: Tid): Option<CallTrace> {
    if steps == [] then None
    else
      var n := |steps| - 1;
      NextTrace(TraceOf(steps[..n], t), n, steps[n], t)
  }

  function NextTrace(trace: Option<CallTrace>, n: nat, step: Step, t: Tid): Option<CallTrace> {
    if step.Crash? then None
    else if step.tid != t then trace
    else if step.Invoke? then Some(CallTrace(n, step.op, None, false))
    else
      match trace
      case None => None
      case Some(tr) =>
        if step.Read? then Some(tr.(clock := Some(step.now)))
        else if Faulty(step) then Some(tr.(faulted := true))
        else trace
  }

  /** The moment at which an operation is judged: the clock of its thread, or none at all for an invalid id. */
  function Moment(tr: CallTrace): Option<Instant> {
    if ValidId(Target(tr.op)) then tr.clock else Some(0)
  }

  /** The call is over: it failed in the operating system, or it is the event with this number. */
  predicate Settled(s: State, t: Tid, tr: CallTrace, since: nat, reply: Reply, at: Option<nat>) {
    && (at.None? <==> tr.faulted)
    && match at
       case None => reply == Failed(IoFailure)
       case Some(i) =>
         && since <= i < |s.history|
         && s.history[i].tid == t && s.history[i].op == tr.op && Some(s.history[i].now) == Moment(tr)
         && s.history[i].reply == reply
  }

  /** Where a thread stands agrees with its trace. */
  predicate Agrees(s: State, t: Tid, p: Phase, tr: CallTrace, since: nat) {
    && !p.Idle?
    && p.job.op == tr.op && p.job.since == since <= |s.history|
    && (!p.Returned? ==> ValidId(Target(tr.op)))
    && match p
       case Creating(_, _, c) => tr.clock == Some(c.now) && !tr.faulted
       case Filling(_, _, c, _) => tr.clock == Some(c.now) && !tr.faulted
       case Renaming(_, _, c, _) => tr.clock == Some(c.now) && !tr.faulted
       case Removing(_, _, reply, at, _) => Settled(s, t, tr, since, reply, at)
       case Leaving(_, _, reply, at) => Settled(s, t, tr, since, reply, at)
       case Returned(_, reply, at) => Settled(s, t, tr, since, reply, at)
       case _ => !tr.faulted
  }

  lemma AgreesStep(s: State, step: Step, t: Tid, tr: CallTrace, since: nat, n: nat)
    requires Enabled(s, step) && !step.Crash? && !(step.Invoke? && step.tid == t)
    requires Agrees(s, t, PhaseOf(s, t), tr, since)
    ensures var s', next := Execute(s, step), NextTrace(Some(tr), n, step, t);
      next.Some? && next.value.invoked == tr.invoked && Agrees(s', t, PhaseOf(s', t), next.value, since)
  {
    if step.tid == t {
      AgreesOwnStep(s, step, tr, since, n);
    } else {
      OthersStep(s, step, t);
      hide Execute, Enabled, ValidId;
    }
  }

  /** The steps of others leave a thread where it is and only add to the history. */
  lemma OthersStep(s: State, step: Step, t: Tid)
    requires Enabled(s, step) && !step.Crash? && step.tid != t
    ensures var s' := Execute(s, step); PhaseOf(s', t) == PhaseOf(s, t) && s.history <= s'.history
  {
    hide ValidId, DiskEffect;
  }

  lemma AgreesOwnStep(s: State, step: Step, tr: CallTrace, since: nat, n: nat)
    requires Enabled(s, step) && !step.Crash? && !step.Invoke?
    requires Agrees(s, step.tid, PhaseOf(s, step.tid), tr, since)
    ensures var s', next := Execute(s, step), NextTrace(Some(tr), n, step, step.tid);
      next.Some? && next.value.invoked == tr.invoked && Agrees(s', step.tid, PhaseOf(s', step.tid), next.value, since)
  {
    hide ValidId, DiskEffect;
  }

  lemma AgreesInvoke(s: State, t: Tid, op: Op, n: nat)
    requires Enabled(s, Invoke(t, op))
    ensures var s' := Execute(s, Invoke(t, op));
      Agrees(s', t, PhaseOf(s', t), CallTrace(n, op, None, false), |s.history|)
  {
    hide ValidId, DiskEffect;
  }

  lemma IdleStep(s: State, step: Step, t: Tid)
    requires Enabled(s, step) && PhaseOf(s, t).Idle? && (step.Crash? || step.tid != t)
    ensures PhaseOf(Execute(s, step), t).Idle?
  {
    hide ValidId, DiskEffect;
  }

  lemma CrashIdle(s: State, t: Tid)
    ensures PhaseOf(Execute(s, Crash), t).Idle?
  {
  }

  lemma IdleEnabled(s: State, step: Step)
    requires Enabled(s, step) && !step.Crash? && PhaseOf(s, step.tid).Idle?
    ensures step.Invoke?
  {
  }

  /**
   At every moment of every run each thread is at the operation its latest Invoke step asked for, knows
   only what it read since, and has failed exactly if one of its own system calls has.
   */
  lemma {:induction false} TraceAgrees(s0: State, steps: seq<Step>, t: Tid)
    requires s0.threads == map[] && Runs(s0, steps)
    ensures var s, trace := After(s0, steps), TraceOf(steps, t);
      && (trace.None? <==> PhaseOf(s, t).Idle?)
      && (trace.Some? ==>
            && trace.value.invoked < |steps|
            && steps[trace.value.invoked] == Invoke(t, trace.value.op)
            && Runs(s0, steps[..trace.value.invoked])
            && Agrees(s, t, PhaseOf(s, t), trace.value, |After(s0, steps[..trace.value.invoked]).history|))
  {
    hide Enabled, Execute, Agrees;
    if steps != [] {
      var n := |steps| - 1;
      var front, step := steps[..n], steps[n];
      RunsPrefix(s0, steps, n);
      assert steps[..n + 1] == steps;
      var s, trace := After(s0, front), TraceOf(front, t);
      TraceAgrees(s0, front, t);
      if step.Crash? {
        CrashIdle(s, t);
      } else if step.Invoke? && step.tid == t {
        AgreesInvoke(s, t, step.op, n);
        AgreesIsCall(Execute(s, step), t, PhaseOf(Execute(s, step), t), TraceOf(steps, t).value, |s.history|);
      } else if trace.Some? {
        assert front[..trace.value.invoked] == steps[..trace.value.invoked];
        AgreesStep(s, step, t, trace.value, |After(s0, steps[..trace.value.invoked]).history|, n);
        AgreesIsCall(Execute(s, step), t, PhaseOf(Execute(s, step), t), TraceOf(steps, t).value,
                     |After(s0, steps[..trace.value.invoked]).history|);
      } else {
        if step.tid == t {
          IdleEnabled(s, step);
        }
        IdleStep(s, step, t);
      }
    }
  }

  lemma AgreesIsCall(s: State, t: Tid, p: Phase, tr: CallTrace, since: nat)
    requires Agrees(s, t, p, tr, since)
    ensures !p.Idle?
  {
  }

  /** The call of a returned thread, as one of the sequential run. */
  predicate AnsweredAs(c0: Contents, s: State, tr: CallTrace, reply: Reply, i: nat) {
    && i < |s.history| == |DiskRun(c0, CallsOf(s.history)).1|
    && Moment(tr).Some? && CallsOf(s.history)[i] == Call(tr.op, Moment(tr).value)
    && reply == DiskRun(c0, CallsOf(s.history)).1[i]
  }

  /**
   Every finished call is answered honestly. It reports an I/O failure of its own only if one of its system
   calls failed; otherwise its reply is the one the sequential run gives to that operation at that clock
   reading, at a place between its invocation and now, and its rename ran if there was something to write.
   */
  lemma EveryAnswerExplained(c0: Contents, s0: State, steps: seq<Step>, t: Tid)
    requires Init(c0, s0) && Runs(s0, steps) && PhaseOf(After(s0, steps), t).Returned?
    ensures var s, trace := After(s0, steps), TraceOf(steps, t);
      && trace.Some?
      && var tr, p := trace.value, PhaseOf(s, t);
         && tr.invoked < |steps| && steps[tr.invoked] == Invoke(t, tr.op) && Runs(s0, steps[..tr.invoked])
         && (tr.faulted ==> p.reply == Failed(IoFailure))
         && (!tr.faulted ==>
               exists i :: |After(s0, steps[..tr.invoked]).history| <= i < |s.history|
                 && AnsweredAs(c0, s, tr, p.reply, i)
                 && (Writes(DiskRun(c0, CallsOf(s.history)[..i]).0, CallsOf(s.history)[i]) ==>
                       CallsOf(s.history)[i] in s.renames))
  {
    hide Enabled, Execute;
    var s, p := After(s0, steps), PhaseOf(After(s0, steps), t);
    TraceAgrees(s0, steps, t);
    Linearizable(c0, s0, steps);
    var tr := TraceOf(steps, t).value;
    if !tr.faulted {
      var i := p.at.value;
      HistoryCalls(s, i);
      if Writes(DiskRun(c0, CallsOf(s.history)[..i]).0, CallsOf(s.history)[i]) {
        WriterListed(c0, CallsOf(s.history), i);
      }
      assert AnsweredAs(c0, s, tr, p.reply, i);
    }
  }

  lemma HistoryCalls(s: State, i: nat)
    requires i < |s.history|
    ensures |CallsOf(s.history)| == |RepliesOf(s.history)| == |s.history|
    ensures CallsOf(s.history)[i] == Call(s.history[i].op, s.history[i].now) && RepliesOf(s.history)[i] == s.history[i].reply
  {
  }

  lemma {:induction false} WriterListed(c: Contents, calls: seq<Call>, i: nat)
    requires i < |calls| && Writes(DiskRun(c, calls[..i]).0, calls[i])
    ensures calls[i] in Writers(c, calls)
    decreases |calls|
  {
    hide DiskApply, Writes;
    if i > 0 {
      assert calls[..i][1..] == calls[1..][..i - 1];
      WriterListed(DiskApply(c, calls[0].op, calls[0].now).0, calls[1..], i - 1);
    }
  }

  function RenameSteps(steps: seq<Step>): nat {
    if steps == [] then 0
    else RenameSteps(steps[..|steps| - 1]) + if steps[|steps| - 1].Rename? then 1 else 0
  }

  /** The listed renames are the rename steps of the run, no more and no fewer. */
  lemma {:induction false} RenamesAreSteps(s0: State, steps: seq<Step>)
    requires s0.renames == [] && Runs(s0, steps)
    ensures |After(s0, steps).renames| == RenameSteps(steps)
  {
    hide Enabled, Execute;
    if steps != [] {
      var n := |steps| - 1;
      RunsPrefix(s0, steps, n);
      assert steps[..n + 1] == steps;
      RenamesAreSteps(s0, steps[..n]);
      RenameCounted(After(s0, steps[..n]), steps[n]);
    }
  }

  lemma RenameCounted(s: State, step: Step)
    requires Enabled(s, step)
    ensures |Execute(s, step).renames| == |s.renames| + if step.Rename? then 1 else 0
  {
    hide ValidId, DiskEffect;
  }

  // ----- temporary files -----

  /** The thread is at work on this temporary file, or failed and still has to remove it. */
  predicate Owns(p: Phase, temp: Temp) {
    (p.Filling? || p.Renaming? || (p.Removing? && p.at.None?)) && temp == Temp(JobTarget(p), p.number)
  }

  /** Every temporary file was there from the start or some thread will still remove it. */
  ghost predicate Tidy(s0: State, s: State) {
    forall temp :: temp in s.temps ==> temp in s0.temps || exists t :: t in s.threads && Owns(s.threads[t], temp)
  }

  predicate Littering(step: Step) {
    step.Crash? || (step.RemoveTemp? && !step.removed)
  }

  lemma TidyStep(s0: State, s: State, step: Step)
    requires Tidy(s0, s) && Enabled(s, step) && !Littering(step)
    ensures Tidy(s0, Execute(s, step))
  {
    hide ValidId, DiskEffect;
    var s', t := Execute(s, step), step.tid;
    forall temp | temp in s'.temps && temp !in s0.temps
      ensures exists u :: u in s'.threads && Owns(s'.threads[u], temp)
    {
      if step.CreateTemp? && temp == Temp(JobTarget(PhaseOf(s, t)), step.number) {
        assert Owns(s'.threads[t], temp);
      } else if temp in s.temps {
        var u :| u in s.threads && Owns(s.threads[u], temp);
        assert Owns(s'.threads[u], temp);
      } else {
        assert Owns(s'.threads[t], temp);
      }
    }
  }

  /**
   Without a crash or a removal that fails no temporary file is left behind. One that became the record
   file is gone at once; when no call is in progress the directory holds none that was not there at the start.
   */
  lemma {:induction false} NoLitter(s0: State, steps: seq<Step>)
    requires Runs(s0, steps) && forall i :: 0 <= i < |steps| ==> !Littering(steps[i])
    ensures var s := After(s0, steps);
      && Tidy(s0, s)
      && ((forall t :: t in s.threads ==> s.threads[t].Returned?) ==> s.temps.Keys <= s0.temps.Keys)
  {
    hide Enabled, Execute;
    if steps != [] {
      var n := |steps| - 1;
      RunsPrefix(s0, steps, n);
      assert steps[..n + 1] == steps;
      NoLitter(s0, steps[..n]);
      TidyStep(s0, After(s0, steps[..n]), steps[n]);
    }
  }
}
