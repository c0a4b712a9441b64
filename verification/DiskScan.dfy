/**
 `ListExpired` of the disk vault while other threads work. The scan takes no lock and writes nothing, so
 it is laid over a run of the interleaving model: the steps of the run are those between its start and its
 end, and each record is read between two of them.
 */
module DiskScan {
  import opened Custody
  import opened DiskProtocol
  import opened DiskVault
  import opened Rfc3339
  import opened VaultProofs
  import opened VaultSpec
  import opened Wrappers

  /** The ids of the record files the directory listing named, and after how many steps each was read. */
  datatype Scan = Scan(ids: seq<string>, readAt: seq<nat>)

  /** The record file is there at every moment of the run. */
  ghost predicate Stays(s0: State, steps: seq<Step>, id: string)
    requires Runs(s0, steps)
  {
    forall k :: 0 <= k <= |steps| ==> id in At(s0, steps, k).records
  }

  /**
   A directory listing names no file twice and every file that is there all the time. Files that appear
   while it is read may be named or not.
   */
  ghost predicate Laid(scan: Scan, s0: State, steps: seq<Step>)
    requires Runs(s0, steps)
  {
    && |scan.readAt| == |scan.ids|
    && Distinct(scan.ids)
    && (forall id :: Stays(s0, steps, id) ==> id in scan.ids)
    && (forall i :: 0 <= i < |scan.readAt| ==> scan.readAt[i] <= |steps|)
  }

  /** The record file holds a package that is past its retention and not deleted. */
  predicate ShowsExpired(s: State, id: string, now: Instant) {
    id in s.records && match s.records[id]
      case Partial => false
      case Record(p) => ExpiredPackage(p, now)
  }

  predicate ExpiredPackage(p: Package, now: Instant) {
    !IsDeleted(p.custody.entries) && p.retention.Expired(now)
  }

  /** What the loop over the first n listed files collects. */
  ghost function Collected(scan: Scan, s0: State, steps: seq<Step>, now: Instant, n: nat): seq<string>
    requires Runs(s0, steps) && Laid(scan, s0, steps) && n <= |scan.ids|
  {
    if n == 0 then []
    else
      Collected(scan, s0, steps, now, n - 1) +
      (if ShowsExpired(At(s0, steps, scan.readAt[n - 1]), scan.ids[n - 1], now) then [scan.ids[n - 1]] else [])
  }

  ghost function Returned(scan: Scan, s0: State, steps: seq<Step>, now: Instant): seq<string>
    requires Runs(s0, steps) && Laid(scan, s0, steps)
  {
    Collected(scan, s0, steps, now, |scan.ids|)
  }

  lemma {:induction false} CollectedMeaning(scan: Scan, s0: State, steps: seq<Step>, now: Instant, n: nat)
    requires Runs(s0, steps) && Laid(scan, s0, steps) && n <= |scan.ids|
    ensures forall id :: id in Collected(scan, s0, steps, now, n) <==>
      exists i :: 0 <= i < n && scan.ids[i] == id && ShowsExpired(At(s0, steps, scan.readAt[i]), id, now)
    ensures Distinct(Collected(scan, s0, steps, now, n))
  {
    hide At, ShowsExpired, Runs;
    if n > 0 {
      CollectedMeaning(scan, s0, steps, now, n - 1);
      assert scan.ids[n - 1] !in Collected(scan, s0, steps, now, n - 1);
    }
  }

  /** Every record file is complete at every moment of the scan, so no read of it fails to decode. */
  lemma CompleteAt(c0: Contents, s0: State, steps: seq<Step>, k: nat)
    requires Inv(c0, s0) && Runs(s0, steps) && k <= |steps|
    ensures Inv(c0, At(s0, steps, k))
  {
    RunsPrefix(s0, steps, k);
    Reachable(c0, s0, steps[..k]);
  }

  lemma ShowsMeaning(s: State, id: string, now: Instant)
    requires Complete(s.records)
    ensures ShowsExpired(s, id, now) <==> id in ExpiredIds(Packages(s.records), now)
  {
  }

  /** The step commits a hold or a deletion of the package: it is the rename of such an operation. */
  predicate HoldsOrDeletes(s: State, step: Step, id: string) {
    step.Rename? &&
    var p := PhaseOf(s, step.tid);
    p.Renaming? && (p.job.op.PlaceHold? || p.job.op.Delete?) && JobTarget(p) == id
  }

  /** Accesses and releases leave an expired package expired. */
  lemma EffectKeepsExpired(op: Op, at: Instant, p: Package, now: Instant)
    requires ExpiredPackage(p, now) && !op.PlaceHold? && !op.Delete?
    ensures var w := DiskEffect(op, at, Some(p)).write; w.Some? ==> ExpiredPackage(w.value, now)
  {
    hide HashEntry, EncodablePackage;
  }

  /** Nothing else ends an expiry. */
  lemma ExpiryStep(c0: Contents, s: State, step: Step, id: string, now: Instant)
    requires Inv(c0, s) && Enabled(s, step) && ShowsExpired(s, id, now) && !HoldsOrDeletes(s, step, id)
    ensures ShowsExpired(Execute(s, step), id, now)
  {
    hide DiskEffect, ValidId, ExpiredPackage;
    if step.Rename? && JobTarget(PhaseOf(s, step.tid)) == id {
      var p := PhaseOf(s, step.tid);
      OwnPhase(c0, s, step.tid);
      assert UpToDate(s, p.job, p.change);
      EffectKeepsExpired(p.job.op, p.change.now, s.records[id].pkg, now);
    }
  }

  lemma {:induction false} ExpiryLasts(c0: Contents, s0: State, steps: seq<Step>, id: string, now: Instant, k: nat)
    requires Inv(c0, s0) && Runs(s0, steps) && k <= |steps| && ShowsExpired(s0, id, now)
    requires forall j :: 0 <= j < k ==> !HoldsOrDeletes(At(s0, steps, j), steps[j], id)
    ensures ShowsExpired(At(s0, steps, k), id, now)
  {
    hide Enabled, Execute, ShowsExpired, HoldsOrDeletes, Inv;
    if k > 0 {
      ExpiryLasts(c0, s0, steps, id, now, k - 1);
      RunsPrefix(s0, steps, k - 1);
      CompleteAt(c0, s0, steps, k - 1);
      ExpiryStep(c0, At(s0, steps, k - 1), steps[k - 1], id, now);
    } else {
      assert steps[..0] == [];
    }
  }

  /** At the k-th moment of the scan the package was expired and not deleted. */
  predicate ExpiredAt(s0: State, steps: seq<Step>, k: nat, id: string, now: Instant)
    requires Runs(s0, steps) && k <= |steps|
  {
    var s := At(s0, steps, k);
    Complete(s.records) && id in ExpiredIds(Packages(s.records), now)
  }

  /** The k-th step of the scan's run held or deleted the package. */
  predicate TouchedAt(s0: State, steps: seq<Step>, k: nat, id: string)
    requires Runs(s0, steps) && k < |steps|
  {
    HoldsOrDeletes(At(s0, steps, k), steps[k], id)
  }

  lemma ShowsAt(c0: Contents, s0: State, steps: seq<Step>, k: nat, id: string, now: Instant)
    requires Inv(c0, s0) && Runs(s0, steps) && k <= |steps|
    ensures ShowsExpired(At(s0, steps, k), id, now) <==> ExpiredAt(s0, steps, k, id, now)
  {
    CompleteAt(c0, s0, steps, k);
    ShowsMeaning(At(s0, steps, k), id, now);
  }

  /** No id is returned twice, and each returned id was expired and not deleted at some moment of the scan. */
  lemma ScanSound(c0: Contents, s0: State, steps: seq<Step>, scan: Scan, now: Instant)
    requires Inv(c0, s0) && Runs(s0, steps) && Laid(scan, s0, steps)
    ensures Distinct(Returned(scan, s0, steps, now))
    ensures forall id :: id in Returned(scan, s0, steps, now) ==>
      exists k :: 0 <= k <= |steps| && ExpiredAt(s0, steps, k, id, now)
  {
    hide At, ShowsExpired, Runs, Inv, ExpiredAt;
    CollectedMeaning(scan, s0, steps, now, |scan.ids|);
    forall id | id in Returned(scan, s0, steps, now)
      ensures exists k :: 0 <= k <= |steps| && ExpiredAt(s0, steps, k, id, now)
    {
      var i :| 0 <= i < |scan.ids| && scan.ids[i] == id && ShowsExpired(At(s0, steps, scan.readAt[i]), id, now);
      ShowsAt(c0, s0, steps, scan.readAt[i], id, now);
    }
  }

  /**
   A package that was expired when the scan began is missing from its result only if a hold or a deletion
   of that very package was committed while the scan ran. One that stays expired throughout is returned.
   */
  lemma ScanComplete(c0: Contents, s0: State, steps: seq<Step>, scan: Scan, id: string, now: Instant)
    requires Inv(c0, s0) && Runs(s0, steps) && Laid(scan, s0, steps)
    requires id in ExpiredIds(Packages(s0.records), now)
    ensures id in Returned(scan, s0, steps, now) || exists k :: 0 <= k < |steps| && TouchedAt(s0, steps, k, id)
    ensures (forall k :: 0 <= k <= |steps| ==> ExpiredAt(s0, steps, k, id, now)) ==> id in Returned(scan, s0, steps, now)
  {
    ShowsMeaning(s0, id, now);
    CollectedMeaning(scan, s0, steps, now, |scan.ids|);
    if forall k :: 0 <= k < |steps| ==> !TouchedAt(s0, steps, k, id) {
      forall k | 0 <= k <= |steps| ensures ExpiredAt(s0, steps, k, id, now) {
        hide At, Runs, Inv, ShowsExpired, HoldsOrDeletes, ExpiredAt;
        forall j | 0 <= j < k ensures !HoldsOrDeletes(At(s0, steps, j), steps[j], id) {
          assert !TouchedAt(s0, steps, j, id);
        }
        ExpiryLasts(c0, s0, steps, id, now, k);
        ShowsAt(c0, s0, steps, k, id, now);
      }
    }
    if forall k :: 0 <= k <= |steps| ==> ExpiredAt(s0, steps, k, id, now) {
      StaysListed(c0, s0, steps, scan, id, now);
    }
  }

  lemma StaysListed(c0: Contents, s0: State, steps: seq<Step>, scan: Scan, id: string, now: Instant)
    requires Inv(c0, s0) && Runs(s0, steps) && Laid(scan, s0, steps)
    requires forall k :: 0 <= k <= |steps| ==> ExpiredAt(s0, steps, k, id, now)
    ensures id in Returned(scan, s0, steps, now)
  {
    hide At, Runs, Inv, ShowsExpired, ExpiredAt, Collected;
    forall k | 0 <= k <= |steps| ensures id in At(s0, steps, k).records {
      ShowsAt(c0, s0, steps, k, id, now);
      ShowsRecord(At(s0, steps, k), id, now);
    }
    assert Stays(s0, steps, id);
    var i :| 0 <= i < |scan.ids| && scan.ids[i] == id;
    ShowsAt(c0, s0, steps, scan.readAt[i], id, now);
    CollectedMeaning(scan, s0, steps, now, |scan.ids|);
  }

  lemma ShowsRecord(s: State, id: string, now: Instant)
    requires ShowsExpired(s, id, now)
    ensures id in s.records
  {
  }
}
