/** What both vaults keep over whole runs, and exactly when the disk vault behaves like the one in memory. */
module VaultProofs {
  import opened Custody
  import Decimal
  import opened Retention
  import opened Rfc3339
  import opened VaultSpec
  import opened Wrappers

  // ----- runs -----

  function DiskRun(c: Contents, calls: seq<Call>): (Contents, seq<Reply>)
    decreases |calls|
  {
    if calls == [] then (c, [])
    else
      var (c1, r) := DiskApply(c, calls[0].op, calls[0].now);
      var (c2, rs) := DiskRun(c1, calls[1..]);
      (c2, [r] + rs)
  }

  function MemRun(c: Contents, calls: seq<Call>): (Contents, seq<Reply>)
    decreases |calls|
  {
    if calls == [] then (c, [])
    else
      var (c1, r) := MemApply(c, calls[0].op, calls[0].now);
      var (c2, rs) := MemRun(c1, calls[1..]);
      (c2, [r] + rs)
  }

  lemma {:induction false} RunLengths(c: Contents, calls: seq<Call>)
    ensures |DiskRun(c, calls).1| == |calls| && |MemRun(c, calls).1| == |calls|
    decreases |calls|
  {
    if calls != [] {
      RunLengths(DiskApply(c, calls[0].op, calls[0].now).0, calls[1..]);
      RunLengths(MemApply(c, calls[0].op, calls[0].now).0, calls[1..]);
    }
  }

  // ----- refinement -----

  /** The operation gets as far as encoding a record with a year the encoder refuses. */
  predicate WritesUnencodable(c: Contents, op: Op, now: Instant) {
    if op.Store? then op.pkg.id !in c && !EncodablePackage(op.pkg)
    else
      && op.id in c
      && !IsDeleted(c[op.id].custody.entries)
      && !(op.Delete? && c[op.id].retention.onLitigationHold)
      && !(EncodablePackage(c[op.id]) && Encodable(now))
  }

  /** A hold operation on a deleted package that would change the flag: refused by both vaults, kept by memory. */
  predicate FlipsDeleted(c: Contents, op: Op) {
    && (op.PlaceHold? || op.ReleaseHold?)
    && op.id in c
    && IsDeleted(c[op.id].custody.entries)
    && c[op.id].retention.onLitigationHold != op.PlaceHold?
  }

  predicate Diverges(c: Contents, op: Op, now: Instant) {
    !ValidId(Target(op)) || WritesUnencodable(c, op, now) || FlipsDeleted(c, op)
  }

  lemma LoggedEncodable(p: Package, action: Action, operatorID: string, ref: string, now: Instant)
    requires !IsDeleted(p.custody.entries)
    ensures EncodablePackage(Logged(p, action, operatorID, ref, now).value) <==> EncodablePackage(p) && Encodable(now)
  {
    hide HashEntry, Encodable;
    var es, q := p.custody.entries, Logged(p, action, operatorID, ref, now).value;
    assert q.custody.entries[|es|].occurredAt == now;
    assert forall i :: 0 <= i < |es| ==> q.custody.entries[i] == es[i];
  }

  /** One step: both vaults reach the same contents and reply unless, and only unless, the step diverges. */
  lemma StepAgreement(c: Contents, op: Op, now: Instant)
    ensures DiskApply(c, op, now) == MemApply(c, op, now) <==> !Diverges(c, op, now)
  {
    hide HashEntry, Encodable, EncodablePackage, ValidId;
    var id := Target(op);
    if !op.Store? && id in c {
      var p := c[id];
      if IsDeleted(p.custody.entries) {
        assert c == c[id := p];
        assert c[id := WithHold(p, true)][id] == WithHold(p, true);
        assert c[id := WithHold(p, false)][id] == WithHold(p, false);
      } else {
        match op {
          case Get(_, o, r) => LoggedEncodable(p, Accessed, o, r, now);
          case PlaceHold(_, o, r) => EncodableHold(p, true); LoggedEncodable(WithHold(p, true), HoldPlaced, o, r, now);
          case ReleaseHold(_, o, r) => EncodableHold(p, false); LoggedEncodable(WithHold(p, false), HoldReleased, o, r, now);
          case Delete(_, o) =>
            LoggedEncodable(p, Deleted, o, "retention-expired", now);
            EncodableErased(Logged(p, Deleted, o, "retention-expired", now).value);
        }
      }
    }
  }

  lemma EncodableHold(p: Package, held: bool)
    ensures EncodablePackage(WithHold(p, held)) <==> EncodablePackage(p)
  {
  }

  lemma EncodableErased(p: Package)
    ensures EncodablePackage(p.(ciphertext := None)) <==> EncodablePackage(p)
  {
  }

  /** No step of the run diverges, the contents evolving as in memory. */
  predicate NeverDiverges(c: Contents, calls: seq<Call>)
    decreases |calls|
  {
    calls == [] ||
    (!Diverges(c, calls[0].op, calls[0].now) && NeverDiverges(MemApply(c, calls[0].op, calls[0].now).0, calls[1..]))
  }

  /**
   The disk vault refines the in-memory vault: started from equal contents they give the same replies
   and hold equal packages after every prefix of the run exactly when no step of it diverges.
   */
  lemma {:induction false} DiskRefinesMemory(c: Contents, calls: seq<Call>)
    ensures NeverDiverges(c, calls) <==>
      forall n :: 0 <= n <= |calls| ==> DiskRun(c, calls[..n]) == MemRun(c, calls[..n])
    decreases |calls|
  {
    hide DiskApply, MemApply, Diverges;
    if calls != [] {
      var op, now, rest := calls[0].op, calls[0].now, calls[1..];
      StepAgreement(c, op, now);
      var d, m := DiskApply(c, op, now), MemApply(c, op, now);
      forall n | 0 < n <= |calls|
        ensures DiskRun(c, calls[..n]) == MemRun(c, calls[..n]) <==>
                d.1 == m.1 && DiskRun(d.0, rest[..n - 1]) == MemRun(m.0, rest[..n - 1])
      {
        PrefixRuns(c, calls, n);
      }
      if d == m {
        DiskRefinesMemory(m.0, rest);
        if forall n :: 0 <= n <= |calls| ==> DiskRun(c, calls[..n]) == MemRun(c, calls[..n]) {
          forall n | 0 <= n <= |rest|
            ensures DiskRun(m.0, rest[..n]) == MemRun(m.0, rest[..n])
          {
            assert DiskRun(c, calls[..n + 1]) == MemRun(c, calls[..n + 1]);
          }
        }
      } else {
        assert rest[..0] == [];
        assert DiskRun(c, calls[..1]) != MemRun(c, calls[..1]);
      }
    }
  }

  lemma PrefixRuns(c: Contents, calls: seq<Call>, n: nat)
    requires 0 < n <= |calls|
    ensures var d, m := DiskApply(c, calls[0].op, calls[0].now), MemApply(c, calls[0].op, calls[0].now);
      DiskRun(c, calls[..n]) == MemRun(c, calls[..n]) <==>
      d.1 == m.1 && DiskRun(d.0, calls[1..][..n - 1]) == MemRun(m.0, calls[1..][..n - 1])
  {
    hide DiskApply, MemApply;
    assert calls[..n][1..] == calls[1..][..n - 1];
    var d, m := DiskApply(c, calls[0].op, calls[0].now), MemApply(c, calls[0].op, calls[0].now);
    var d', m' := DiskRun(d.0, calls[1..][..n - 1]), MemRun(m.0, calls[1..][..n - 1]);
    assert ([d.1] + d'.1)[0] == d.1 && ([d.1] + d'.1)[1..] == d'.1;
    assert ([m.1] + m'.1)[0] == m.1 && ([m.1] + m'.1)[1..] == m'.1;
  }

  /** Which reply is given, for each operation and every state of the package: the disk vault. */
  lemma DiskReplies(c: Contents, op: Op, now: Instant)
    ensures var r, id := DiskApply(c, op, now).1, Target(op);
      && (r == Failed(InvalidID) <==> !ValidId(id))
      && (r == Failed(EncodeFailure) <==> ValidId(id) && WritesUnencodable(c, op, now))
      && (ValidId(id) && !WritesUnencodable(c, op, now) ==> r == MemApply(c, op, now).1)
  {
    hide HashEntry, Encodable, EncodablePackage, ValidId;
    StepAgreement(c, op, now);
    hide DiskApply, MemApply;
    DiskReplyCases(c, op, now);
  }

  lemma DiskReplyCases(c: Contents, op: Op, now: Instant)
    ensures !ValidId(Target(op)) <==> DiskApply(c, op, now).1 == Failed(InvalidID)
    ensures ValidId(Target(op)) && WritesUnencodable(c, op, now) <==> DiskApply(c, op, now).1 == Failed(EncodeFailure)
    ensures ValidId(Target(op)) && FlipsDeleted(c, op) ==> DiskApply(c, op, now).1 == MemApply(c, op, now).1
  {
    hide HashEntry, Encodable, EncodablePackage, ValidId;
    if !op.Store? && op.id in c && !IsDeleted(c[op.id].custody.entries) {
      var p := c[op.id];
      match op {
        case Get(_, o, r) => LoggedEncodable(p, Accessed, o, r, now);
        case PlaceHold(_, o, r) => EncodableHold(p, true); LoggedEncodable(WithHold(p, true), HoldPlaced, o, r, now);
        case ReleaseHold(_, o, r) => EncodableHold(p, false); LoggedEncodable(WithHold(p, false), HoldReleased, o, r, now);
        case Delete(_, o) =>
          LoggedEncodable(p, Deleted, o, "retention-expired", now);
          EncodableErased(Logged(p, Deleted, o, "retention-expired", now).value);
      }
    }
  }

  /** Which reply is given in memory. */
  lemma MemReplies(c: Contents, op: Op, now: Instant)
    ensures var r, id := MemApply(c, op, now).1, Target(op);
      && (r == Failed(AlreadyExists) <==> op.Store? && id in c)
      && (r == Failed(NotFound) <==> !op.Store? && id !in c)
      && (r == Failed(Error.OnHold) <==> op.Delete? && id in c && c[id].retention.onLitigationHold)
      && (r == Failed(AlreadyDeleted) <==>
            && id in c && IsDeleted(c[id].custody.entries)
            && (op.PlaceHold? || op.ReleaseHold? || (op.Delete? && !c[id].retention.onLitigationHold)))
      && (r.Found? <==> op.Get? && id in c)
      && (r.Failed? ==> r.error in {AlreadyExists, NotFound, Error.OnHold, AlreadyDeleted})
  {
    hide HashEntry;
  }

  /** A package stored and then fetched is the one that was stored, with one access more in its log. */
  lemma StoreThenGet(c: Contents, pkg: Package, operatorID: string, purposeRef: string, at: Instant, now: Instant)
    requires pkg.id !in c && !IsDeleted(pkg.custody.entries)
    ensures var (d, _) := MemApply(c, Store(pkg), at);
      var (e, r) := MemApply(d, Get(pkg.id, operatorID, purposeRef), now);
      && d == c[pkg.id := pkg]
      && r.Found? && r.pkg == pkg.(custody := r.pkg.custody) && r.pkg.custody.evidenceID == pkg.custody.evidenceID
      && FactsOf(r.pkg.custody.entries) == FactsOf(pkg.custody.entries) + [Fact(Accessed, operatorID, purposeRef, now)]
      && e == c[pkg.id := r.pkg]
  {
    hide HashEntry, FactsOf;
    FactsLogged(pkg, Accessed, operatorID, purposeRef, now);
    assert c[pkg.id := pkg][pkg.id] == pkg;
    var q := MemApply(c[pkg.id := pkg], Get(pkg.id, operatorID, purposeRef), now).1.pkg;
    assert c[pkg.id := pkg][pkg.id := q] == c[pkg.id := q];
  }

  /** A refused operation leaves the disk contents alone; in memory it does unless it flips the hold flag of a deleted package. */
  lemma RefusalChangesNothing(c: Contents, op: Op, now: Instant)
    ensures DiskApply(c, op, now).1.Failed? ==> DiskApply(c, op, now).0 == c
    ensures MemApply(c, op, now).1.Failed? ==> (MemApply(c, op, now).0 == c <==> !FlipsDeleted(c, op))
  {
    hide HashEntry, EncodablePackage, ValidId;
    if !op.Store? && op.id in c {
      var p := c[op.id];
      assert c == c[op.id := p];
      assert c[op.id := WithHold(p, true)][op.id] == WithHold(p, true);
      assert c[op.id := WithHold(p, false)][op.id] == WithHold(p, false);
    }
  }

  /** A package handed out is the one the vault now holds, its access already logged, and no other package moved. */
  lemma GetReturnsCurrent(c: Contents, op: Op, now: Instant)
    ensures forall r: (Contents, Reply) | r in {DiskApply(c, op, now), MemApply(c, op, now)} && r.1.Found? ::
      op.Get? && op.id in r.0 && r.0[op.id] == r.1.pkg && r.0 == c[op.id := r.1.pkg]
  {
    hide HashEntry, EncodablePackage, ValidId;
  }

  // ----- the life of a package -----

  /** Packages enter the vault with a genesis entry only and off hold, as the server builds them. */
  predicate FreshStore(op: Op) {
    op.Store? ==>
      && !op.pkg.retention.onLitigationHold
      && var g := op.pkg.custody.entries[0];
         op.pkg.custody.entries == [Genesis(g.operatorID, g.purposeRef, g.occurredAt)]
  }

  /** What holds of every package in memory. After deletion the flag may disagree with the log. */
  predicate Sound(p: Package) {
    var es := p.custody.entries;
    && WellFormed(es)
    && (IsDeleted(es) ==> p.ciphertext == None && !Custody.OnHold(es))
    && (!IsDeleted(es) ==> p.retention.onLitigationHold == Custody.OnHold(es))
  }

  /** On disk the flag always agrees with the log. */
  predicate DiskSound(p: Package) {
    Sound(p) && p.retention.onLitigationHold == Custody.OnHold(p.custody.entries) && EncodablePackage(p)
  }

  /** A later version of the same package: its log extends the earlier one and only the hold flag and ciphertext moved. */
  predicate Extends(p: Package, q: Package) {
    && p.custody.entries <= q.custody.entries
    && (q.ciphertext == p.ciphertext || (q.ciphertext == None && IsDeleted(q.custody.entries)))
    && q == p.(custody := RawLog(p.custody.evidenceID, q.custody.entries), ciphertext := q.ciphertext,
               retention := p.retention.(onLitigationHold := q.retention.onLitigationHold))
  }

  lemma ExtendsTransitive(p: Package, q: Package, r: Package)
    requires Extends(p, q) && Extends(q, r) && WellFormed(r.custody.entries)
    ensures Extends(p, r)
  {
    hide HashEntry;
    var es, fs := q.custody.entries, r.custody.entries;
    if IsDeleted(es) {
      assert fs[|es| - 1].action == Deleted;
      assert |fs| == |es|;
      assert es == fs;
    }
  }

  lemma LoggedSound(p: Package, action: Action, operatorID: string, ref: string, now: Instant)
    requires WellFormed(p.custody.entries) && !IsDeleted(p.custody.entries)
    ensures var q := Logged(p, action, operatorID, ref, now).value;
      && WellFormed(q.custody.entries)
      && (IsDeleted(q.custody.entries) <==> action == Deleted)
      && (Custody.OnHold(q.custody.entries) <==>
          action == HoldPlaced || (action != HoldReleased && Custody.OnHold(p.custody.entries)))
      && Extends(p, q) && q.retention == p.retention && q.ciphertext == p.ciphertext
  {
    hide HashEntry;
    var es := p.custody.entries;
    AppendKeepsWellFormed(es, action, operatorID, ref, now);
    HoldAfterAppend(es, NextEntry(es[|es| - 1], action, operatorID, ref, now));
  }

  lemma GenesisSound(op: Op)
    requires op.Store? && FreshStore(op)
    ensures Sound(op.pkg) && !Custody.OnHold(op.pkg.custody.entries)
  {
    hide HashEntry;
    var es := op.pkg.custody.entries;
    assert |es| == 1 && es[0].sequence == Decimal.Wrap(0) && es[..0] == [];
    assert WellFormed(es) && !Custody.OnHold(es[..0]);
  }

  lemma DiskEffectSound(op: Op, now: Instant, current: Option<Package>)
    requires FreshStore(op) && (current.Some? ==> DiskSound(current.value))
    ensures var w := DiskEffect(op, now, current).write;
      w.Some? ==> DiskSound(w.value) && (current.Some? ==> Extends(current.value, w.value))
  {
    hide HashEntry, Encodable, EncodablePackage, WellFormed, Custody.OnHold, Logged;
    match op {
      case Store(_) => GenesisSound(op);
      case Get(_, o, r) => if current.Some? { LoggedCases(current.value, Accessed, o, r, now); }
      case PlaceHold(_, o, r) => if current.Some? { LoggedCases(WithHold(current.value, true), HoldPlaced, o, r, now); }
      case ReleaseHold(_, o, r) => if current.Some? { LoggedCases(WithHold(current.value, false), HoldReleased, o, r, now); }
      case Delete(_, o) => if current.Some? { LoggedCases(current.value, Deleted, o, "retention-expired", now); }
    }
  }

  lemma MemEffectSound(op: Op, now: Instant, current: Option<Package>)
    requires FreshStore(op) && (current.Some? ==> Sound(current.value))
    ensures var w := MemEffect(op, now, current).write;
      w.Some? ==> Sound(w.value) && (current.Some? ==> Extends(current.value, w.value))
  {
    hide HashEntry, Encodable, EncodablePackage, WellFormed, Custody.OnHold, Logged;
    match op {
      case Store(_) => GenesisSound(op);
      case Get(_, o, r) => if current.Some? { LoggedCases(current.value, Accessed, o, r, now); }
      case PlaceHold(_, o, r) => if current.Some? { LoggedCases(WithHold(current.value, true), HoldPlaced, o, r, now); }
      case ReleaseHold(_, o, r) => if current.Some? { LoggedCases(WithHold(current.value, false), HoldReleased, o, r, now); }
      case Delete(_, o) => if current.Some? { LoggedCases(current.value, Deleted, o, "retention-expired", now); }
    }
  }

  lemma LoggedCases(p: Package, action: Action, operatorID: string, ref: string, now: Instant)
    requires WellFormed(p.custody.entries)
    ensures Logged(p, action, operatorID, ref, now) == None <==> IsDeleted(p.custody.entries)
    ensures !IsDeleted(p.custody.entries) ==>
      var q := Logged(p, action, operatorID, ref, now).value;
      && WellFormed(q.custody.entries)
      && (IsDeleted(q.custody.entries) <==> action == Deleted)
      && (Custody.OnHold(q.custody.entries) <==>
          action == HoldPlaced || (action != HoldReleased && Custody.OnHold(p.custody.entries)))
      && Extends(p, q) && q.retention == p.retention && q.ciphertext == p.ciphertext
  {
    if !IsDeleted(p.custody.entries) {
      LoggedSound(p, action, operatorID, ref, now);
    }
  }

  predicate AllFresh(calls: seq<Call>) {
    forall i :: 0 <= i < |calls| ==> FreshStore(calls[i].op)
  }

  predicate AllSound(c: Contents) {
    forall id :: id in c ==> Sound(c[id])
  }

  predicate AllDiskSound(c: Contents) {
    forall id :: id in c ==> DiskSound(c[id])
  }

  /** Every package of the earlier vault is in the later one, in a later version. */
  predicate AllExtend(c: Contents, d: Contents) {
    forall id :: id in c ==> id in d && Extends(c[id], d[id])
  }

  /**
   Over any run of the disk vault every package stays sound, and between any two moments each log is
   only extended. Started from the empty vault this covers every reachable state.
   */
  lemma {:induction false} DiskLifecycle(c: Contents, calls: seq<Call>)
    requires AllDiskSound(c) && AllFresh(calls)
    ensures AllDiskSound(DiskRun(c, calls).0) && AllExtend(c, DiskRun(c, calls).0)
    decreases |calls|
  {
    hide Sound, DiskSound, Extends, DiskEffect, FreshStore, ValidId;
    if calls == [] {
      forall id | id in c ensures Extends(c[id], c[id]) { ExtendsReflexive(c[id]); }
    } else {
      var op, now := calls[0].op, calls[0].now;
      var c1 := DiskApply(c, op, now).0;
      assert FreshStore(op);
      DiskEffectSound(op, now, Lookup(c, Target(op)));
      forall id | id in c ensures Extends(c[id], c[id]) { ExtendsReflexive(c[id]); }
      DiskLifecycle(c1, calls[1..]);
      forall id | id in c
        ensures id in DiskRun(c, calls).0 && Extends(c[id], DiskRun(c, calls).0[id])
      {
        DiskSoundIsWellFormed(DiskRun(c, calls).0[id]);
        ExtendsTransitive(c[id], c1[id], DiskRun(c, calls).0[id]);
      }
    }
  }

  /** The same over any run in memory, where the flag is tied to the log until deletion. */
  lemma {:induction false} MemLifecycle(c: Contents, calls: seq<Call>)
    requires AllSound(c) && AllFresh(calls)
    ensures AllSound(MemRun(c, calls).0) && AllExtend(c, MemRun(c, calls).0)
    decreases |calls|
  {
    hide Sound, Extends, MemEffect, FreshStore;
    if calls == [] {
      forall id | id in c ensures Extends(c[id], c[id]) { ExtendsReflexive(c[id]); }
    } else {
      var op, now := calls[0].op, calls[0].now;
      var c1 := MemApply(c, op, now).0;
      assert FreshStore(op);
      MemEffectSound(op, now, Lookup(c, Target(op)));
      forall id | id in c ensures Extends(c[id], c[id]) { ExtendsReflexive(c[id]); }
      MemLifecycle(c1, calls[1..]);
      forall id | id in c
        ensures id in MemRun(c, calls).0 && Extends(c[id], MemRun(c, calls).0[id])
      {
        SoundIsWellFormed(MemRun(c, calls).0[id]);
        ExtendsTransitive(c[id], c1[id], MemRun(c, calls).0[id]);
      }
    }
  }

  lemma ExtendsReflexive(p: Package)
    ensures Extends(p, p)
  {
  }

  lemma SoundIsWellFormed(p: Package)
    requires Sound(p)
    ensures WellFormed(p.custody.entries)
  {
  }

  lemma DiskSoundIsWellFormed(p: Package)
    requires DiskSound(p)
    ensures WellFormed(p.custody.entries)
  {
  }

  // ----- litigation holds -----

  /** The package is there, on hold and not deleted. */
  predicate Held(c: Contents, id: string) {
    id in c && !IsDeleted(c[id].custody.entries) && c[id].retention.onLitigationHold
  }

  predicate Releases(op: Op, id: string, reply: Reply) {
    op.ReleaseHold? && op.id == id && reply == Done
  }

  lemma HoldStep(c: Contents, id: string, op: Op, now: Instant)
    requires Held(c, id)
    ensures !Releases(op, id, DiskApply(c, op, now).1) ==>
      Held(DiskApply(c, op, now).0, id) && DiskApply(c, op, now).0[id].ciphertext == c[id].ciphertext
    ensures !Releases(op, id, MemApply(c, op, now).1) ==>
      Held(MemApply(c, op, now).0, id) && MemApply(c, op, now).0[id].ciphertext == c[id].ciphertext
  {
    hide HashEntry, EncodablePackage, ValidId;
  }

  /**
   From a successful `PlaceHold` until the next successful `ReleaseHold` the package cannot be deleted,
   keeps its ciphertext and is never listed as expired, whatever else is called.
   */
  lemma {:induction false} HoldProtectsOnDisk(c: Contents, id: string, calls: seq<Call>)
    requires Held(c, id)
    requires forall i :: 0 <= i < |DiskRun(c, calls).1| && i < |calls| ==> !Releases(calls[i].op, id, DiskRun(c, calls).1[i])
    ensures var d := DiskRun(c, calls).0;
      Held(d, id) && d[id].ciphertext == c[id].ciphertext && forall now :: id !in ExpiredIds(d, now)
    decreases |calls|
  {
    hide DiskApply;
    if calls != [] {
      var (c1, r) := DiskApply(c, calls[0].op, calls[0].now);
      assert DiskRun(c, calls).1[0] == r;
      HoldStep(c, id, calls[0].op, calls[0].now);
      assert DiskRun(c, calls).1[1..] == DiskRun(c1, calls[1..]).1;
      HoldProtectsOnDisk(c1, id, calls[1..]);
    }
  }

  lemma {:induction false} HoldProtectsInMemory(c: Contents, id: string, calls: seq<Call>)
    requires Held(c, id)
    requires forall i :: 0 <= i < |MemRun(c, calls).1| && i < |calls| ==> !Releases(calls[i].op, id, MemRun(c, calls).1[i])
    ensures var d := MemRun(c, calls).0;
      Held(d, id) && d[id].ciphertext == c[id].ciphertext && forall now :: id !in ExpiredIds(d, now)
    decreases |calls|
  {
    hide MemApply;
    if calls != [] {
      var (c1, r) := MemApply(c, calls[0].op, calls[0].now);
      assert MemRun(c, calls).1[0] == r;
      HoldStep(c, id, calls[0].op, calls[0].now);
      assert MemRun(c, calls).1[1..] == MemRun(c1, calls[1..]).1;
      HoldProtectsInMemory(c1, id, calls[1..]);
    }
  }

  /** A successful `PlaceHold` is what starts that protection. */
  lemma PlaceHoldHolds(c: Contents, op: Op, now: Instant)
    requires op.PlaceHold?
    ensures DiskApply(c, op, now).1 == Done ==> Held(DiskApply(c, op, now).0, op.id)
    ensures MemApply(c, op, now).1 == Done ==> Held(MemApply(c, op, now).0, op.id)
  {
    hide HashEntry, EncodablePackage, ValidId;
  }

  // ----- retention sweep -----

  /** Deleting the listed packages one after the other. */
  function Deletions(ids: seq<string>, operatorID: string, times: seq<Instant>): seq<Call>
    requires |times| == |ids|
  {
    seq(|ids|, i requires 0 <= i < |ids| => Call(Delete(ids[i], operatorID), times[i]))
  }

  predicate Distinct(ids: seq<string>) {
    forall i, j :: 0 <= i < j < |ids| ==> ids[i] != ids[j]
  }

  predicate AllDone(replies: seq<Reply>) {
    forall i :: 0 <= i < |replies| ==> replies[i] == Done
  }

  lemma DeleteStep(c: Contents, id: string, operatorID: string, now: Instant, asOf: Instant)
    requires id in ExpiredIds(c, asOf)
    ensures MemApply(c, Delete(id, operatorID), now).1 == Done
    ensures ExpiredIds(MemApply(c, Delete(id, operatorID), now).0, asOf) == ExpiredIds(c, asOf) - {id}
    ensures ValidId(id) && EncodablePackage(c[id]) && Encodable(now) ==>
      DiskApply(c, Delete(id, operatorID), now) == MemApply(c, Delete(id, operatorID), now)
  {
    hide HashEntry, EncodablePackage, ValidId, Encodable, State.ExpiresAt;
    StepAgreement(c, Delete(id, operatorID), now);
    var d := MemApply(c, Delete(id, operatorID), now).0;
    assert d.Keys == c.Keys;
    assert forall k :: k in c && k != id ==> d[k] == c[k];
  }

  /** In memory a sweep over what `ListExpired` returned deletes every package and leaves nothing to list. */
  lemma {:induction false} SweepInMemory(c: Contents, asOf: Instant, ids: seq<string>, operatorID: string, times: seq<Instant>)
    requires Distinct(ids) && |times| == |ids|
    requires forall i :: 0 <= i < |ids| ==> ids[i] in ExpiredIds(c, asOf)
    ensures var (d, replies) := MemRun(c, Deletions(ids, operatorID, times));
      AllDone(replies) && ExpiredIds(d, asOf) == ExpiredIds(c, asOf) - (set id | id in ids)
    decreases |ids|
  {
    hide MemApply, ExpiredIds;
    var calls := Deletions(ids, operatorID, times);
    if ids != [] {
      var c1 := MemApply(c, calls[0].op, calls[0].now).0;
      DeleteStep(c, ids[0], operatorID, times[0], asOf);
      assert calls[1..] == Deletions(ids[1..], operatorID, times[1..]);
      assert forall i :: 0 <= i < |ids[1..]| ==> ids[1..][i] == ids[i + 1] && ids[i + 1] != ids[0];
      SweepInMemory(c1, asOf, ids[1..], operatorID, times[1..]);
      assert (set id | id in ids) == {ids[0]} + (set id | id in ids[1..]);
    }
  }

  /** What every commit leaves on disk: valid ids and records the encoder accepted. */
  predicate Storable(c: Contents) {
    forall id :: id in c ==> ValidId(id) && EncodablePackage(c[id])
  }

  /** The disk vault's sweep is the in-memory one as long as the clock stays within four-digit years. */
  lemma {:induction false} SweepOnDisk(c: Contents, asOf: Instant, ids: seq<string>, operatorID: string, times: seq<Instant>)
    requires Storable(c) && Distinct(ids) && |times| == |ids|
    requires forall i :: 0 <= i < |ids| ==> ids[i] in ExpiredIds(c, asOf)
    requires forall i :: 0 <= i < |times| ==> Encodable(times[i])
    ensures var (d, replies) := DiskRun(c, Deletions(ids, operatorID, times));
      AllDone(replies) && ExpiredIds(d, asOf) == ExpiredIds(c, asOf) - (set id | id in ids)
    decreases |ids|
  {
    hide DiskApply, MemApply, EncodablePackage, Encodable, ValidId, ExpiredIds, Storable;
    var calls := Deletions(ids, operatorID, times);
    if ids != [] {
      var c1 := DiskApply(c, calls[0].op, calls[0].now).0;
      ListedStored(c, ids[0], asOf);
      DeleteStep(c, ids[0], operatorID, times[0], asOf);
      StorableStep(c, calls[0].op, calls[0].now);
      assert calls[1..] == Deletions(ids[1..], operatorID, times[1..]);
      assert forall i :: 0 <= i < |ids[1..]| ==> ids[1..][i] == ids[i + 1] && ids[i + 1] != ids[0];
      SweepOnDisk(c1, asOf, ids[1..], operatorID, times[1..]);
      assert (set id | id in ids) == {ids[0]} + (set id | id in ids[1..]);
    }
  }

  lemma ListedStored(c: Contents, id: string, asOf: Instant)
    requires Storable(c) && id in ExpiredIds(c, asOf)
    ensures ValidId(id) && EncodablePackage(c[id])
  {
  }

  lemma StorableStep(c: Contents, op: Op, now: Instant)
    requires Storable(c)
    ensures Storable(DiskApply(c, op, now).0)
  {
    hide HashEntry, EncodablePackage, ValidId, Logged;
  }

  /** Every contents the disk vault reaches is storable. */
  lemma {:induction false} DiskStorable(c: Contents, calls: seq<Call>)
    requires Storable(c)
    ensures Storable(DiskRun(c, calls).0)
    decreases |calls|
  {
    hide DiskApply, Storable;
    if calls != [] {
      StorableStep(c, calls[0].op, calls[0].now);
      DiskStorable(DiskApply(c, calls[0].op, calls[0].now).0, calls[1..]);
    }
  }

  // ----- where the vaults part -----

  /** The divergence is visible to callers: holding a deleted package makes the next `Delete` answer differently. */
  lemma DivergenceIsObservable(c: Contents, id: string, operatorID: string, holdRef: string, now: Instant)
    requires ValidId(id) && id in c && IsDeleted(c[id].custody.entries) && !c[id].retention.onLitigationHold
    ensures var calls := [Call(PlaceHold(id, operatorID, holdRef), now), Call(Delete(id, operatorID), now)];
      && DiskRun(c, calls).1 == [Failed(AlreadyDeleted), Failed(AlreadyDeleted)]
      && MemRun(c, calls).1 == [Failed(AlreadyDeleted), Failed(OnHold)]
  {
    var hold, del := Call(PlaceHold(id, operatorID, holdRef), now), Call(Delete(id, operatorID), now);
    var held := c[id := WithHold(c[id], true)];
    assert DiskApply(c, hold.op, now) == (c, Failed(AlreadyDeleted));
    assert DiskApply(c, del.op, now) == (c, Failed(AlreadyDeleted));
    assert MemApply(c, hold.op, now) == (held, Failed(AlreadyDeleted));
    assert MemApply(held, del.op, now) == (held, Failed(OnHold));
    hide DiskApply, MemApply;
    assert [hold, del][1..] == [del];
    assert DiskRun(c, [del]).1 == [Failed(AlreadyDeleted)];
    assert MemRun(held, [del]).1 == [Failed(OnHold)];
  }

  /** Storing, deleting, holding and deleting again, on a package the service could have built. */
  function StoreDeleteHoldDelete(pkg: Package, operatorID: string, now: Instant): seq<Call> {
    [Call(Store(pkg), now), Call(Delete(pkg.id, operatorID), now),
     Call(PlaceHold(pkg.id, operatorID, ""), now), Call(Delete(pkg.id, operatorID), now)]
  }

  /** From two empty vaults four calls are enough to make the vaults differ. */
  lemma DivergenceReached(pkg: Package, operatorID: string, now: Instant)
    requires FreshStore(Store(pkg)) && ValidId(pkg.id) && EncodablePackage(pkg) && Encodable(now)
    ensures var calls := StoreDeleteHoldDelete(pkg, operatorID, now);
      && DiskRun(map[], calls).1 == [Done, Done, Failed(AlreadyDeleted), Failed(AlreadyDeleted)]
      && MemRun(map[], calls).1 == [Done, Done, Failed(AlreadyDeleted), Failed(OnHold)]
  {
    var id, calls := pkg.id, StoreDeleteHoldDelete(pkg, operatorID, now);
    var c1, c2 := DeletedContents(pkg, operatorID, now);
    DivergenceIsObservable(c2, id, operatorID, "", now);
    RunFirst(map[], calls);
    RunFirst(c1, calls[1..]);
    hide DiskApply, MemApply, DiskRun, MemRun, FreshStore, EncodablePackage, Encodable, ValidId, WithHold, Custody.IsDeleted;
    assert calls[1..][1..] == [Call(PlaceHold(id, operatorID, ""), now), Call(Delete(id, operatorID), now)];
    assert DiskRun(map[], calls).1 == [Done] + DiskRun(c1, calls[1..]).1;
    assert MemRun(map[], calls).1 == [Done] + MemRun(c1, calls[1..]).1;
  }

  lemma RunFirst(c: Contents, calls: seq<Call>)
    requires calls != []
    ensures var (d, r) := DiskApply(c, calls[0].op, calls[0].now); DiskRun(c, calls).1 == [r] + DiskRun(d, calls[1..]).1
    ensures var (d, r) := MemApply(c, calls[0].op, calls[0].now); MemRun(c, calls).1 == [r] + MemRun(d, calls[1..]).1
  {
    hide DiskApply, MemApply;
  }

  lemma DeletedContents(pkg: Package, operatorID: string, now: Instant) returns (c1: Contents, c2: Contents)
    requires FreshStore(Store(pkg)) && ValidId(pkg.id) && EncodablePackage(pkg) && Encodable(now)
    ensures DiskApply(map[], Store(pkg), now) == MemApply(map[], Store(pkg), now) == (c1, Done)
    ensures DiskApply(c1, Delete(pkg.id, operatorID), now) == MemApply(c1, Delete(pkg.id, operatorID), now) == (c2, Done)
    ensures pkg.id in c2 && IsDeleted(c2[pkg.id].custody.entries) && !c2[pkg.id].retention.onLitigationHold
  {
    hide HashEntry, Encodable, EncodablePackage, ValidId;
    c1 := map[pkg.id := pkg];
    StepAgreement(map[], Store(pkg), now);
    StepAgreement(c1, Delete(pkg.id, operatorID), now);
    c2 := MemApply(c1, Delete(pkg.id, operatorID), now).0;
  }

  /** The conditions are met, for instance, by any package stored and called for on the first day of year 0. */
  lemma DivergenceWitness(at: Instant) returns (pkg: Package)
    requires 0 <= at < 86_400_000_000_000
    ensures FreshStore(Store(pkg)) && ValidId(pkg.id) && EncodablePackage(pkg) && Encodable(at)
  {
    hide Encodable;
    FirstDayEncodable(at);
    pkg := Package("e", Some([1]), "", RawLog("e", [Genesis("", "", at)]), State(at, Schedule("", 0, 0), None, false));
  }

  // ----- the log is the list of effective calls -----

  /** The part of an entry that comes from the call that caused it. */
  datatype Fact = Fact(action: Action, operatorID: string, purposeRef: string, occurredAt: Instant)

  function FactOf(e: Entry): Fact {
    Fact(e.action, e.operatorID, e.purposeRef, e.occurredAt)
  }

  function FactsOf(entries: seq<Entry>): seq<Fact> {
    seq(|entries|, i requires 0 <= i < |entries| => FactOf(entries[i]))
  }

  function FactsAt(c: Contents, id: string): seq<Fact> {
    if id in c then FactsOf(c[id].custody.entries) else []
  }

  /** Judged by the reply alone: a success, or a package handed out while it was not deleted. */
  predicate TookEffect(reply: Reply) {
    reply == Done || (reply.Found? && !IsDeleted(reply.pkg.custody.entries))
  }

  function FactsOfCall(call: Call): seq<Fact> {
    match call.op
    case Store(pkg) => FactsOf(pkg.custody.entries)
    case Get(_, o, r) => [Fact(Accessed, o, r, call.now)]
    case PlaceHold(_, o, r) => [Fact(HoldPlaced, o, r, call.now)]
    case ReleaseHold(_, o, r) => [Fact(HoldReleased, o, r, call.now)]
    case Delete(_, o) => [Fact(Deleted, o, "retention-expired", call.now)]
  }

  /** What the log of a package should record, computed from the calls and the replies callers saw. */
  function Acknowledged(calls: seq<Call>, replies: seq<Reply>, id: string): seq<Fact>
    requires |calls| == |replies|
    decreases |calls|
  {
    if calls == [] then []
    else
      (if Target(calls[0].op) == id && TookEffect(replies[0]) then FactsOfCall(calls[0]) else [])
      + Acknowledged(calls[1..], replies[1..], id)
  }

  lemma FactsStep(c: Contents, op: Op, now: Instant, id: string)
    ensures var (d, r) := DiskApply(c, op, now);
      FactsAt(d, id) == FactsAt(c, id) + (if Target(op) == id && TookEffect(r) then FactsOfCall(Call(op, now)) else [])
  {
    hide HashEntry, ValidId, EncodablePackage, FactsOf, Logged, Custody.IsDeleted;
    if op.Store? || id !in c {
      assert [] + FactsAt(DiskApply(c, op, now).0, id) == FactsAt(DiskApply(c, op, now).0, id);
    } else {
      var p := c[id];
      match op {
        case Get(_, o, r) => FactsLogged(p, Accessed, o, r, now);
        case PlaceHold(_, o, r) => FactsLogged(WithHold(p, true), HoldPlaced, o, r, now);
        case ReleaseHold(_, o, r) => FactsLogged(WithHold(p, false), HoldReleased, o, r, now);
        case Delete(_, o) => FactsLogged(p, Deleted, o, "retention-expired", now);
      }
    }
  }

  lemma FactsLogged(p: Package, action: Action, operatorID: string, ref: string, now: Instant)
    ensures var q := Logged(p, action, operatorID, ref, now);
      && (q == None <==> IsDeleted(p.custody.entries))
      && (q.Some? ==>
            && FactsOf(q.value.custody.entries) == FactsOf(p.custody.entries) + [Fact(action, operatorID, ref, now)]
            && (IsDeleted(q.value.custody.entries) <==> action == Deleted))
  {
    hide HashEntry;
  }

  /**
   No custody append is lost and none is invented: the log of every package is its initial log followed
   by one entry for each call that took effect, in order, with that call's operator, reference and time.
   */
  lemma {:induction false} LogIsAcknowledgedCalls(c: Contents, calls: seq<Call>, id: string)
    ensures |DiskRun(c, calls).1| == |calls|
    ensures FactsAt(DiskRun(c, calls).0, id) == FactsAt(c, id) + Acknowledged(calls, DiskRun(c, calls).1, id)
    decreases |calls|
  {
    hide DiskApply, FactsAt, FactsOfCall, TookEffect;
    if calls != [] {
      var (c1, r) := DiskApply(c, calls[0].op, calls[0].now);
      FactsStep(c, calls[0].op, calls[0].now, id);
      LogIsAcknowledgedCalls(c1, calls[1..], id);
      assert DiskRun(c, calls).1[1..] == DiskRun(c1, calls[1..]).1;
      assert calls[0] == Call(calls[0].op, calls[0].now);
    }
  }
}
