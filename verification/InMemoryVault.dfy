/** The in-memory vault: a map of mutable packages, each reaching its custody log through a pointer. */
module InMemoryVault {
  import opened Custody
  import Decimal
  import opened Retention
  import opened Rfc3339
  import opened VaultSpec
  import opened Wrappers

  class StoredPackage {
    const id: string
    var ciphertext: Option<seq<bv8>>
    const contentRefHash: string
    const custody: Log
    var retention: State

    constructor (id: string, ciphertext: Option<seq<bv8>>, contentRefHash: string, custody: Log, retention: State)
      ensures this.id == id && this.ciphertext == ciphertext && this.contentRefHash == contentRefHash
      ensures this.custody == custody && this.retention == retention
    {
      this.id := id;
      this.ciphertext := ciphertext;
      this.contentRefHash := contentRefHash;
      this.custody := custody;
      this.retention := retention;
    }

    /** The package's value at this moment. */
    ghost function Snapshot(): Package
      reads this, custody
      requires custody.entries != []
    {
      Package(id, ciphertext, contentRefHash, RawLog(custody.evidenceID, custody.entries), retention)
    }
  }

  class InMemoryVault {
    var packages: map<string, StoredPackage>

    /** The packages and their logs. */
    ghost var Repr: set<object>

    ghost predicate Valid()
      reads this, Repr
    {
      && this !in Repr
      && (forall id :: id in packages ==>
            packages[id] in Repr && packages[id].custody in Repr && packages[id].custody.entries != [])
      && (forall i, j :: i in packages && j in packages && i != j ==>
            packages[i] != packages[j] && packages[i].custody != packages[j].custody)
    }

    ghost function Contents(): Contents
      reads this, Repr
      requires Valid()
    {
      map id | id in packages :: packages[id].Snapshot()
    }

    constructor ()
      ensures Valid() && Contents() == map[] && Repr == {}
    {
      packages := map[];
      Repr := {};
    }

    /** Changing one package and its log changes exactly that entry of the contents. */
    twostate lemma OneChanged(id: string)
      requires old(Valid()) && id in packages && unchanged(this) && packages[id].custody.entries != []
      requires forall k :: k in packages && k != id ==> unchanged(packages[k]) && unchanged(packages[k].custody)
      ensures Valid()
      ensures Contents() == old(Contents())[id := packages[id].Snapshot()]
    {
    }

    /** A package under a new id adds exactly that entry to the contents. */
    twostate lemma OneAdded(id: string, new pkg: StoredPackage)
      requires old(Valid()) && id !in old(packages) && pkg.custody.entries != []
      requires packages == old(packages)[id := pkg] && Repr == old(Repr) + {pkg, pkg.custody} && this !in Repr
      requires pkg !in old(Repr) && pkg.custody !in old(Repr)
      requires forall o :: o in old(Repr) ==> unchanged(o)
      ensures Valid()
      ensures Contents() == old(Contents())[id := pkg.Snapshot()]
    {
      OneAddedValid(id, pkg);
      OthersKept(id, pkg);
    }

    twostate lemma OneAddedValid(id: string, new pkg: StoredPackage)
      requires old(Valid()) && id !in old(packages) && pkg.custody.entries != []
      requires packages == old(packages)[id := pkg] && Repr == old(Repr) + {pkg, pkg.custody} && this !in Repr
      requires pkg !in old(Repr) && pkg.custody !in old(Repr)
      requires forall o :: o in old(Repr) ==> unchanged(o)
      ensures Valid()
    {
      assert forall k :: k in packages && k != id ==> packages[k] == old(packages)[k];
    }

    twostate lemma OthersKept(id: string, new pkg: StoredPackage)
      requires old(Valid()) && Valid() && id !in old(packages) && packages == old(packages)[id := pkg]
      requires forall o :: o in old(Repr) ==> unchanged(o)
      ensures forall k :: k in old(packages) ==> Contents()[k] == old(Contents())[k]
    {
      assert forall k :: k in old(packages) ==>
        packages[k] == old(packages)[k] && packages[k] in old(Repr) && packages[k].custody in old(Repr);
    }

    /**
     The vault keeps its own struct but shares the log the caller passed in. With a log no stored package
     uses this is the specified operation; with one already in use it is accepted all the same, and from
     then on two packages have one log.
     */
    method Store(id: string, ciphertext: Option<seq<bv8>>, contentRefHash: string, custody: Log, retention: State)
      returns (reply: Reply)
      requires Valid() && custody.entries != []
      modifies this
      ensures reply == if id in old(packages) then Failed(AlreadyExists) else Done
      ensures reply != Done ==> unchanged(this)
      ensures reply == Done ==>
        && id in packages && fresh(packages[id]) && packages == old(packages)[id := packages[id]]
        && Repr == old(Repr) + {packages[id], custody} && packages[id].custody == custody
        && packages[id].Snapshot() ==
             Package(id, ciphertext, contentRefHash, RawLog(custody.evidenceID, custody.entries), retention)
      ensures custody !in old(Repr) ==>
        Valid() &&
        var pkg := Package(id, ciphertext, contentRefHash, RawLog(custody.evidenceID, custody.entries), retention);
        (Contents(), reply) == MemApply(old(Contents()), Op.Store(pkg), 0)
    {
      hide NextEntry, WellFormed;
      if id in packages {
        return Failed(AlreadyExists);
      }
      var pkg := new StoredPackage(id, ciphertext, contentRefHash, custody, retention);
      packages := packages[id := pkg];
      Repr := Repr + {pkg, custody};
      if custody !in old(Repr) {
        OneAdded(id, pkg);
      }
      return Done;
    }

    /** The returned struct is a copy, but its custody log is the vault's own. */
    method Get(id: string, operatorID: string, purposeRef: string, now: Instant)
      returns (reply: Reply, copied: StoredPackage?)
      requires Valid()
      modifies Repr
      ensures Valid() && unchanged(this)
      ensures (Contents(), reply) == MemApply(old(Contents()), Op.Get(id, operatorID, purposeRef), now)
      ensures reply.Found? ==>
        && id in packages && copied != null && fresh(copied)
        && copied.custody == packages[id].custody && copied.Snapshot() == reply.pkg
    {
      hide NextEntry, WellFormed;
      if id !in packages {
        return Failed(NotFound), null;
      }
      var pkg := packages[id];
      if !IsDeleted(pkg.custody.entries) {
        var ok := pkg.custody.Append(Accessed, operatorID, purposeRef, now);
        OneChanged(id);
      }
      copied := new StoredPackage(pkg.id, pkg.ciphertext, pkg.contentRefHash, pkg.custody, pkg.retention);
      var entries := pkg.custody.entries;
      reply := Found(Package(pkg.id, pkg.ciphertext, pkg.contentRefHash, RawLog(pkg.custody.evidenceID, entries), pkg.retention));
    }

    method PlaceHold(id: string, operatorID: string, holdRef: string, now: Instant) returns (reply: Reply)
      requires Valid()
      modifies Repr
      ensures Valid() && unchanged(this)
      ensures (Contents(), reply) == MemApply(old(Contents()), Op.PlaceHold(id, operatorID, holdRef), now)
    {
      hide NextEntry, WellFormed;
      if id !in packages {
        return Failed(NotFound);
      }
      var pkg := packages[id];
      pkg.retention := pkg.retention.(onLitigationHold := true);
      var ok := pkg.custody.Append(HoldPlaced, operatorID, holdRef, now);
      OneChanged(id);
      reply := if ok then Done else Failed(AlreadyDeleted);
    }

    method ReleaseHold(id: string, operatorID: string, holdRef: string, now: Instant) returns (reply: Reply)
      requires Valid()
      modifies Repr
      ensures Valid() && unchanged(this)
      ensures (Contents(), reply) == MemApply(old(Contents()), Op.ReleaseHold(id, operatorID, holdRef), now)
    {
      hide NextEntry, WellFormed;
      if id !in packages {
        return Failed(NotFound);
      }
      var pkg := packages[id];
      pkg.retention := pkg.retention.(onLitigationHold := false);
      var ok := pkg.custody.Append(HoldReleased, operatorID, holdRef, now);
      OneChanged(id);
      reply := if ok then Done else Failed(AlreadyDeleted);
    }

    method Delete(id: string, operatorID: string, now: Instant) returns (reply: Reply)
      requires Valid()
      modifies Repr
      ensures Valid() && unchanged(this)
      ensures (Contents(), reply) == MemApply(old(Contents()), Op.Delete(id, operatorID), now)
    {
      hide NextEntry, WellFormed;
      if id !in packages {
        return Failed(NotFound);
      }
      var pkg := packages[id];
      if pkg.retention.onLitigationHold {
        return Failed(Error.OnHold);
      }
      var ok := pkg.custody.Append(Deleted, operatorID, "retention-expired", now);
      if ok {
        pkg.ciphertext := None;
      }
      OneChanged(id);
      reply := if ok then Done else Failed(AlreadyDeleted);
    }

    /** Map iteration order is arbitrary, so only the set of ids and their distinctness is promised. */
    method ListExpired(now: Instant) returns (expired: seq<string>)
      requires Valid()
      ensures (set id | id in expired) == ExpiredIds(Contents(), now)
      ensures forall i, j :: 0 <= i < j < |expired| ==> expired[i] != expired[j]
    {
      hide Custody.HashEntry, State.ExpiresAt;
      expired := [];
      var rest := packages.Keys;
      while rest != {}
        invariant rest <= packages.Keys
        invariant forall id :: id in expired <==> id in ExpiredIds(Contents(), now) && id !in rest
        invariant forall i, j :: 0 <= i < j < |expired| ==> expired[i] != expired[j]
        decreases rest
      {
        var id :| id in rest;
        var pkg := packages[id];
        rest := rest - {id};
        if !IsDeleted(pkg.custody.entries) && pkg.retention.Expired(now) {
          expired := expired + [id];
        }
      }
    }
  }

  /**
   Contrary to the comment in `Get`, a caller can change the canonical log: an entry appended through
   the returned copy is in the vault, exactly when the package was not deleted.
   */
  method AppendThroughCopy(v: InMemoryVault, id: string, operatorID: string, now: Instant)
    requires v.Valid() && id in v.packages
    modifies v.Repr
    ensures v.Valid() && unchanged(v)
    ensures var before, after := old(v.packages[id].custody.entries), v.packages[id].custody.entries;
      && (after != before <==> !IsDeleted(before))
      && (!IsDeleted(before) ==> |after| == |before| + 2 && IsDeleted(after))
  {
    hide Custody.HashEntry, Decimal.Wrap, WellFormed;
    var reply, copied := v.Get(id, operatorID, "", now);
    assert v.Contents()[id].custody.entries == v.packages[id].custody.entries;
    assert old(v.Contents())[id].custody.entries == old(v.packages[id].custody.entries);
    var ok := copied.custody.Append(Deleted, operatorID, "", now);
  }
}
