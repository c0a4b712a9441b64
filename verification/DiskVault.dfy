/** The file-backed vault: every operation reads one record, changes it and replaces the file by a rename. */
module DiskVault {
  import opened Custody
  import opened Decimal
  import opened Retention
  import opened Rfc3339
  import opened Text
  import opened VaultSpec
  import opened Wrappers

  /** A file is a complete record or the remains of an interrupted write. */
  datatype FileContent = Partial | Record(pkg: Package)

  /** Where the operating system fails, if anywhere; after a failed write the temporary file may stay behind. */
  datatype Io = Works | ReadFails | CreateFails | WriteFails(cleaned: bool) | RenameFails(cleaned: bool)

  /** `filepath.Ext(name) == ".json"` */
  predicate IsRecordName(name: string) {
    |name| >= 5 && name[|name| - 5..] == ".json"
  }

  function RecordName(id: string): (name: string)
    ensures IsRecordName(name) && Stem(name) == id
  {
    var name := id + ".json";
    assert name[|name| - 5..] == ".json" && name[..|name| - 5] == id;
    name
  }

  function Stem(name: string): (id: string)
    requires IsRecordName(name)
    ensures id + ".json" == name
  {
    assert name == name[..|name| - 5] + name[|name| - 5..];
    name[..|name| - 5]
  }

  /** `os.CreateTemp(dir, id + ".*.tmp")`: the star becomes a random decimal number. */
  function TempName(id: string, nonce: nat): (name: string)
    ensures !IsRecordName(name)
  {
    var name := id + "." + FormatInt(nonce) + ".tmp";
    assert name[|name| - 5..][4] == 'p';
    name
  }

  /**
   Record files and temporary files of different packages never share a name, so the deferred removal of
   a temporary file by name cannot hit another package's file.
   */
  lemma NamesDistinct(id: string, m: nat, other: string, n: nat)
    ensures RecordName(id) == RecordName(other) <==> id == other
    ensures TempName(id, m) == TempName(other, n) <==> id == other && m == n
    ensures TempName(id, m) != RecordName(other)
  {
    assert Stem(RecordName(id)) == id && Stem(RecordName(other)) == other;
    if TempName(id, m) == TempName(other, n) {
      TempParts(id, FormatInt(m), other, FormatInt(n));
      FormatIntInjective(m, n);
    }
  }

  /**
   What the id check protects: the record of a valid id is a file directly in the vault's directory, a
   single path element on every platform; an id with a slash would lead elsewhere.
   */
  lemma RecordPath(dir: string, id: string)
    ensures LastElement(dir + "/" + RecordName(id)) == RecordName(id) <==> '/' !in id
    ensures ValidId(id) ==>
      && LastElement(dir + "/" + RecordName(id)) == RecordName(id)
      && '/' !in RecordName(id) && '\\' !in RecordName(id) && '\0' !in RecordName(id)
      && RecordName(id) != "." && RecordName(id) != ".."
  {
    var name := RecordName(id);
    assert name == id + ".json" by { assert Stem(name) == id; }
    LastElementSlashFree(dir + "/" + name);
    if '/' !in id {
      LastElementAfter(dir, name);
    }
  }

  lemma TempParts(a: string, b: string, a': string, b': string)
    requires a + "." + b + ".tmp" == a' + "." + b' + ".tmp"
    requires (forall c :: c in b ==> IsDigit(c) || c == '-') && forall c :: c in b' ==> IsDigit(c) || c == '-'
    ensures a == a' && b == b'
  {
    Regroup(a + "." + b, ".", "tmp");
    Regroup(a' + "." + b', ".", "tmp");
    assert ".tmp" == "." + "tmp";
    SplitAtLast(a + "." + b, "tmp", a' + "." + b', "tmp", '.');
    SplitAtLast(a, b, a', b', '.');
  }

  class DiskVault {
    var locks: map<string, bool>
    var files: map<string, FileContent>

    /** No lock is held between operations, and every record file holds the complete package of its name. */
    ghost predicate Valid()
      reads this
    {
      && (forall id :: id in locks ==> !locks[id])
      && RecordsComplete(files)
    }

    ghost function Contents(): Contents
      reads this
      requires Valid()
    {
      ContentsOf(files)
    }

    constructor ()
      ensures Valid() && Contents() == map[]
    {
      locks := map[];
      files := map[];
    }

    /** Takes the per-id lock, creating it on first use. */
    method Lock(id: string)
      requires id in locks ==> !locks[id]
      modifies this`locks
      ensures locks == old(locks)[id := true]
    {
      if id !in locks {
        locks := locks[id := false];
      }
      locks := locks[id := true];
    }

    method Unlock(id: string)
      requires id in locks && locks[id]
      modifies this`locks
      ensures locks == old(locks)[id := false]
    {
      locks := locks[id := false];
    }

    /** Any directory is readable, also one with damaged records; only then can decoding fail. */
    method ReadPkg(id: string, io: Io) returns (r: Result<Package, Error>)
      ensures !ValidId(id) <==> r == Err(InvalidID)
      ensures ValidId(id) && io == ReadFails ==> r == Err(IoFailure)
      ensures ValidId(id) && io != ReadFails ==>
        && (r == Err(NotFound) <==> RecordName(id) !in files)
        && (r == Err(DecodeFailure) <==> RecordName(id) in files && files[RecordName(id)] == Partial)
        && (r.Ok? ==> files[RecordName(id)] == Record(r.value))
      ensures ValidId(id) && io != ReadFails && RecordsComplete(files) ==>
        r == (if id in ContentsOf(files) then Ok(ContentsOf(files)[id]) else Err(NotFound))
    {
      if !ValidId(id) {
        return Err(InvalidID);
      }
      if RecordsComplete(files) {
        ContentsLookup(files, id);
      }
      if io == ReadFails {
        return Err(IoFailure);
      }
      var name := RecordName(id);
      if name !in files {
        return Err(NotFound);
      }
      match files[name] {
        case Record(pkg) => return Ok(pkg);
        case Partial => return Err(DecodeFailure);
      }
    }

    /** Temporary file, write, rename; the record file either keeps its content or gets the whole new one. */
    method WritePkg(pkg: Package, io: Io, nonce: nat) returns (r: Result<(), Error>)
      requires ValidId(pkg.id) && RecordsComplete(files) && TempName(pkg.id, nonce) !in files
      modifies this`files
      ensures RecordsComplete(files)
      ensures WriteEnds(old(ContentsOf(files)), ContentsOf(files), pkg, io, r)
      ensures r.Ok? ==> files == old(files)[RecordName(pkg.id) := Record(pkg)]
      ensures r.Err? ==> files - {TempName(pkg.id, nonce)} == old(files)
      ensures r.Err? && io !in {WriteFails(false), RenameFails(false)} ==> files == old(files)
    {
      hide EncodablePackage, RecordsComplete, ContentsOf, ValidId;
      var name, temp := RecordName(pkg.id), TempName(pkg.id, nonce);
      ghost var was := files;
      if !EncodablePackage(pkg) {
        AbsentKey(was, temp);
        return Err(EncodeFailure);
      }
      if io == CreateFails {
        AbsentKey(was, temp);
        return Err(IoFailure);
      }
      ScratchKeepsContents(was, temp, Partial);
      AddedAndRemoved(was, temp, Partial);
      files := files[temp := Partial];
      if io.WriteFails? {
        if io.cleaned {
          files := files - {temp};
          AbsentKey(was, temp);
        }
        return Err(IoFailure);
      }
      ScratchKeepsContents(was, temp, Record(pkg));
      AddedAndRemoved(was, temp, Record(pkg));
      files := files[temp := Record(pkg)];
      assert files == was[temp := Record(pkg)];
      if io.RenameFails? {
        if io.cleaned {
          files := files - {temp};
          AbsentKey(was, temp);
        }
        return Err(IoFailure);
      }
      RenameCommits(was, pkg);
      files := (files - {temp})[name := files[temp]];
      return Ok(());
    }

    method Store(pkg: Package, io: Io, nonce: nat) returns (reply: Reply)
      requires Valid() && TempName(pkg.id, nonce) !in files
      modifies this
      ensures Valid()
      ensures Outcome(old(Contents()), Contents(), Op.Store(pkg), 0, io, reply)
    {
      hide EncodablePackage, ValidId, RecordsComplete, ContentsOf;
      if !ValidId(pkg.id) {
        return Failed(InvalidID);
      }
      Lock(pkg.id);
      var current := ReadPkg(pkg.id, io);
      if current.Ok? {
        reply := Failed(AlreadyExists);
      } else if current.error != NotFound {
        reply := Failed(current.error);
      } else {
        var w := WritePkg(pkg, io, nonce);
        reply := if w.Ok? then Done else Failed(w.error);
      }
      Unlock(pkg.id);
    }

    method Get(id: string, operatorID: string, purposeRef: string, now: Instant, io: Io, nonce: nat)
      returns (reply: Reply)
      requires Valid() && TempName(id, nonce) !in files
      modifies this
      ensures Valid()
      ensures Outcome(old(Contents()), Contents(), Op.Get(id, operatorID, purposeRef), now, io, reply)
    {
      hide EncodablePackage, ValidId, RecordsComplete, ContentsOf, NextEntry, WellFormed, Outcome, WriteEnds;
      ghost var c := Contents();
      ghost var op := Op.Get(id, operatorID, purposeRef);
      if !ValidId(id) {
        InvalidOutcome(c, op, now, io);
        return Failed(InvalidID);
      }
      Lock(id);
      var current := ReadPkg(id, io);
      if current.Err? {
        UnreadOutcome(c, op, now, io, current.error);
        reply := Failed(current.error);
      } else {
        var pkg := current.value;
        RecordsKeyed(files, id);
        if IsDeleted(pkg.custody.entries) {
          UnwrittenOutcome(c, op, now, io, Found(pkg));
          reply := Found(pkg);
        } else {
          var log := new Log.Decoded(pkg.custody.evidenceID, pkg.custody.entries);
          var ok := log.Append(Accessed, operatorID, purposeRef, now);
          var changed := pkg.(custody := RawLog(log.evidenceID, log.entries));
          var w := WritePkg(changed, io, nonce);
          WrittenOutcome(c, ContentsOf(files), op, now, io, changed, Found(changed), w);
          reply := if w.Ok? then Found(changed) else Failed(w.error);
        }
      }
      Unlock(id);
    }

    method PlaceHold(id: string, operatorID: string, holdRef: string, now: Instant, io: Io, nonce: nat)
      returns (reply: Reply)
      requires Valid() && TempName(id, nonce) !in files
      modifies this
      ensures Valid()
      ensures Outcome(old(Contents()), Contents(), Op.PlaceHold(id, operatorID, holdRef), now, io, reply)
    {
      hide EncodablePackage, ValidId, RecordsComplete, ContentsOf, NextEntry, WellFormed, Outcome, WriteEnds;
      ghost var c := Contents();
      ghost var op := Op.PlaceHold(id, operatorID, holdRef);
      if !ValidId(id) {
        InvalidOutcome(c, op, now, io);
        return Failed(InvalidID);
      }
      Lock(id);
      var current := ReadPkg(id, io);
      if current.Err? {
        UnreadOutcome(c, op, now, io, current.error);
        reply := Failed(current.error);
      } else {
        RecordsKeyed(files, id);
        var pkg := current.value.(retention := current.value.retention.(onLitigationHold := true));
        var log := new Log.Decoded(pkg.custody.evidenceID, pkg.custody.entries);
        var ok := log.Append(HoldPlaced, operatorID, holdRef, now);
        if ok {
          var changed := pkg.(custody := RawLog(log.evidenceID, log.entries));
          var w := WritePkg(changed, io, nonce);
          WrittenOutcome(c, ContentsOf(files), op, now, io, changed, Done, w);
          reply := if w.Ok? then Done else Failed(w.error);
        } else {
          UnwrittenOutcome(c, op, now, io, Failed(AlreadyDeleted));
          reply := Failed(AlreadyDeleted);
        }
      }
      Unlock(id);
    }

    method ReleaseHold(id: string, operatorID: string, holdRef: string, now: Instant, io: Io, nonce: nat)
      returns (reply: Reply)
      requires Valid() && TempName(id, nonce) !in files
      modifies this
      ensures Valid()
      ensures Outcome(old(Contents()), Contents(), Op.ReleaseHold(id, operatorID, holdRef), now, io, reply)
    {
      hide EncodablePackage, ValidId, RecordsComplete, ContentsOf, NextEntry, WellFormed, Outcome, WriteEnds;
      ghost var c := Contents();
      ghost var op := Op.ReleaseHold(id, operatorID, holdRef);
      if !ValidId(id) {
        InvalidOutcome(c, op, now, io);
        return Failed(InvalidID);
      }
      Lock(id);
      var current := ReadPkg(id, io);
      if current.Err? {
        UnreadOutcome(c, op, now, io, current.error);
        reply := Failed(current.error);
      } else {
        RecordsKeyed(files, id);
        var pkg := current.value.(retention := current.value.retention.(onLitigationHold := false));
        var log := new Log.Decoded(pkg.custody.evidenceID, pkg.custody.entries);
        var ok := log.Append(HoldReleased, operatorID, holdRef, now);
        if ok {
          var changed := pkg.(custody := RawLog(log.evidenceID, log.entries));
          var w := WritePkg(changed, io, nonce);
          WrittenOutcome(c, ContentsOf(files), op, now, io, changed, Done, w);
          reply := if w.Ok? then Done else Failed(w.error);
        } else {
          UnwrittenOutcome(c, op, now, io, Failed(AlreadyDeleted));
          reply := Failed(AlreadyDeleted);
        }
      }
      Unlock(id);
    }

    method Delete(id: string, operatorID: string, now: Instant, io: Io, nonce: nat) returns (reply: Reply)
      requires Valid() && TempName(id, nonce) !in files
      modifies this
      ensures Valid()
      ensures Outcome(old(Contents()), Contents(), Op.Delete(id, operatorID), now, io, reply)
    {
      hide EncodablePackage, ValidId, RecordsComplete, ContentsOf, NextEntry, WellFormed, Outcome, WriteEnds;
      ghost var c := Contents();
      ghost var op := Op.Delete(id, operatorID);
      if !ValidId(id) {
        InvalidOutcome(c, op, now, io);
        return Failed(InvalidID);
      }
      Lock(id);
      var current := ReadPkg(id, io);
      if current.Err? {
        UnreadOutcome(c, op, now, io, current.error);
        reply := Failed(current.error);
      } else if current.value.retention.onLitigationHold {
        UnwrittenOutcome(c, op, now, io, Failed(Error.OnHold));
        reply := Failed(Error.OnHold);
      } else {
        RecordsKeyed(files, id);
        var pkg := current.value;
        var log := new Log.Decoded(pkg.custody.evidenceID, pkg.custody.entries);
        var ok := log.Append(Deleted, operatorID, "retention-expired", now);
        if ok {
          var changed := pkg.(custody := RawLog(log.evidenceID, log.entries), ciphertext := None);
          var w := WritePkg(changed, io, nonce);
          WrittenOutcome(c, ContentsOf(files), op, now, io, changed, Done, w);
          reply := if w.Ok? then Done else Failed(w.error);
        } else {
          UnwrittenOutcome(c, op, now, io, Failed(AlreadyDeleted));
          reply := Failed(AlreadyDeleted);
        }
      }
      Unlock(id);
    }

    /** Scans the directory without taking any lock. Temporary and other files are skipped by name. */
    method ListExpired(now: Instant) returns (expired: seq<string>)
      requires Valid()
      ensures (set id | id in expired) == ExpiredIds(Contents(), now)
      ensures forall i, j :: 0 <= i < j < |expired| ==> expired[i] != expired[j]
    {
      hide State.ExpiresAt, ContentsOf;
      expired := [];
      var rest := files.Keys;
      forall id | id in ExpiredIds(Contents(), now) ensures RecordName(id) in rest {
        ContentsLookup(files, id);
      }
      while rest != {}
        invariant rest <= files.Keys
        invariant forall id :: id in expired <==> id in ExpiredIds(Contents(), now) && RecordName(id) !in rest
        invariant forall i, j :: 0 <= i < j < |expired| ==> expired[i] != expired[j]
        decreases rest
      {
        var name :| name in rest;
        rest := rest - {name};
        if IsRecordName(name) {
          var id := Stem(name);
          ContentsLookup(files, id);
          var r := ReadPkg(id, Works);
          if r.Ok? && !IsDeleted(r.value.custody.entries) && r.value.retention.Expired(now) {
            expired := expired + [id];
          }
        }
      }
    }
  }

  // ----- files and contents -----

  predicate RecordsComplete(files: map<string, FileContent>) {
    forall name :: name in files && IsRecordName(name) ==>
      files[name].Record? && files[name].pkg.id == Stem(name) && ValidId(Stem(name)) && EncodablePackage(files[name].pkg)
  }

  /** The packages the record files hold, by id. */
  function ContentsOf(files: map<string, FileContent>): Contents
    requires RecordsComplete(files)
  {
    map name | name in files && IsRecordName(name) :: Stem(name) := files[name].pkg
  }

  /** The operating system fails this call: it could not read the record, or could not write the one it had to write. */
  predicate FailsAt(before: Contents, op: Op, now: Instant, io: Io) {
    && ValidId(Target(op))
    && (io == ReadFails || (io != Works && DiskEffect(op, now, Lookup(before, Target(op))).write.Some?))
  }

  /**
   A call has the outcome the specification gives, unless the operating system fails it; then it says so and
   no package has changed. A failure it never gets to does not matter.
   */
  predicate Outcome(before: Contents, after: Contents, op: Op, now: Instant, io: Io, reply: Reply) {
    (after, reply) == if FailsAt(before, op, now, io) then (before, Failed(IoFailure)) else DiskApply(before, op, now)
  }

  /** How a write ends, by what was to be written and where the operating system failed. */
  predicate WriteEnds(before: Contents, after: Contents, pkg: Package, io: Io, r: Result<(), Error>) {
    && (r.Ok? ==> EncodablePackage(pkg) && after == before[pkg.id := pkg])
    && (r.Err? ==> after == before)
    && (!EncodablePackage(pkg) ==> r == Err(EncodeFailure))
    && (EncodablePackage(pkg) ==> r == (if io in {Works, ReadFails} then Ok(()) else Err(IoFailure)))
  }

  lemma InvalidOutcome(c: Contents, op: Op, now: Instant, io: Io)
    requires !ValidId(Target(op))
    ensures Outcome(c, c, op, now, io, Failed(InvalidID))
  {
    hide ValidId;
  }

  /** Passing on why the record could not be read is the specified outcome. */
  lemma UnreadOutcome(c: Contents, op: Op, now: Instant, io: Io, error: Error)
    requires ValidId(Target(op)) && !op.Store?
    requires if io == ReadFails then error == IoFailure else Target(op) !in c && error == NotFound
    ensures Outcome(c, c, op, now, io, Failed(error))
  {
    hide ValidId;
  }

  lemma UnwrittenOutcome(c: Contents, op: Op, now: Instant, io: Io, reply: Reply)
    requires ValidId(Target(op)) && Target(op) in c && io != ReadFails
    requires DiskEffect(op, now, Some(c[Target(op)])) == Effect(None, reply)
    ensures Outcome(c, c, op, now, io, reply)
  {
    hide ValidId, DiskEffect;
  }

  /** Writing what the specification commits, and answering by how the write ended, is the specified outcome. */
  lemma WrittenOutcome(before: Contents, after: Contents, op: Op, now: Instant, io: Io,
                       changed: Package, done: Reply, w: Result<(), Error>)
    requires ValidId(Target(op)) && Target(op) in before && changed.id == Target(op) && io != ReadFails
    requires DiskEffect(op, now, Some(before[Target(op)])) == Commit(changed, done)
    requires WriteEnds(before, after, changed, io, w)
    ensures Outcome(before, after, op, now, io, if w.Ok? then done else Failed(w.error))
  {
    hide ValidId, DiskEffect, EncodablePackage;
  }

  lemma ContentsLookup(files: map<string, FileContent>, id: string)
    requires RecordsComplete(files)
    ensures id in ContentsOf(files) <==> RecordName(id) in files
    ensures id in ContentsOf(files) ==> files[RecordName(id)] == Record(ContentsOf(files)[id])
  {
    hide ValidId, EncodablePackage;
    var name := RecordName(id);
    assert IsRecordName(name) && Stem(name) == id;
    if id in ContentsOf(files) {
      var n :| n in files && IsRecordName(n) && Stem(n) == id && ContentsOf(files)[id] == files[n].pkg;
      assert n == name;
    }
  }

  lemma RecordsKeyed(files: map<string, FileContent>, id: string)
    requires RecordsComplete(files) && id in ContentsOf(files)
    ensures ContentsOf(files)[id].id == id
  {
    hide ValidId, EncodablePackage;
    ContentsLookup(files, id);
  }

  lemma ScratchKeepsContents(files: map<string, FileContent>, temp: string, content: FileContent)
    requires RecordsComplete(files) && !IsRecordName(temp)
    ensures RecordsComplete(files[temp := content])
    ensures ContentsOf(files[temp := content]) == ContentsOf(files)
  {
    SameRecords(files, files[temp := content]);
  }

  lemma AddedAndRemoved<K, V>(m: map<K, V>, k: K, v: V)
    requires k !in m
    ensures m[k := v] - {k} == m
  {
  }

  lemma AbsentKey<K, V>(m: map<K, V>, k: K)
    requires k !in m
    ensures m - {k} == m
  {
  }

  lemma SameRecords(files: map<string, FileContent>, other: map<string, FileContent>)
    requires RecordsComplete(files)
    requires forall name :: IsRecordName(name) ==> (name in files <==> name in other) && (name in files ==> files[name] == other[name])
    ensures RecordsComplete(other) && ContentsOf(other) == ContentsOf(files)
  {
    hide ValidId, EncodablePackage;
    assert RecordsComplete(other);
    hide ContentsOf;
    forall id
      ensures id in ContentsOf(other) <==> id in ContentsOf(files)
      ensures id in ContentsOf(files) ==> ContentsOf(other)[id] == ContentsOf(files)[id]
    {
      ContentsLookup(files, id);
      ContentsLookup(other, id);
    }
  }

  lemma RenameCommits(files: map<string, FileContent>, pkg: Package)
    requires RecordsComplete(files) && ValidId(pkg.id) && EncodablePackage(pkg)
    ensures var after := files[RecordName(pkg.id) := Record(pkg)];
      RecordsComplete(after) && ContentsOf(after) == ContentsOf(files)[pkg.id := pkg]
  {
    hide ValidId, EncodablePackage;
    var after := files[RecordName(pkg.id) := Record(pkg)];
    assert RecordsComplete(after);
    hide ContentsOf;
    forall id
      ensures id in ContentsOf(after) <==> id in ContentsOf(files)[pkg.id := pkg]
      ensures id in ContentsOf(after) ==> ContentsOf(after)[id] == ContentsOf(files)[pkg.id := pkg][id]
    {
      ContentsLookup(files, id);
      ContentsLookup(after, id);
    }
  }
}
