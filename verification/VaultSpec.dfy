/**
 The two vaults as functions on values: one evidence package, one operation, one clock reading. The
 classes in InMemoryVault and DiskVault are proved against these functions.
 */
module VaultSpec {
  import opened Custody
  import opened Retention
  import opened Rfc3339
  import opened Wrappers

  /** Custody logs start from a genesis entry; `Append` and the chain assume one is there. */
  datatype RawLog = RawLog(evidenceID: string, entries: seq<Entry>)
  type LogValue = l: RawLog | l.entries != [] witness RawLog("", [Genesis("", "", 0)])

  /** `Ciphertext` is a byte slice whose nil value marks a deleted package. */
  datatype Package = Package(
    id: string,
    ciphertext: Option<seq<bv8>>,
    contentRefHash: string,
    custody: LogValue,
    retention: State)

  datatype Error = AlreadyExists | NotFound | OnHold | InvalidID | AlreadyDeleted | EncodeFailure | DecodeFailure | IoFailure

  datatype Reply = Done | Found(pkg: Package) | Failed(error: Error)

  datatype Op =
    | Store(pkg: Package)
    | Get(id: string, operatorID: string, purposeRef: string)
    | PlaceHold(id: string, operatorID: string, holdRef: string)
    | ReleaseHold(id: string, operatorID: string, holdRef: string)
    | Delete(id: string, operatorID: string)

  function Target(op: Op): string {
    if op.Store? then op.pkg.id else op.id
  }

  /** What one operation does to one package: the record it commits, if any, and its reply. */
  datatype Effect = Effect(write: Option<Package>, reply: Reply)

  function Logged(p: Package, action: Action, operatorID: string, ref: string, now: Instant): Option<Package> {
    match Appended(p.custody.entries, action, operatorID, ref, now)
    case None => None
    case Some(entries) => Some(p.(custody := RawLog(p.custody.evidenceID, entries)))
  }

  /** Years outside 0..9999 make the JSON encoder refuse a record. */
  predicate EncodablePackage(p: Package) {
    && (forall i :: 0 <= i < |p.custody.entries| ==> Encodable(p.custody.entries[i].occurredAt))
    && Encodable(p.retention.storedAt)
    && (p.retention.preservationEnd.Some? ==> Encodable(p.retention.preservationEnd.value))
  }

  /** The times a record holds. */
  predicate HoldsTime(p: Package, t: Instant) {
    || (exists i :: 0 <= i < |p.custody.entries| && p.custody.entries[i].occurredAt == t)
    || t == p.retention.storedAt
    || Some(t) == p.retention.preservationEnd
  }

  /** A record encodes exactly when every time in it has a four-digit year. */
  lemma EncodableRecord(p: Package)
    ensures EncodablePackage(p) <==> forall t :: HoldsTime(p, t) ==> 0 <= YearOf(t) <= 9999
  {
    hide YearOf;
    if forall t :: HoldsTime(p, t) ==> 0 <= YearOf(t) <= 9999 {
      assert HoldsTime(p, p.retention.storedAt);
      assert p.retention.preservationEnd.Some? ==> HoldsTime(p, p.retention.preservationEnd.value);
      assert forall i :: 0 <= i < |p.custody.entries| ==> HoldsTime(p, p.custody.entries[i].occurredAt);
    }
  }

  /** The disk vault commits a changed record only after every check passed and the record encoded. */
  function Commit(p: Package, reply: Reply): Effect {
    if EncodablePackage(p) then Effect(Some(p), reply) else Effect(None, Failed(EncodeFailure))
  }

  function WithHold(p: Package, held: bool): Package {
    p.(retention := p.retention.(onLitigationHold := held))
  }

  function DiskEffect(op: Op, now: Instant, current: Option<Package>): Effect {
    if op.Store? then
      if current.Some? then Effect(None, Failed(AlreadyExists)) else Commit(op.pkg, Done)
    else if current.None? then Effect(None, Failed(NotFound))
    else
      var p := current.value;
      match op
      case Get(_, operatorID, purposeRef) =>
        (match Logged(p, Accessed, operatorID, purposeRef, now)
         case None => Effect(None, Found(p))
         case Some(q) => Commit(q, Found(q)))
      case PlaceHold(_, operatorID, holdRef) =>
        (match Logged(WithHold(p, true), HoldPlaced, operatorID, holdRef, now)
         case None => Effect(None, Failed(AlreadyDeleted))
         case Some(q) => Commit(q, Done))
      case ReleaseHold(_, operatorID, holdRef) =>
        (match Logged(WithHold(p, false), HoldReleased, operatorID, holdRef, now)
         case None => Effect(None, Failed(AlreadyDeleted))
         case Some(q) => Commit(q, Done))
      case Delete(_, operatorID) =>
        if p.retention.onLitigationHold then Effect(None, Failed(OnHold))
        else
          (match Logged(p, Deleted, operatorID, "retention-expired", now)
           case None => Effect(None, Failed(AlreadyDeleted))
           case Some(q) => Commit(q.(ciphertext := None), Done))
  }

  /** In memory the hold flag is already changed when the log refuses the entry. */
  function MemEffect(op: Op, now: Instant, current: Option<Package>): Effect {
    if op.Store? then
      if current.Some? then Effect(None, Failed(AlreadyExists)) else Effect(Some(op.pkg), Done)
    else if current.None? then Effect(None, Failed(NotFound))
    else
      var p := current.value;
      match op
      case Get(_, operatorID, purposeRef) =>
        (match Logged(p, Accessed, operatorID, purposeRef, now)
         case None => Effect(None, Found(p))
         case Some(q) => Effect(Some(q), Found(q)))
      case PlaceHold(_, operatorID, holdRef) =>
        (match Logged(WithHold(p, true), HoldPlaced, operatorID, holdRef, now)
         case None => Effect(Some(WithHold(p, true)), Failed(AlreadyDeleted))
         case Some(q) => Effect(Some(q), Done))
      case ReleaseHold(_, operatorID, holdRef) =>
        (match Logged(WithHold(p, false), HoldReleased, operatorID, holdRef, now)
         case None => Effect(Some(WithHold(p, false)), Failed(AlreadyDeleted))
         case Some(q) => Effect(Some(q), Done))
      case Delete(_, operatorID) =>
        if p.retention.onLitigationHold then Effect(None, Failed(OnHold))
        else
          (match Logged(p, Deleted, operatorID, "retention-expired", now)
           case None => Effect(None, Failed(AlreadyDeleted))
           case Some(q) => Effect(Some(q.(ciphertext := None)), Done))
  }

  // ----- whole vaults -----

  type Contents = map<string, Package>

  function Lookup(c: Contents, id: string): Option<Package> {
    if id in c then Some(c[id]) else None
  }

  function Commits(c: Contents, id: string, e: Effect): Contents {
    if e.write.Some? then c[id := e.write.value] else c
  }

  /** Ids `pathFor` accepts: a single path element on every platform. */
  predicate ValidId(id: string) {
    id != "" && id != "." && id != ".." && '/' !in id && '\\' !in id && '\0' !in id
  }

  /** What follows the last slash. */
  function LastElement(path: string): string {
    if path == "" || path[|path| - 1] == '/' then ""
    else LastElement(path[..|path| - 1]) + [path[|path| - 1]]
  }

  function StripSlashes(path: string): string {
    if path != "" && path[|path| - 1] == '/' then StripSlashes(path[..|path| - 1]) else path
  }

  /** `filepath.Base` */
  function Base(path: string): string {
    if path == "" then "."
    else
      var element := LastElement(StripSlashes(path));
      if element == "" then "/" else element
  }

  /** The guard of `pathFor`, check by check. */
  predicate PathForAccepts(id: string) {
    && !(id == "" || id != Base(id) || id == "." || id == "..")
    && forall c :: c in id ==> !(c == '/' || c == '\\' || c == '\0')
  }

  lemma {:induction false} LastElementWhole(name: string)
    requires '/' !in name
    ensures LastElement(name) == name
  {
    if name != "" {
      assert name == name[..|name| - 1] + [name[|name| - 1]];
      LastElementWhole(name[..|name| - 1]);
    }
  }

  /** The guard says no more than this: some name, not a dot name, without a separator. */
  lemma ValidIdIsGuard(id: string)
    ensures ValidId(id) <==> PathForAccepts(id)
  {
    if '/' !in id {
      LastElementWhole(id);
      hide LastElement;
    }
  }

  lemma {:induction false} LastElementAfter(dir: string, name: string)
    requires '/' !in name
    ensures LastElement(dir + "/" + name) == name
    decreases |name|
  {
    var path := dir + "/" + name;
    if name != "" {
      var n := |name| - 1;
      assert path[..|path| - 1] == dir + "/" + name[..n] && name == name[..n] + [name[n]];
      LastElementAfter(dir, name[..n]);
    }
  }

  lemma {:induction false} LastElementSlashFree(path: string)
    ensures '/' !in LastElement(path)
  {
    if path != "" && path[|path| - 1] != '/' {
      LastElementSlashFree(path[..|path| - 1]);
    }
  }

  function DiskApply(c: Contents, op: Op, now: Instant): (Contents, Reply) {
    if !ValidId(Target(op)) then (c, Failed(InvalidID))
    else
      var e := DiskEffect(op, now, Lookup(c, Target(op)));
      (Commits(c, Target(op), e), e.reply)
  }

  function MemApply(c: Contents, op: Op, now: Instant): (Contents, Reply) {
    var e := MemEffect(op, now, Lookup(c, Target(op)));
    (Commits(c, Target(op), e), e.reply)
  }

  /** Ids past their retention and not deleted. */
  function ExpiredIds(c: Contents, now: Instant): set<string> {
    set id | id in c && !IsDeleted(c[id].custody.entries) && c[id].retention.Expired(now)
  }

  /** Packages sit under their own id. */
  predicate Keyed(c: Contents) {
    forall id :: id in c ==> c[id].id == id
  }

  datatype Call = Call(op: Op, now: Instant)
}
