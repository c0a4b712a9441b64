/** The append-only custody log of one evidence package and its prior-entry hash chain. */
module Custody {
  import opened Decimal
  import opened Rfc3339
  import opened Text
  import opened Wrappers

  datatype Action = Stored | Accessed | HoldPlaced | HoldReleased | Deleted

  function ActionText(a: Action): string {
    match a
    case Stored => "stored"
    case Accessed => "accessed"
    case HoldPlaced => "hold-placed"
    case HoldReleased => "hold-released"
    case Deleted => "deleted"
  }

  datatype Entry = Entry(
    sequence: int64,
    action: Action,
    operatorID: string,
    purposeRef: string,
    occurredAt: Instant,
    priorEntryHash: string)

  function HashEntry(e: Entry): string {
    e.operatorID + "|" + ActionText(e.action) + "|" + Format(e.occurredAt) + "|" + Itoa(e.sequence)
  }

  function Genesis(operatorID: string, purposeRef: string, at: Instant): Entry {
    Entry(0, Stored, operatorID, purposeRef, at, "")
  }

  /** The entry `Append` adds after `prior`. */
  function NextEntry(prior: Entry, action: Action, operatorID: string, purposeRef: string, at: Instant): Entry {
    Entry(Wrap(prior.sequence + 1), action, operatorID, purposeRef, at, HashEntry(prior))
  }

  predicate IsDeleted(entries: seq<Entry>) {
    entries != [] && entries[|entries| - 1].action == Deleted
  }

  /** The log after `Append`, or nothing when it already ends in a deletion. */
  function Appended(entries: seq<Entry>, action: Action, operatorID: string, purposeRef: string, at: Instant):
    (r: Option<seq<Entry>>)
    requires entries != []
  {
    if IsDeleted(entries) then None
    else Some(entries + [NextEntry(entries[|entries| - 1], action, operatorID, purposeRef, at)])
  }

  /** Whether the most recent hold action is a placement. */
  predicate OnHold(entries: seq<Entry>) {
    entries != [] &&
    var last := entries[|entries| - 1].action;
    last == HoldPlaced || (last != HoldReleased && OnHold(entries[..|entries| - 1]))
  }

  predicate LinkedAt(entries: seq<Entry>, i: int)
    requires 0 < i < |entries|
  {
    entries[i].priorEntryHash == HashEntry(entries[i - 1])
  }

  /** What `Verify` accepts. */
  predicate Verifies(entries: seq<Entry>) {
    forall i :: 0 < i < |entries| ==> LinkedAt(entries, i)
  }

  datatype Verdict = Intact | BrokenAt(sequence: string)

  /** The custody log as the vaults hold it: a mutable object reached through a pointer. */
  class Log {
    const evidenceID: string
    var entries: seq<Entry>

    /** `NewLog` */
    constructor (evidenceID: string, operatorID: string, purposeRef: string, at: Instant)
      ensures this.evidenceID == evidenceID
      ensures entries == [Genesis(operatorID, purposeRef, at)] == [Entry(0, Stored, operatorID, purposeRef, at, "")]
      ensures WellFormed(entries) && !OnHold(entries)
    {
      this.evidenceID := evidenceID;
      entries := [Genesis(operatorID, purposeRef, at)];
      new;
      assert entries[..0] == [];
    }

    /** A log as decoded from a stored record. */
    constructor Decoded(evidenceID: string, entries: seq<Entry>)
      ensures this.evidenceID == evidenceID && this.entries == entries
    {
      this.evidenceID := evidenceID;
      this.entries := entries;
    }

    method Append(action: Action, operatorID: string, purposeRef: string, at: Instant) returns (ok: bool)
      requires entries != []
      modifies this`entries
      ensures ok <==> !IsDeleted(old(entries))
      ensures ok ==> entries == old(entries) + [NextEntry(old(entries)[|old(entries)| - 1], action, operatorID, purposeRef, at)]
      ensures !ok ==> entries == old(entries)
      ensures old(WellFormed(entries)) ==> WellFormed(entries)
    {
      hide HashEntry, Wrap;
      if |entries| > 0 && entries[|entries| - 1].action == Deleted {
        return false;
      }
      var prior := entries[|entries| - 1];
      if WellFormed(entries) {
        AppendKeepsWellFormed(entries, action, operatorID, purposeRef, at);
      }
      entries := entries + [Entry(Wrap(prior.sequence + 1), action, operatorID, purposeRef, at, HashEntry(prior))];
      ok := true;
    }

    method IsOnHold() returns (held: bool)
      ensures held <==> OnHold(entries)
    {
      var i := |entries| - 1;
      assert entries[..|entries|] == entries;
      while i >= 0
        invariant -1 <= i < |entries|
        invariant OnHold(entries) == OnHold(entries[..i + 1])
      {
        match entries[i].action {
          case HoldPlaced =>
            return true;
          case HoldReleased =>
            return false;
          case _ =>
            assert entries[..i + 1][..i] == entries[..i];
        }
        i := i - 1;
      }
      return false;
    }

    /** Reports the first link that does not hold, naming the entry by its sequence number. */
    method Verify() returns (v: Verdict)
      ensures v == Intact <==> Verifies(entries)
      ensures v.BrokenAt? ==>
        exists i :: 0 < i < |entries| && !LinkedAt(entries, i) && Verifies(entries[..i])
                    && v.sequence == Itoa(entries[i].sequence)
    {
      hide HashEntry, Itoa;
      var i := 1;
      while i < |entries|
        invariant 1 <= i
        invariant entries != [] ==> i <= |entries| && Verifies(entries[..i])
      {
        var expected := HashEntry(entries[i - 1]);
        if entries[i].priorEntryHash != expected {
          assert !LinkedAt(entries, i);
          var text := ComputeItoa(entries[i].sequence);
          return BrokenAt(text);
        }
        ExtendVerified(entries, i);
        i := i + 1;
      }
      if entries != [] {
        assert entries[..|entries|] == entries;
      }
      return Intact;
    }
  }

  lemma ExtendVerified(entries: seq<Entry>, i: nat)
    requires 0 < i < |entries| && Verifies(entries[..i]) && LinkedAt(entries, i)
    ensures Verifies(entries[..i + 1])
  {
    hide HashEntry;
    var longer := entries[..i + 1];
    forall j | 0 < j < |longer|
      ensures LinkedAt(longer, j)
    {
      if j < i {
        assert LinkedAt(entries[..i], j);
      }
    }
  }

  // ----- what every append keeps -----

  /**
   The shape of every log grown from a genesis entry: the chain verifies, sequence numbers are the
   positions, and a deletion can only be the last entry.
   */
  predicate WellFormed(entries: seq<Entry>) {
    && entries != []
    && entries[0].action == Stored
    && Verifies(entries)
    && (forall i :: 0 <= i < |entries| ==> entries[i].sequence == Wrap(i))
    && (forall i :: 0 <= i < |entries| - 1 ==> entries[i].action != Deleted)
  }

  lemma AppendKeepsWellFormed(entries: seq<Entry>, action: Action, operatorID: string, purposeRef: string, at: Instant)
    requires WellFormed(entries) && !IsDeleted(entries)
    ensures WellFormed(entries + [NextEntry(entries[|entries| - 1], action, operatorID, purposeRef, at)])
  {
    hide HashEntry, Wrap;
    var n := |entries|;
    var e := NextEntry(entries[n - 1], action, operatorID, purposeRef, at);
    WrapSuccessor(n - 1);
    AppendKeepsVerifies(entries, e);
  }

  lemma AppendKeepsVerifies(entries: seq<Entry>, e: Entry)
    requires entries != [] && Verifies(entries) && e.priorEntryHash == HashEntry(entries[|entries| - 1])
    ensures Verifies(entries + [e])
  {
    hide HashEntry;
    var grown := entries + [e];
    forall i | 0 < i < |grown|
      ensures LinkedAt(grown, i)
    {
      if i < |entries| {
        assert LinkedAt(entries, i);
      }
    }
  }

  lemma WrapSuccessor(n: nat)
    ensures Wrap(Wrap(n) + 1) == Wrap(n + 1)
  {
  }

  /** Appending moves the hold state exactly as the action says. */
  lemma HoldAfterAppend(entries: seq<Entry>, e: Entry)
    ensures OnHold(entries + [e]) <==>
      e.action == HoldPlaced || (e.action != HoldReleased && OnHold(entries))
  {
    assert (entries + [e])[..|entries|] == entries;
  }

  // ----- tamper evidence -----

  /** The four fields the hash covers; `PurposeRef` and the stored hash itself are not among them. */
  predicate SameCovered(e: Entry, f: Entry) {
    e.operatorID == f.operatorID && e.action == f.action && e.occurredAt == f.occurredAt && e.sequence == f.sequence
  }

  lemma ActionTextChars(a: Action)
    ensures '|' !in ActionText(a)
  {
  }

  lemma ActionTextInjective(a: Action, b: Action)
    requires ActionText(a) == ActionText(b)
    ensures a == b
  {
    assert |ActionText(Stored)| == 6 && |ActionText(Accessed)| == 8 && |ActionText(HoldPlaced)| == 11;
    assert |ActionText(HoldReleased)| == 13 && |ActionText(Deleted)| == 7;
  }

  /** Only the leading field of a joined record may contain the separator. */
  lemma FieldsFromTheRight(a: string, b: string, c: string, d: string, a': string, b': string, c': string, d': string)
    requires a + "|" + b + "|" + c + "|" + d == a' + "|" + b' + "|" + c' + "|" + d'
    requires '|' !in b && '|' !in c && '|' !in d && '|' !in b' && '|' !in c' && '|' !in d'
    ensures a == a' && b == b' && c == c' && d == d'
  {
    SplitAtLast(a + "|" + b + "|" + c, d, a' + "|" + b' + "|" + c', d', '|');
    SplitAtLast(a + "|" + b, c, a' + "|" + b', c', '|');
    SplitAtLast(a, b, a', b', '|');
  }

  /**
   Read from the right, the text is the sequence number, the instant and the action; what is left is the
   operator, split at any separators of its own.
   */
  lemma HashEntryFields(e: Entry)
    ensures Split(HashEntry(e), '|') ==
      Split(e.operatorID, '|') + [ActionText(e.action), Format(e.occurredAt), Itoa(e.sequence)]
  {
    hide Itoa, Format, ActionText;
    ActionTextChars(e.action);
    ItoaSign(e.sequence);
    FormatChars(e.occurredAt);
    var a, b, c, d := e.operatorID, ActionText(e.action), Format(e.occurredAt), Itoa(e.sequence);
    SplitConcat(a + "|" + b + "|" + c, d, '|');
    SplitConcat(a + "|" + b, c, '|');
    SplitConcat(a, b, '|');
    SplitWhole(b, '|');
    SplitWhole(c, '|');
    SplitWhole(d, '|');
  }

  /** The texts of the five actions, as they stand in logs already written. */
  lemma HashEntryTexts(e: Entry)
    ensures HashEntry(e) == e.operatorID
      + (match e.action
         case Stored => "|stored|"
         case Accessed => "|accessed|"
         case HoldPlaced => "|hold-placed|"
         case HoldReleased => "|hold-released|"
         case Deleted => "|deleted|")
      + Format(e.occurredAt) + ("|" + Itoa(e.sequence))
  {
    hide Format, Itoa;
    Rebracket(e.operatorID, ActionText(e.action), Format(e.occurredAt), Itoa(e.sequence));
  }

  lemma Rebracket(a: string, b: string, c: string, d: string)
    ensures a + "|" + b + "|" + c + "|" + d == a + ("|" + b + "|") + c + ("|" + d)
  {
  }

  /** The hash determines the covered fields although the operator may itself contain the separator. */
  lemma HashEntryInjective(e: Entry, f: Entry)
    ensures HashEntry(e) == HashEntry(f) <==> SameCovered(e, f)
  {
    hide Itoa, Format, ActionText;
    ActionTextChars(e.action);
    ActionTextChars(f.action);
    if HashEntry(e) == HashEntry(f) {
      ItoaSign(e.sequence);
      ItoaSign(f.sequence);
      FormatChars(e.occurredAt);
      FormatChars(f.occurredAt);
      FieldsFromTheRight(
        e.operatorID, ActionText(e.action), Format(e.occurredAt), Itoa(e.sequence),
        f.operatorID, ActionText(f.action), Format(f.occurredAt), Itoa(f.sequence));
      ItoaInjective(e.sequence, f.sequence);
      FormatInjective(e.occurredAt, f.occurredAt);
      ActionTextInjective(e.action, f.action);
    }
  }

  /**
   Rewriting a verifying log while leaving its stored hashes alone is detected exactly when a covered
   field of a non-final entry changed.
   */
  lemma TamperEvidence(entries: seq<Entry>, tampered: seq<Entry>)
    requires Verifies(entries) && |tampered| == |entries|
    requires forall i :: 0 <= i < |entries| ==> tampered[i].priorEntryHash == entries[i].priorEntryHash
    ensures Verifies(tampered) <==> forall i :: 0 <= i < |entries| - 1 ==> SameCovered(entries[i], tampered[i])
  {
    if Verifies(tampered) {
      forall i | 0 <= i < |entries| - 1
        ensures SameCovered(entries[i], tampered[i])
      {
        assert LinkedAt(entries, i + 1) && LinkedAt(tampered, i + 1);
        HashEntryInjective(entries[i], tampered[i]);
      }
    }
    if forall i :: 0 <= i < |entries| - 1 ==> SameCovered(entries[i], tampered[i]) {
      forall i | 0 < i < |tampered|
        ensures LinkedAt(tampered, i)
      {
        assert LinkedAt(entries, i);
        HashEntryInjective(entries[i - 1], tampered[i - 1]);
      }
    }
  }

  /** The chain does not protect the purpose reference of any entry, the first and last included. */
  lemma PurposeRefUnprotected(entries: seq<Entry>, i: nat, purposeRef: string)
    requires Verifies(entries) && i < |entries|
    ensures Verifies(entries[i := entries[i].(purposeRef := purposeRef)])
  {
    TamperEvidence(entries, entries[i := entries[i].(purposeRef := purposeRef)]);
  }

  /** Nor does it reveal that entries are missing from the end. */
  lemma TruncationUndetected(entries: seq<Entry>, n: nat)
    requires Verifies(entries) && n <= |entries|
    ensures Verifies(entries[..n])
  {
    forall i | 0 < i < n
      ensures LinkedAt(entries[..n], i)
    {
      assert LinkedAt(entries, i);
    }
  }
}
