/** The in-memory snapshot store: listing newest first, the latest snapshot, and the diff of two. */
module SnapshotStore {
  import opened Hex
  import opened Rfc3339
  import opened Sorting
  import opened Text
  import opened Wire
  import opened Wrappers

  /** Newest first, the greater id first among snapshots of the same instant. */
  predicate NewestFirst(a: Snapshot, b: Snapshot) {
    a.createdAt > b.createdAt || (a.createdAt == b.createdAt && LexLe(b.id, a.id))
  }

  function Matching(snapshots: map<string, Snapshot>, source: string): set<Snapshot> {
    set id | id in snapshots && snapshots[id].source == source :: snapshots[id]
  }

  predicate Keyed(snapshots: map<string, Snapshot>) {
    forall id :: id in snapshots ==> snapshots[id].id == id
  }

  /** Every matching snapshot exactly once, newest first. */
  ghost predicate Enumerates(full: seq<Snapshot>, snapshots: map<string, Snapshot>, source: string) {
    Sorted(NewestFirst, full) && multiset(full) == multiset(Matching(snapshots, source))
  }

  function Limited<T>(full: seq<T>, limit: int): seq<T> {
    if 0 < limit < |full| then full[..limit] else full
  }

  datatype Diff = Diff(added: int, removed: int, common: int)

  datatype DiffError = NotFound | DifferentSources

  class InMemoryStore {
    var snapshots: map<string, Snapshot>

    ghost predicate Valid()
      reads this
    {
      Keyed(snapshots)
    }

    constructor ()
      ensures Valid() && snapshots == map[]
    {
      snapshots := map[];
    }

    method PutSnapshot(s: Snapshot)
      requires Valid()
      modifies this
      ensures Valid() && snapshots == old(snapshots)[s.id := s]
    {
      snapshots := snapshots[s.id := s];
    }

    method GetSnapshot(id: string) returns (r: Option<Snapshot>)
      ensures r == if id in snapshots then Some(snapshots[id]) else None
    {
      r := if id in snapshots then Some(snapshots[id]) else None;
    }

    /** The map is walked in any order; the result does not depend on it. */
    method ListSnapshots(source: string, limit: int) returns (list: seq<Snapshot>)
      requires Valid()
      ensures exists full :: Enumerates(full, snapshots, source) && list == Limited(full, limit)
      ensures ListedNewestFirst(list, snapshots, source)
      ensures |list| == if 0 < limit < |Matching(snapshots, source)| then limit else |Matching(snapshots, source)|
    {
      var matches: seq<Snapshot> := [];
      var rest := snapshots.Keys;
      ghost var seen: map<string, Snapshot> := map[];
      assert Matching(seen, source) == {};
      while rest != {}
        invariant rest <= snapshots.Keys
        invariant seen == map id | id in snapshots && id !in rest :: snapshots[id]
        invariant multiset(matches) == multiset(Matching(seen, source))
        decreases rest
      {
        var id :| id in rest;
        rest := rest - {id};
        MatchingGrows(seen, id, snapshots[id], source);
        seen := seen[id := snapshots[id]];
        if snapshots[id].source == source {
          matches := matches + [snapshots[id]];
        }
      }
      assert seen == snapshots;
      NewestFirstOrder();
      SortElements(NewestFirst, matches);
      SortSorted(NewestFirst, matches);
      matches := Sort(NewestFirst, matches);
      assert Enumerates(matches, snapshots, source);
      ListingMeaning(matches, snapshots, source, limit);
      list := if limit > 0 && |matches| > limit then matches[..limit] else matches;
    }

    method LatestSnapshot(source: string) returns (r: Option<Snapshot>)
      requires Valid()
      ensures r.None? <==> Matching(snapshots, source) == {}
      ensures r.Some? ==>
        && r.value in Matching(snapshots, source)
        && forall s :: s in Matching(snapshots, source) ==>
             s.createdAt <= r.value.createdAt && AtLeastAsNew(r.value, s)
    {
      var list := ListSnapshots(source, 1);
      ghost var full :| Enumerates(full, snapshots, source) && list == Limited(full, 1);
      HeadIsLatest(full, snapshots, source);
      r := if |list| == 0 then None else Some(list[0]);
    }

    method DiffSnapshots(fromID: string, toID: string) returns (r: Result<Diff, DiffError>)
      ensures fromID !in snapshots || toID !in snapshots ==> r == Err(NotFound)
      ensures fromID in snapshots && toID in snapshots ==>
        r == if snapshots[fromID].source != snapshots[toID].source then Err(DifferentSources)
             else Ok(DiffOf(snapshots[fromID], snapshots[toID]))
    {
      if fromID !in snapshots || toID !in snapshots {
        return Err(NotFound);
      }
      var from, to := snapshots[fromID], snapshots[toID];
      if from.source != to.source {
        return Err(DifferentSources);
      }
      var d := ComputeDiff(from, to);
      return Ok(d);
    }
  }

  // ----- listing -----

  lemma NewestFirstOrder()
    ensures TotalPreorder(NewestFirst)
  {
    forall x: Snapshot, y: Snapshot ensures NewestFirst(x, y) || NewestFirst(y, x) { LexTotal(x.id, y.id); }
    forall x: Snapshot, y: Snapshot, z: Snapshot | NewestFirst(x, y) && NewestFirst(y, z)
      ensures NewestFirst(x, z)
    {
      if LexLe(z.id, y.id) && LexLe(y.id, x.id) {
        LexTransitive(z.id, y.id, x.id);
      }
    }
  }

  lemma MatchingGrows(seen: map<string, Snapshot>, id: string, s: Snapshot, source: string)
    requires id !in seen && s.id == id && Keyed(seen)
    ensures multiset(Matching(seen[id := s], source)) ==
      multiset(Matching(seen, source)) + (if s.source == source then multiset{s} else multiset{})
  {
    var before, after := Matching(seen, source), Matching(seen[id := s], source);
    assert forall k :: k in seen ==> seen[id := s][k] == seen[k];
    if s.source == source {
      assert seen[id := s][id] == s;
      assert s !in before;
      assert after == before + {s};
    } else {
      assert after == before;
    }
  }

  /** However the store's map is walked, there is only one listing. */
  lemma ListingUnique(snapshots: map<string, Snapshot>, source: string, a: seq<Snapshot>, b: seq<Snapshot>)
    requires Keyed(snapshots) && Enumerates(a, snapshots, source) && Enumerates(b, snapshots, source)
    ensures a == b
  {
    forall i, j | 0 <= i < |a| && 0 <= j < |a| && NewestFirst(a[i], a[j]) && NewestFirst(a[j], a[i])
      ensures a[i] == a[j]
    {
      assert a[i] in multiset(a) && a[j] in multiset(a);
      assert a[i] in Matching(snapshots, source) && a[j] in Matching(snapshots, source);
      LexAntisymmetric(a[i].id, a[j].id);
    }
    SortedUnique(NewestFirst, a, b);
  }

  /** A later instant, or at the same instant an id that is not smaller, character by character. */
  ghost predicate AtLeastAsNew(a: Snapshot, b: Snapshot) {
    a.createdAt >= b.createdAt && (a.createdAt == b.createdAt ==> Before(b.id, a.id))
  }

  lemma OrderMeaning(a: Snapshot, b: Snapshot)
    ensures NewestFirst(a, b) <==> AtLeastAsNew(a, b)
  {
    LexMeaning(b.id, a.id);
  }

  /** The newest first, each once. */
  ghost predicate NewestOrder(list: seq<Snapshot>) {
    forall i, j :: 0 <= i < j < |list| ==>
      list[i].id != list[j].id && list[i].createdAt >= list[j].createdAt && AtLeastAsNew(list[i], list[j])
  }

  /** No snapshot of the source that is not listed is newer than one that is. */
  ghost predicate LeavesOutOlder(list: seq<Snapshot>, snapshots: map<string, Snapshot>, source: string) {
    forall id, i :: id in snapshots && snapshots[id].source == source && snapshots[id] !in list && 0 <= i < |list| ==>
      list[i].createdAt >= snapshots[id].createdAt && AtLeastAsNew(list[i], snapshots[id])
  }

  ghost predicate ListedNewestFirst(list: seq<Snapshot>, snapshots: map<string, Snapshot>, source: string) {
    FromSource(list, snapshots, source) && NewestOrder(list) && LeavesOutOlder(list, snapshots, source)
  }

  predicate FromSource(list: seq<Snapshot>, snapshots: map<string, Snapshot>, source: string) {
    forall i :: 0 <= i < |list| ==> list[i].id in snapshots && snapshots[list[i].id] == list[i] && list[i].source == source
  }

  lemma ListingMeaning(full: seq<Snapshot>, snapshots: map<string, Snapshot>, source: string, limit: int)
    requires Keyed(snapshots) && Enumerates(full, snapshots, source)
    ensures ListedNewestFirst(Limited(full, limit), snapshots, source)
    ensures |full| == |Matching(snapshots, source)|
  {
    hide NewestOrder, LeavesOutOlder, FromSource;
    var n := if 0 < limit < |full| then limit else |full|;
    assert Limited(full, limit) == full[..n];
    ListingElements(full, snapshots, source);
    CutKeepsOrder(full, n);
    CutFromSource(full, n, snapshots, source);
    CutLeavesOlder(full, n, snapshots, source);
  }

  lemma CutKeepsOrder(full: seq<Snapshot>, n: nat)
    requires n <= |full| && NewestOrder(full)
    ensures NewestOrder(full[..n])
  {
    hide AtLeastAsNew;
  }

  lemma CutFromSource(full: seq<Snapshot>, n: nat, snapshots: map<string, Snapshot>, source: string)
    requires n <= |full| && FromSource(full, snapshots, source)
    ensures FromSource(full[..n], snapshots, source)
  {
  }

  lemma CutLeavesOlder(full: seq<Snapshot>, n: nat, snapshots: map<string, Snapshot>, source: string)
    requires n <= |full| && NewestOrder(full)
    requires forall id :: id in snapshots && snapshots[id].source == source ==> snapshots[id] in full
    ensures LeavesOutOlder(full[..n], snapshots, source)
  {
    hide AtLeastAsNew;
    forall id, i | id in snapshots && snapshots[id].source == source && snapshots[id] !in full[..n] && 0 <= i < n
      ensures full[i].createdAt >= snapshots[id].createdAt && AtLeastAsNew(full[i], snapshots[id])
    {
      var j :| 0 <= j < |full| && full[j] == snapshots[id];
      assert j >= n;
    }
  }

  lemma ListingElements(full: seq<Snapshot>, snapshots: map<string, Snapshot>, source: string)
    requires Keyed(snapshots) && Enumerates(full, snapshots, source)
    ensures |full| == |Matching(snapshots, source)|
    ensures NewestOrder(full)
    ensures FromSource(full, snapshots, source)
    ensures forall id :: id in snapshots && snapshots[id].source == source ==> snapshots[id] in full
  {
    var matching := Matching(snapshots, source);
    assert |multiset(full)| == |multiset(matching)|;
    forall i | 0 <= i < |full| ensures full[i] in matching {
      assert full[i] in multiset(full);
    }
    forall i, j | 0 <= i < j < |full| ensures full[i] != full[j] && AtLeastAsNew(full[i], full[j]) {
      Twice(full, i, j);
      OrderMeaning(full[i], full[j]);
    }
    forall id | id in snapshots && snapshots[id].source == source ensures snapshots[id] in full {
      assert snapshots[id] in matching;
      assert snapshots[id] in multiset(full);
    }
  }

  lemma Twice<T>(s: seq<T>, i: nat, j: nat)
    requires i < j < |s|
    ensures s[i] == s[j] ==> multiset(s)[s[i]] >= 2
  {
    assert s == s[..i] + [s[i]] + s[i + 1..j] + [s[j]] + s[j + 1..];
  }

  lemma HeadIsLatest(full: seq<Snapshot>, snapshots: map<string, Snapshot>, source: string)
    requires Enumerates(full, snapshots, source)
    ensures full == [] <==> Matching(snapshots, source) == {}
    ensures full != [] ==> full[0] in Matching(snapshots, source)
    ensures full != [] ==> forall s :: s in Matching(snapshots, source) ==> AtLeastAsNew(full[0], s)
  {
    var matching := Matching(snapshots, source);
    if full == [] {
      assert |multiset(matching)| == 0;
    } else {
      assert full[0] in multiset(full);
      forall s | s in matching
        ensures AtLeastAsNew(full[0], s)
      {
        OrderMeaning(full[0], s);
        assert s in multiset(full);
        LexTotal(s.id, s.id);
      }
    }
  }

  // ----- diff -----

  function Distinct(hashes: Option<seq<Hash>>): set<Hash> {
    set h | h in Elements(hashes)
  }

  /** Exact when either side carries its hashes; otherwise only the declared counts are compared. */
  function DiffOf(from: Snapshot, to: Snapshot): Diff {
    if from.hashes.None? && to.hashes.None? then
      Diff(to.hashCount - from.hashCount, 0, from.hashCount)
    else
      var a, b := Distinct(from.hashes), Distinct(to.hashes);
      Diff(|b - a|, |a - b|, |a * b|)
  }

  /**
   Counted hash by hash: new are those only in the later list, gone those only in the earlier, kept those
   in both, however often they are repeated.
   */
  lemma DiffMeaning(from: Snapshot, to: Snapshot)
    ensures var d := DiffOf(from, to);
      if from.hashes.None? && to.hashes.None? then
        d.added == to.hashCount - from.hashCount && d.removed == 0 && d.common == from.hashCount
      else
        && d.added == |set h | h in Elements(to.hashes) && h !in Elements(from.hashes)|
        && d.removed == |set h | h in Elements(from.hashes) && h !in Elements(to.hashes)|
        && d.common == |set h | h in Elements(from.hashes) && h in Elements(to.hashes)|
  {
    var a, b := Distinct(from.hashes), Distinct(to.hashes);
    assert b - a == set h | h in Elements(to.hashes) && h !in Elements(from.hashes);
    assert a - b == set h | h in Elements(from.hashes) && h !in Elements(to.hashes);
    assert a * b == set h | h in Elements(from.hashes) && h in Elements(to.hashes);
  }

  method ToSet(hashes: seq<Hash>) returns (r: set<Hash>)
    ensures r == set h | h in hashes
  {
    r := {};
    for i := 0 to |hashes|
      invariant r == set h | h in hashes[..i]
    {
      r := r + {hashes[i]};
      assert hashes[..i + 1] == hashes[..i] + [hashes[i]];
    }
    assert hashes[..|hashes|] == hashes;
  }

  method ComputeDiff(from: Snapshot, to: Snapshot) returns (d: Diff)
    ensures d == DiffOf(from, to)
  {
    if from.hashes.None? && to.hashes.None? {
      return Diff(to.hashCount - from.hashCount, 0, from.hashCount);
    }
    var fromSet := ToSet(Elements(from.hashes));
    var toSet := ToSet(Elements(to.hashes));
    var common, added := Count(toSet, fromSet);
    var _, removed := Count(fromSet, toSet);
    assert fromSet * toSet == toSet * fromSet;
    return Diff(added, removed, common);
  }

  /** Walks one set and counts which of its elements the other has. */
  method Count(s: set<Hash>, other: set<Hash>) returns (shared: int, own: int)
    ensures shared == |s * other| && own == |s - other|
  {
    shared, own := 0, 0;
    var rest := s;
    ghost var done: set<Hash> := {};
    while rest != {}
      invariant done !! rest && done + rest == s
      invariant shared == |done * other| && own == |done - other|
      decreases rest
    {
      var h :| h in rest;
      rest := rest - {h};
      OneMore(done, other, h);
      if h in other {
        shared := shared + 1;
      } else {
        own := own + 1;
      }
      done := done + {h};
    }
    assert done == s;
  }

  lemma OneMore<T>(done: set<T>, other: set<T>, x: T)
    requires x !in done
    ensures |(done + {x}) * other| == |done * other| + if x in other then 1 else 0
    ensures |(done + {x}) - other| == |done - other| + if x in other then 0 else 1
  {
    if x in other {
      assert (done + {x}) * other == done * other + {x} && (done + {x}) - other == done - other;
    } else {
      assert (done + {x}) * other == done * other && (done + {x}) - other == (done - other) + {x};
    }
  }

  /** Nothing is counted twice or forgotten. */
  lemma DiffConserves(from: Snapshot, to: Snapshot)
    requires from.hashes.Some? || to.hashes.Some?
    ensures var d := DiffOf(from, to);
      && d.added + d.common == |Distinct(to.hashes)|
      && d.removed + d.common == |Distinct(from.hashes)|
      && d.added >= 0 && d.removed >= 0 && d.common >= 0
  {
    var a, b := Distinct(from.hashes), Distinct(to.hashes);
    assert b == (b - a) + a * b && a == (a - b) + a * b;
  }

  /** Reversing a diff swaps additions and removals; with counts only it negates the additions instead. */
  lemma DiffReversed(from: Snapshot, to: Snapshot)
    ensures var d, r := DiffOf(from, to), DiffOf(to, from);
      if from.hashes.Some? || to.hashes.Some? then r == Diff(d.removed, d.added, d.common)
      else r == Diff(-d.added, 0, d.added + d.common)
  {
    var a, b := Distinct(from.hashes), Distinct(to.hashes);
    assert a * b == b * a;
  }

  function Distance(from: Snapshot, to: Snapshot): int {
    DiffOf(from, to).added + DiffOf(from, to).removed
  }

  /** Whether going through y can only be longer; it fails only where bare counts are compared with exact sets. */
  predicate DetourFits(x: Snapshot, y: Snapshot, z: Snapshot) {
    && (x.hashes.None? && y.hashes.None? && z.hashes.Some? ==> x.hashCount <= y.hashCount)
    && (x.hashes.Some? && y.hashes.None? && z.hashes.None? ==> y.hashCount <= z.hashCount)
    && (x.hashes.None? && y.hashes.Some? && z.hashes.None? ==> z.hashCount - x.hashCount <= 2 * |Distinct(y.hashes)|)
  }

  /**
   The number of changes obeys the triangle inequality, so a diff through a middle version is never
   shorter. It holds whenever at most one snapshot lacks its hashes, and when all do; between one inline
   list and two bare counts it depends on the counts.
   */
  lemma DiffTriangle(x: Snapshot, y: Snapshot, z: Snapshot)
    ensures Distance(x, z) <= Distance(x, y) + Distance(y, z) <==> DetourFits(x, y, z)
  {
    var a, b, c := Distinct(x.hashes), Distinct(y.hashes), Distinct(z.hashes);
    Covered(c - a, c - b, b - a);
    Covered(a - c, a - b, b - c);
  }

  /** Nothing is reported as changed exactly when the sets are equal, or the counts when there are only counts. */
  lemma NoChange(x: Snapshot, y: Snapshot)
    ensures Distance(x, y) == 0 <==>
      if x.hashes.None? && y.hashes.None? then x.hashCount == y.hashCount else Distinct(x.hashes) == Distinct(y.hashes)
  {
    var a, b := Distinct(x.hashes), Distinct(y.hashes);
    if a - b == {} && b - a == {} {
      assert a == b;
    }
  }

  lemma Covered<T>(s: set<T>, t: set<T>, u: set<T>)
    requires s <= t + u
    ensures |s| <= |t| + |u|
  {
    SubsetSize(s, t + u);
    assert t + u == t + (u - t);
    SubsetSize(u - t, u);
  }

  lemma {:induction false} SubsetSize<T>(s: set<T>, t: set<T>)
    requires s <= t
    ensures |s| <= |t|
  {
    if s != {} {
      var x :| x in s;
      SubsetSize(s - {x}, t - {x});
    }
  }
}
