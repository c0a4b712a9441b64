/** The Rust matcher: best match by linear scan, and all matches in order of distance. */
module PdqMatcher {
  import opened Hamming
  import opened Hex
  import opened PdqList
  import opened Sorting
  import opened Text
  import opened Wrappers

  datatype MatchError = InvalidThreshold(threshold: nat) | EmptySet

  datatype MatchResult = MatchResult(matched: Hash, distance: nat)

  datatype Matcher = Matcher(threshold: nat, reference: seq<Hash>)

  function New(knownBad: seq<Hash>, threshold: nat): Result<Matcher, MatchError> {
    if threshold > 256 then Err(InvalidThreshold(threshold))
    else if knownBad == [] then Err(EmptySet)
    else Ok(Matcher(threshold, knownBad))
  }

  /** A matcher exists exactly for a threshold of at most 256 bits and a set that is not empty; the threshold is looked at first. */
  lemma NewMeaning(knownBad: seq<Hash>, threshold: nat)
    ensures New(knownBad, threshold).Ok? <==> threshold <= 256 && knownBad != []
    ensures New(knownBad, threshold).Ok? ==>
      New(knownBad, threshold).value.threshold == threshold && New(knownBad, threshold).value.reference == knownBad
    ensures threshold > 256 ==> New(knownBad, threshold) == Err(InvalidThreshold(threshold))
    ensures threshold <= 256 && knownBad == [] ==> New(knownBad, threshold) == Err(EmptySet)
  {
  }

  /** One reference as a result, if it is within the threshold. */
  function Hit(reference: Hash, threshold: nat, query: Hash): seq<MatchResult> {
    var d := Distance(query, reference);
    if d <= threshold then [MatchResult(reference, d)] else []
  }

  /** The references within the threshold, in insertion order. */
  function Hits(reference: seq<Hash>, threshold: nat, query: Hash): seq<MatchResult> {
    if reference == [] then []
    else Hit(reference[0], threshold, query) + Hits(reference[1..], threshold, query)
  }

  predicate Closer(a: MatchResult, b: MatchResult) {
    a.distance <= b.distance
  }

  /** Stable sort by distance. */
  function AllMatches(m: Matcher, query: Hash): seq<MatchResult> {
    Sort(Closer, Hits(m.reference, m.threshold, query))
  }

  method QueryAll(m: Matcher, query: Hash) returns (matches: seq<MatchResult>)
    ensures matches == AllMatches(m, query)
  {
    hide Differing;
    matches := [];
    for i := 0 to |m.reference|
      invariant matches == Hits(m.reference[..i], m.threshold, query)
    {
      HitsAppend(m.reference[..i], m.threshold, query, m.reference[i]);
      assert m.reference[..i + 1] == m.reference[..i] + [m.reference[i]];
      var distance := Distance(query, m.reference[i]);
      if distance <= m.threshold {
        matches := matches + [MatchResult(m.reference[i], distance)];
      }
    }
    assert m.reference[..|m.reference|] == m.reference;
    matches := Sort(Closer, matches);
  }

  /** The single-pass query returns exactly the head of the sorted list, ties going to the earlier reference. */
  method Query(m: Matcher, query: Hash) returns (best: Option<MatchResult>)
    ensures best == if AllMatches(m, query) == [] then None else Some(AllMatches(m, query)[0])
  {
    hide Differing;
    best := None;
    for i := 0 to |m.reference|
      invariant best == First(Sort(Closer, Hits(m.reference[..i], m.threshold, query)))
    {
      var candidate := m.reference[i];
      var distance := Distance(query, candidate);
      HitsAppend(m.reference[..i], m.threshold, query, candidate);
      assert m.reference[..i + 1] == m.reference[..i] + [candidate];
      ghost var hits := Hits(m.reference[..i], m.threshold, query);
      SortElements(Closer, hits);
      if distance > m.threshold {
        assert hits + [] == hits;
        continue;
      }
      SortAppendFirst(hits, MatchResult(candidate, distance));
      var improves := match best case None => true case Some(b) => distance < b.distance;
      if improves {
        best := Some(MatchResult(candidate, distance));
      }
    }
    assert m.reference[..|m.reference|] == m.reference;
  }

  function First<T>(s: seq<T>): Option<T> {
    if s == [] then None else Some(s[0])
  }

  lemma {:induction false} HitsAppend(reference: seq<Hash>, threshold: nat, query: Hash, last: Hash)
    ensures Hits(reference + [last], threshold, query) == Hits(reference, threshold, query) + Hit(last, threshold, query)
  {
    hide Hit;
    if reference == [] {
      assert reference + [last] == [last] && [last][1..] == [];
    } else {
      assert (reference + [last])[1..] == reference[1..] + [last];
      HitsAppend(reference[1..], threshold, query, last);
      Regroup(Hit(reference[0], threshold, query), Hits(reference[1..], threshold, query), Hit(last, threshold, query));
    }
  }

  /** Appending one hit changes the head of the sorted list only if it is strictly closer. */
  lemma {:induction false} SortAppendFirst(hits: seq<MatchResult>, last: MatchResult)
    ensures First(Sort(Closer, hits + [last])) ==
      if hits == [] || last.distance < First(Sort(Closer, hits)).value.distance then Some(last)
      else First(Sort(Closer, hits))
    ensures hits != [] ==> Sort(Closer, hits) != []
  {
    SortElements(Closer, hits);
    if hits == [] {
      assert hits + [last] == [last] && Sort(Closer, [last][1..]) == [];
    } else {
      assert (hits + [last])[1..] == hits[1..] + [last] && (hits + [last])[0] == hits[0];
      SortElements(Closer, hits[1..]);
      SortElements(Closer, hits[1..] + [last]);
      SortAppendFirst(hits[1..], last);
    }
  }

  /**
   `query_all` returns exactly the references within the threshold, with multiplicity, ascending by
   distance, and keeps insertion order among equals.
   */
  lemma QueryAllMeaning(m: Matcher, query: Hash, distance: nat)
    ensures multiset(AllMatches(m, query)) == multiset(Hits(m.reference, m.threshold, query))
    ensures Sorted(Closer, AllMatches(m, query))
    ensures Filter((r: MatchResult) => r.distance == distance, AllMatches(m, query)) ==
            Filter((r: MatchResult) => r.distance == distance, Hits(m.reference, m.threshold, query))
  {
    var hits := Hits(m.reference, m.threshold, query);
    SortElements(Closer, hits);
    SortSorted(Closer, hits);
    SortStable(Closer, (r: MatchResult) => r.distance == distance, hits);
  }

  lemma {:induction false} HitsMeaning(reference: seq<Hash>, threshold: nat, query: Hash, r: MatchResult)
    ensures r in Hits(reference, threshold, query) <==>
      r.matched in reference && r.distance == Distance(query, r.matched) && r.distance <= threshold
  {
    hide Distance;
    if reference != [] {
      HitsMeaning(reference[1..], threshold, query, r);
      assert reference == [reference[0]] + reference[1..];
    }
  }

  /** A query finds something exactly when some reference is within the threshold: the list matchers' verdict. */
  lemma QueryDecides(m: Matcher, query: Hash)
    ensures AllMatches(m, query) != [] <==> SomeWithin(query, m.reference, m.threshold)
  {
    var hits := Hits(m.reference, m.threshold, query);
    SortElements(Closer, hits);
    if hits != [] {
      HitsMeaning(m.reference, m.threshold, query, hits[0]);
      var k :| 0 <= k < |m.reference| && m.reference[k] == hits[0].matched;
      assert Within(query, m.reference[k], m.threshold);
    }
    if k :| 0 <= k < |m.reference| && Within(query, m.reference[k], m.threshold) {
      HitsMeaning(m.reference, m.threshold, query, MatchResult(m.reference[k], Distance(query, m.reference[k])));
    }
  }

  /** The reported match is a nearest reference. */
  lemma QueryIsNearest(m: Matcher, query: Hash, h: Hash)
    requires AllMatches(m, query) != [] && h in m.reference
    ensures AllMatches(m, query)[0].distance <= Distance(query, h)
  {
    hide Differing;
    var all, hits := AllMatches(m, query), Hits(m.reference, m.threshold, query);
    QueryAllMeaning(m, query, 0);
    assert all[0] in multiset(all) && all[0] in multiset(hits);
    HitsMeaning(m.reference, m.threshold, query, all[0]);
    var r := MatchResult(h, Distance(query, h));
    if r.distance <= m.threshold {
      HitsMeaning(m.reference, m.threshold, query, r);
      assert r in multiset(hits) && r in multiset(all);
      var k :| 0 <= k < |all| && all[k] == r;
      assert k > 0 ==> Closer(all[0], all[k]);
    }
  }

  /** Altering a matching query by e bits cannot hide it while its distance plus e stays within the threshold. */
  lemma AlteredQueryStillMatches(m: Matcher, query: Hash, altered: Hash)
    requires AllMatches(m, query) != []
    requires AllMatches(m, query)[0].distance + Distance(query, altered) <= m.threshold
    ensures AllMatches(m, altered) != []
    ensures AllMatches(m, altered)[0].distance <= AllMatches(m, query)[0].distance + Distance(query, altered)
  {
    hide Differing;
    var r := AllMatches(m, query)[0];
    QueryAllMeaning(m, query, 0);
    assert r in multiset(AllMatches(m, query)) && r in multiset(Hits(m.reference, m.threshold, query));
    HitsMeaning(m.reference, m.threshold, query, r);
    DistanceTriangle(altered, query, r.matched);
    DistanceSymmetric(altered, query);
    var k :| 0 <= k < |m.reference| && m.reference[k] == r.matched;
    assert Within(altered, m.reference[k], m.threshold);
    QueryDecides(m, altered);
    QueryIsNearest(m, altered, r.matched);
  }
}
