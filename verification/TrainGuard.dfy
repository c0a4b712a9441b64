/** Screening a dataset stream against hash-list providers. */
module TrainGuard {
  import opened Hamming
  import opened Hex
  import opened PdqList
  import PdqMatcher
  import opened Wrappers

  datatype Provider = Provider(source: string, snapshotID: string, hashes: set<seq<bv8>>)

  datatype Entry = Entry(id: string, pdqHash: Option<seq<bv8>>)

  datatype ScanResult = ScanResult(entryID: string, matchedAgainst: string, threshold: nat)

  datatype ScanError = NoProviders | BadQueryLength | LengthMismatch

  datatype Scan = Scan(datasetSize: nat, matches: seq<ScanResult>)

  /** List files are checked on loading to hold 32-byte hashes only. */
  predicate WellFormed(p: Provider) {
    forall h :: h in p.hashes ==> |h| == 32
  }

  predicate ProviderHas(p: Provider, query: seq<bv8>, threshold: nat) {
    exists h :: h in p.hashes && Within(query, h, threshold)
  }

  /** The set is walked in any order; only a reference of another length can make the answer depend on it. */
  method Contains(p: Provider, query: seq<bv8>, threshold: nat) returns (r: Result<bool, ScanError>)
    ensures |query| != 32 <==> r == Err(BadQueryLength)
    ensures r == Ok(true) ==> ProviderHas(p, query, threshold)
    ensures r == Ok(false) ==> !ProviderHas(p, query, threshold) && WellFormed(p)
    ensures r == Err(LengthMismatch) ==> !WellFormed(p)
    ensures r != Err(NoProviders)
  {
    hide Distance;
    if |query| != 32 {
      return Err(BadQueryLength);
    }
    var rest := p.hashes;
    while rest != {}
      invariant rest <= p.hashes
      invariant forall h :: h in p.hashes && h !in rest ==> |h| == 32 && !Within(query, h, threshold)
      decreases rest
    {
      var h :| h in rest;
      rest := rest - {h};
      if |h| != |query| {
        return Err(LengthMismatch);
      }
      var d := HammingDistance(h, query);
      DistanceSymmetric(h, query);
      if d.value <= threshold {
        assert Within(query, h, threshold);
        return Ok(true);
      }
    }
    return Ok(false);
  }

  /** A provider, the list detectors and the Rust matcher give one verdict on the same hashes. */
  lemma MatchersAgree(p: Provider, list: seq<Hash>, query: Hash, threshold: nat)
    requires p.hashes == set h: seq<bv8> | h in list
    ensures ProviderHas(p, query, threshold) <==> SomeWithin(query, list, threshold)
    ensures ProviderHas(p, query, threshold) <==> PdqMatcher.AllMatches(PdqMatcher.Matcher(threshold, list), query) != []
    ensures ProviderHas(p, query, threshold) <==> exists k :: 0 <= k < |list| && Distance(query, list[k]) <= threshold
  {
    hide Distance;
    PdqMatcher.QueryDecides(PdqMatcher.Matcher(threshold, list), query);
    if ProviderHas(p, query, threshold) {
      var h :| h in p.hashes && Within(query, h, threshold);
      var k :| 0 <= k < |list| && list[k] == h;
      assert Within(query, list[k], threshold);
    }
    if k :| 0 <= k < |list| && Distance(query, list[k]) <= threshold {
      assert list[k] in p.hashes && Within(query, list[k], threshold);
    }
  }

  /** The first provider whose list has an entry within the threshold. */
  function FirstProvider(providers: seq<Provider>, query: seq<bv8>, threshold: nat): Option<string> {
    if providers == [] then None
    else if ProviderHas(providers[0], query, threshold) then Some(providers[0].source)
    else FirstProvider(providers[1..], query, threshold)
  }

  /** The report rows: one for each hashed entry some provider matches, in input order. */
  function Reported(entries: seq<Entry>, providers: seq<Provider>, threshold: nat): seq<ScanResult> {
    if entries == [] then []
    else
      var n := |entries| - 1;
      var e := entries[n];
      var source := if e.pdqHash.Some? then FirstProvider(providers, e.pdqHash.value, threshold) else None;
      Reported(entries[..n], providers, threshold) +
      (if source.Some? then [ScanResult(e.id, source.value, threshold)] else [])
  }

  predicate AllQueriesFit(entries: seq<Entry>) {
    forall i :: 0 <= i < |entries| ==> entries[i].pdqHash.Some? ==> |entries[i].pdqHash.value| == 32
  }

  /**
   A scan that finishes counted every entry and reports exactly the matching ones, each attributed to the
   first provider that has it. Over well-formed lists it stops with an error exactly on a hash that is not
   32 bytes long.
   */
  method ScanDataset(entries: seq<Entry>, providers: seq<Provider>, threshold: nat) returns (r: Result<Scan, ScanError>)
    ensures providers == [] <==> r == Err(NoProviders)
    ensures r.Ok? ==> AllQueriesFit(entries) && r.value == Scan(|entries|, Reported(entries, providers, threshold))
    ensures r == Err(BadQueryLength) ==> !AllQueriesFit(entries)
    ensures r == Err(LengthMismatch) ==> exists i :: 0 <= i < |providers| && !WellFormed(providers[i])
  {
    hide Distance, ProviderHas, WellFormed;
    if |providers| == 0 {
      return Err(NoProviders);
    }
    var matches: seq<ScanResult> := [];
    var total := 0;
    for i := 0 to |entries|
      invariant total == i
      invariant AllQueriesFit(entries[..i])
      invariant matches == Reported(entries[..i], providers, threshold)
    {
      var entry := entries[i];
      assert entries[..i + 1][..i] == entries[..i] && entries[..i + 1][i] == entry;
      total := total + 1;
      if entry.pdqHash.None? {
        continue;
      }
      var query := entry.pdqHash.value;
      var found: Option<string> := None;
      for j := 0 to |providers|
        invariant found.None?
        invariant FirstProvider(providers, query, threshold) == FirstProvider(providers[j..], query, threshold)
        invariant j > 0 ==> |query| == 32
      {
        var c := Contains(providers[j], query, threshold);
        if c.Err? {
          assert c.error == BadQueryLength ==> !AllQueriesFit(entries);
          return Err(c.error);
        }
        assert providers[j..][1..] == providers[j + 1..];
        if c.value {
          found := Some(providers[j].source);
          break;
        }
      }
      if found.Some? {
        matches := matches + [ScanResult(entry.id, found.value, threshold)];
      }
    }
    assert entries[..|entries|] == entries;
    return Ok(Scan(total, matches));
  }

  /** The rows are those of the entries at these positions, which are in order and include every matched entry. */
  predicate Corresponds(entries: seq<Entry>, providers: seq<Provider>, threshold: nat,
                        rows: seq<ScanResult>, positions: seq<nat>)
  {
    && |positions| == |rows|
    && (forall k :: 0 <= k < |rows| ==>
          positions[k] < |entries| && MatchedRow(entries[positions[k]], providers, threshold, rows[k]))
    && (forall k, l :: 0 <= k < l < |rows| ==> positions[k] < positions[l])
    && (forall i :: 0 <= i < |entries| && MatchedEntry(entries[i], providers, threshold) ==> i in positions)
  }

  /**
   The rows correspond one to one, in input order, to the entries some provider matches: none is reported
   without a match, none is reported twice and none is missed.
   */
  lemma {:induction false} ReportedMeaning(entries: seq<Entry>, providers: seq<Provider>, threshold: nat)
    returns (positions: seq<nat>)
    ensures Corresponds(entries, providers, threshold, Reported(entries, providers, threshold), positions)
  {
    hide MatchedRow, MatchedEntry, ProviderHas;
    if entries == [] {
      positions := [];
    } else {
      var n := |entries| - 1;
      var before, rows := Reported(entries[..n], providers, threshold), Reported(entries, providers, threshold);
      var front := ReportedMeaning(entries[..n], providers, threshold);
      ReportedStep(entries, providers, threshold);
      if MatchedEntry(entries[n], providers, threshold) {
        positions := front + [n];
        ExtendByMatch(entries, providers, threshold, rows, positions);
      } else {
        positions := front;
        ExtendByMiss(entries, providers, threshold, rows, positions);
      }
    }
  }

  lemma ExtendByMiss(entries: seq<Entry>, providers: seq<Provider>, threshold: nat, rows: seq<ScanResult>, positions: seq<nat>)
    requires entries != [] && Corresponds(entries[..|entries| - 1], providers, threshold, rows, positions)
    requires !MatchedEntry(entries[|entries| - 1], providers, threshold)
    ensures Corresponds(entries, providers, threshold, rows, positions)
  {
    hide MatchedRow, MatchedEntry;
    assert forall i :: 0 <= i < |entries| - 1 ==> entries[..|entries| - 1][i] == entries[i];
  }

  lemma ExtendByMatch(entries: seq<Entry>, providers: seq<Provider>, threshold: nat, rows: seq<ScanResult>, positions: seq<nat>)
    requires entries != [] && rows != [] && positions != [] && positions[|positions| - 1] == |entries| - 1
    requires Corresponds(entries[..|entries| - 1], providers, threshold, rows[..|rows| - 1], positions[..|positions| - 1])
    requires MatchedRow(entries[|entries| - 1], providers, threshold, rows[|rows| - 1])
    ensures Corresponds(entries, providers, threshold, rows, positions)
  {
    hide MatchedRow, MatchedEntry;
    var n, m := |entries| - 1, |rows| - 1;
    assert forall i :: 0 <= i < n ==> entries[..n][i] == entries[i];
    assert forall k :: 0 <= k < m ==> rows[..m][k] == rows[k] && positions[..m][k] == positions[k];
  }

  lemma ReportedStep(entries: seq<Entry>, providers: seq<Provider>, threshold: nat)
    requires entries != []
    ensures var n := |entries| - 1;
      var before, rows := Reported(entries[..n], providers, threshold), Reported(entries, providers, threshold);
      if MatchedEntry(entries[n], providers, threshold) then
        |rows| == |before| + 1 && rows[..|before|] == before && MatchedRow(entries[n], providers, threshold, rows[|before|])
      else rows == before
  {
    hide ProviderHas;
    var before := Reported(entries[..|entries| - 1], providers, threshold);
    assert before + [] == before;
  }

  predicate MatchedEntry(e: Entry, providers: seq<Provider>, threshold: nat) {
    e.pdqHash.Some? && FirstProvider(providers, e.pdqHash.value, threshold).Some?
  }

  predicate MatchedRow(e: Entry, providers: seq<Provider>, threshold: nat, row: ScanResult) {
    && row.entryID == e.id && row.threshold == threshold
    && e.pdqHash.Some? && FirstProvider(providers, e.pdqHash.value, threshold) == Some(row.matchedAgainst)
  }

  /** The attribution: the first provider whose list has the hash, if any has. */
  lemma {:induction false} FirstProviderMeaning(providers: seq<Provider>, query: seq<bv8>, threshold: nat)
    ensures FirstProvider(providers, query, threshold).Some? <==>
      exists i :: 0 <= i < |providers| && ProviderHas(providers[i], query, threshold)
    ensures FirstProvider(providers, query, threshold).Some? ==>
      exists i :: 0 <= i < |providers| && ProviderHas(providers[i], query, threshold)
        && FirstProvider(providers, query, threshold).value == providers[i].source
        && forall j :: 0 <= j < i ==> !ProviderHas(providers[j], query, threshold)
  {
    hide ProviderHas;
    if providers != [] {
      var rest := providers[1..];
      FirstProviderMeaning(rest, query, threshold);
      if !ProviderHas(providers[0], query, threshold) {
        if i :| 0 <= i < |providers| && ProviderHas(providers[i], query, threshold) {
          assert rest[i - 1] == providers[i];
        }
        if FirstProvider(rest, query, threshold).Some? {
          var i :| 0 <= i < |rest| && ProviderHas(rest[i], query, threshold)
            && FirstProvider(rest, query, threshold).value == rest[i].source
            && forall j :: 0 <= j < i ==> !ProviderHas(rest[j], query, threshold);
          assert providers[i + 1] == rest[i];
          assert forall j :: 0 < j < i + 1 ==> providers[j] == rest[j - 1];
        }
      }
    }
  }
}
