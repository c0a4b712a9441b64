/** How several detectors' results become one decision, and how one detector is retried. */
module Shield {
  import opened Decimal
  import opened Wrappers

  /** A contained detector that failed reports no match. */
  datatype DetectorResult = Ran(matched: bool) | Failed(error: string)

  datatype Strategy = AnyMatch | Majority | Consensus

  /** Unset reports failures as an error. */
  datatype OnError = Unset | Allow | Deny

  datatype Decision = Match | NoMatch | Error

  predicate Hit(r: DetectorResult) {
    r.Ran? && r.matched
  }

  function Hits(results: seq<DetectorResult>): nat {
    if results == [] then 0 else (if Hit(results[0]) then 1 else 0) + Hits(results[1..])
  }

  function Clean(results: seq<DetectorResult>): nat {
    if results == [] then 0 else (if results[0].Ran? then 1 else 0) + Clean(results[1..])
  }

  function DecideClean(strategy: Strategy, matched: nat, clean: nat, total: nat): Decision {
    match strategy
    case AnyMatch => if matched > 0 then Match else NoMatch
    case Majority => if matched * 2 > clean then Match else NoMatch
    case Consensus => if matched == clean && clean == total then Match else NoMatch
  }

  function Decide(results: seq<DetectorResult>, strategy: Strategy, onError: OnError): Decision {
    var matched, clean, total := Hits(results), Clean(results), |results|;
    if onError == Deny && clean < total then Match
    else if onError == Allow then
      if matched == 0 then NoMatch else DecideClean(strategy, matched, clean, total)
    else if clean == 0 then Error
    else if DecideClean(strategy, matched, clean, total) == Match then Match
    else if clean < total then Error
    else NoMatch
  }

  /** The adapters block on a match and on an error. */
  predicate Refused(results: seq<DetectorResult>, strategy: Strategy, onError: OnError) {
    Decide(results, strategy, onError) != NoMatch
  }

  // ----- counting -----

  lemma {:induction false} CountsMeaning(results: seq<DetectorResult>)
    ensures Hits(results) <= Clean(results) <= |results|
    ensures Hits(results) > 0 <==> exists i :: 0 <= i < |results| && Hit(results[i])
    ensures Hits(results) == |results| <==> forall i :: 0 <= i < |results| ==> Hit(results[i])
    ensures Clean(results) == |results| <==> forall i :: 0 <= i < |results| ==> results[i].Ran?
  {
    if results != [] {
      var rest := results[1..];
      CountsMeaning(rest);
      assert forall i :: 0 < i < |results| ==> results[i] == rest[i - 1];
      if Hits(results) > 0 && !Hit(results[0]) {
        var i :| 0 <= i < |rest| && Hit(rest[i]);
        assert Hit(results[i + 1]);
      }
      if Hits(rest) < |rest| {
        var i :| 0 <= i < |rest| && !Hit(rest[i]);
        assert !Hit(results[i + 1]);
      }
      if Clean(rest) < |rest| {
        var i :| 0 <= i < |rest| && !rest[i].Ran?;
        assert !results[i + 1].Ran?;
      }
    }
  }

  lemma {:induction false} CountsOfChange(results: seq<DetectorResult>, i: nat)
    requires i < |results| && results[i] == Ran(false)
    ensures Hits(results[i := Ran(true)]) == Hits(results) + 1
    ensures Clean(results[i := Ran(true)]) == Clean(results)
  {
    if i > 0 {
      CountsOfChange(results[1..], i - 1);
      assert results[i := Ran(true)][1..] == results[1..][i - 1 := Ran(true)];
    } else {
      assert results[i := Ran(true)][1..] == results[1..];
    }
  }

  // ----- decisions -----

  /** A stricter failure policy refuses whatever a laxer one refuses. */
  lemma RefusalsNest(results: seq<DetectorResult>, strategy: Strategy)
    requires results != []
    ensures Refused(results, strategy, Allow) ==> Refused(results, strategy, Unset)
    ensures Refused(results, strategy, Unset) ==> Refused(results, strategy, Deny)
  {
    CountsMeaning(results);
  }

  /** A consensus match is a majority match is an any-match, under every policy. */
  lemma StrategiesNest(results: seq<DetectorResult>, onError: OnError)
    requires results != []
    ensures Decide(results, Consensus, onError) == Match ==> Decide(results, Majority, onError) == Match
    ensures Decide(results, Majority, onError) == Match ==> Decide(results, AnyMatch, onError) == Match
  {
    CountsMeaning(results);
  }

  /** What the strategies decide, in terms of the detectors themselves, when failures are only reported. */
  lemma StrategiesMean(results: seq<DetectorResult>)
    requires results != []
    ensures Decide(results, AnyMatch, Unset) == Match <==> exists i :: 0 <= i < |results| && Hit(results[i])
    ensures Decide(results, Consensus, Unset) == Match <==> forall i :: 0 <= i < |results| ==> Hit(results[i])
    ensures Decide(results, AnyMatch, Unset) == NoMatch <==> forall i :: 0 <= i < |results| ==> results[i] == Ran(false)
  {
    CountsMeaning(results);
    if forall i :: 0 <= i < |results| ==> results[i] == Ran(false) {
      assert forall i :: 0 <= i < |results| ==> results[i].Ran? && !Hit(results[i]);
    } else {
      var i :| 0 <= i < |results| && results[i] != Ran(false);
      assert Hit(results[i]) || !results[i].Ran?;
    }
  }

  /** The detectors with this outcome. */
  function Positions(results: seq<DetectorResult>, r: DetectorResult): set<nat> {
    set i: nat | i < |results| && results[i] == r
  }

  /** What each strategy asks for, in terms of who hit, who missed and who failed. */
  predicate Wins(results: seq<DetectorResult>, strategy: Strategy) {
    match strategy
    case AnyMatch => exists i :: 0 <= i < |results| && results[i] == Ran(true)
    case Majority => |Positions(results, Ran(true))| > |Positions(results, Ran(false))|
    case Consensus => forall i :: 0 <= i < |results| ==> results[i] == Ran(true)
  }

  lemma PositionsGrow(results: seq<DetectorResult>, r: DetectorResult)
    requires results != []
    ensures var n := |results| - 1;
      |Positions(results, r)| == |Positions(results[..n], r)| + if results[n] == r then 1 else 0
  {
    var n := |results| - 1;
    var before, after := Positions(results[..n], r), Positions(results, r);
    forall i: nat ensures i in after <==> i in before || (i == n && results[n] == r) {
      assert i < n ==> results[..n][i] == results[i];
    }
    hide Positions;
    assert after == if results[n] == r then before + {n} else before;
  }

  lemma {:induction false} CountsFromBack(results: seq<DetectorResult>, last: DetectorResult)
    ensures Hits(results + [last]) == Hits(results) + if Hit(last) then 1 else 0
    ensures Clean(results + [last]) == Clean(results) + if last.Ran? then 1 else 0
  {
    if results == [] {
      assert results + [last] == [last] && [last][1..] == [];
    } else {
      assert (results + [last])[1..] == results[1..] + [last];
      CountsFromBack(results[1..], last);
    }
  }

  /** The tallies are the numbers of detectors with each outcome. */
  lemma {:induction false} CountsArePositions(results: seq<DetectorResult>)
    ensures Hits(results) == |Positions(results, Ran(true))|
    ensures Clean(results) == |Positions(results, Ran(true))| + |Positions(results, Ran(false))|
  {
    if results == [] {
      assert Positions(results, Ran(true)) == {} && Positions(results, Ran(false)) == {};
    } else {
      var n := |results| - 1;
      CountsArePositions(results[..n]);
      CountsFromBack(results[..n], results[n]);
      assert results == results[..n] + [results[n]];
      PositionsGrow(results, Ran(true));
      PositionsGrow(results, Ran(false));
    }
  }

  lemma WinsMeaning(results: seq<DetectorResult>, strategy: Strategy)
    requires results != []
    ensures DecideClean(strategy, Hits(results), Clean(results), |results|) == Match <==> Wins(results, strategy)
    ensures DecideClean(strategy, Hits(results), Clean(results), |results|) != Error
  {
    CountsMeaning(results);
    CountsArePositions(results);
    if Wins(results, Consensus) {
      assert forall i :: 0 <= i < |results| ==> Hit(results[i]);
    }
    if AllRan(results) && Hits(results) == |results| {
      assert forall i :: 0 <= i < |results| ==> Hit(results[i]);
    }
  }

  predicate AllRan(results: seq<DetectorResult>) {
    forall i :: 0 <= i < |results| ==> results[i].Ran?
  }

  predicate NoneRan(results: seq<DetectorResult>) {
    forall i :: 0 <= i < |results| ==> results[i].Failed?
  }

  /**
   Every decision, for every policy and strategy, by who hit, who missed and who failed. Deny turns any
   failure into a match; allow never reports an error and needs a hit; unset reports a failure unless the
   strategy is won all the same.
   */
  lemma DecisionTable(results: seq<DetectorResult>, strategy: Strategy)
    requires results != []
    ensures Decide(results, strategy, Deny) ==
      if !AllRan(results) || Wins(results, strategy) then Match else NoMatch
    ensures Decide(results, strategy, Allow) ==
      if Wins(results, AnyMatch) && Wins(results, strategy) then Match else NoMatch
    ensures Decide(results, strategy, Unset) ==
      if !NoneRan(results) && Wins(results, strategy) then Match
      else if AllRan(results) then NoMatch
      else Error
  {
    CountsMeaning(results);
    WinsMeaning(results, strategy);
    WinsMeaning(results, AnyMatch);
    NoneRanMeaning(results);
  }

  lemma {:induction false} NoneRanMeaning(results: seq<DetectorResult>)
    ensures Clean(results) == 0 <==> NoneRan(results)
  {
    if results != [] {
      NoneRanMeaning(results[1..]);
      assert forall i :: 0 < i < |results| ==> results[i] == results[1..][i - 1];
      if Clean(results[1..]) > 0 {
        var i :| 0 <= i < |results[1..]| && !results[1..][i].Failed?;
        assert !results[i + 1].Failed?;
      }
    }
  }

  /** Without any detector there is nothing to go by: an error, unless failures are allowed. */
  lemma NoDetectors(strategy: Strategy, onError: OnError)
    ensures Decide([], strategy, onError) == if onError == Allow then NoMatch else Error
  {
  }

  /** A tie is no majority. */
  lemma TieIsNoMajority()
    ensures Decide([Ran(true), Ran(false)], Majority, Unset) == NoMatch
    ensures Decide([Ran(true), Failed("timed out")], Majority, Unset) == Match
  {
    assert [Ran(true), Ran(false)][1..] == [Ran(false)] && [Ran(false)][1..] == [];
    assert [Ran(true), Failed("timed out")][1..] == [Failed("timed out")] && [Failed("timed out")][1..] == [];
  }

  /** One more detector reporting a hit never withdraws a match. */
  lemma HitsNeverUnmatch(results: seq<DetectorResult>, i: nat, strategy: Strategy, onError: OnError)
    requires i < |results| && results[i] == Ran(false)
    ensures Decide(results, strategy, onError) == Match ==>
      Decide(results[i := Ran(true)], strategy, onError) == Match
  {
    CountsMeaning(results);
    CountsMeaning(results[i := Ran(true)]);
    CountsOfChange(results, i);
  }

  /** The results of the detectors that ran. */
  function CleanOnly(results: seq<DetectorResult>): seq<DetectorResult> {
    if results == [] then []
    else (if results[0].Ran? then [results[0]] else []) + CleanOnly(results[1..])
  }

  lemma {:induction false} CountsOfClean(results: seq<DetectorResult>)
    ensures Hits(CleanOnly(results)) == Hits(results)
    ensures Clean(CleanOnly(results)) == Clean(results) == |CleanOnly(results)|
  {
    if results != [] {
      var rest := CleanOnly(results[1..]);
      CountsOfClean(results[1..]);
      assert ([results[0]] + rest)[1..] == rest && [] + rest == rest;
    }
  }

  /**
   The fail-open policy is documented to drop failed detectors from the tally. It decides like the clean
   results alone except in one case: under consensus, a failure beside unanimous hits makes it a miss.
   */
  lemma AllowDropsFailures(results: seq<DetectorResult>, strategy: Strategy)
    ensures Decide(results, strategy, Allow) == Decide(CleanOnly(results), strategy, Allow) <==>
      !(strategy == Consensus && 0 < Hits(results) == Clean(results) < |results|)
    ensures strategy == Consensus && Clean(results) < |results| ==> Decide(results, strategy, Allow) == NoMatch
  {
    CountsMeaning(results);
    CountsOfClean(results);
  }

  // ----- retries -----

  /** The outcome of one timed attempt. */
  datatype Attempt = Returns(matched: bool) | Fails(message: string)

  datatype RetryPolicy = RetryPolicy(maxRetries: int)

  function MaxRetries(own: Option<RetryPolicy>, shield: Option<RetryPolicy>): nat {
    var policy := if own.Some? then own else shield;
    if policy.Some? && policy.value.maxRetries > 0 then policy.value.maxRetries else 0
  }

  /** A detector's own policy counts even when it allows fewer retries; the shield's is only a default. */
  lemma OwnPolicyWins(own: Option<RetryPolicy>, shield: Option<RetryPolicy>)
    ensures own.Some? ==> MaxRetries(own, shield) == MaxRetries(own, None)
    ensures own.None? && shield.Some? ==> MaxRetries(own, shield) == MaxRetries(shield, None)
    ensures own.None? && shield.None? ==> MaxRetries(own, shield) == 0
    ensures own.Some? && own.value.maxRetries >= 0 ==> MaxRetries(own, shield) == own.value.maxRetries
    ensures own.Some? && own.value.maxRetries < 0 ==> MaxRetries(own, shield) == 0
  {
  }

  function FailureText(message: string, attempts: nat): string {
    if attempts > 1 then message + " (after " + FormatInt(attempts) + " attempts)" else message
  }

  /** The text names the number of attempts only when there was more than one. */
  lemma FailureTexts(message: string)
    ensures FailureText(message, 1) == message
    ensures FailureText(message, 3) == message + " (after 3 attempts)"
  {
    assert Digits(3) == "3";
    assert message + " (after " + "3" + " attempts)" == message + " (after 3 attempts)";
  }

  /**
   Attempts until the first clean result, at most once more than the retries allowed; a detector that
   never comes back clean is contained as a failure carrying its last message.
   */
  method RunDetector(attempt: nat -> Attempt, own: Option<RetryPolicy>, shield: Option<RetryPolicy>)
    returns (r: DetectorResult, attempts: nat)
    ensures 1 <= attempts <= MaxRetries(own, shield) + 1
    ensures forall k :: 0 <= k < attempts - 1 ==> attempt(k).Fails?
    ensures r.Ran? <==> attempt(attempts - 1).Returns?
    ensures r.Ran? ==> r.matched == attempt(attempts - 1).matched
    ensures r.Failed? ==> attempts == MaxRetries(own, shield) + 1
    ensures r.Failed? ==> r.error == FailureText(attempt(attempts - 1).message, attempts)
  {
    var maxRetries := MaxRetries(own, shield);
    var lastError := "";
    var n := 0;
    while n <= maxRetries
      invariant n <= maxRetries + 1
      invariant forall k :: 0 <= k < n ==> attempt(k).Fails?
      invariant n > 0 ==> lastError == attempt(n - 1).message
    {
      match attempt(n) {
        case Returns(matched) => return Ran(matched), n + 1;
        case Fails(message) => lastError := message;
      }
      n := n + 1;
    }
    return Failed(FailureText(lastError, maxRetries + 1)), n;
  }
}
