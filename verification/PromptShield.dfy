/**
 Prompt scoring in exact arithmetic. A prompt counts only through which rules matched it; the patterns
 themselves are not part of this model.
 */
module PromptShield {

  datatype Kind = MinorIndicator | SexualContext | ConjunctionBypass

  datatype Rule = Rule(id: string, kind: Kind, weight: real)

  const BOOTSTRAP_RULES: seq<Rule> := [
    Rule("minor-explicit-age", MinorIndicator, 0.9),
    Rule("minor-noun-direct", MinorIndicator, 0.6),
    Rule("minor-context", MinorIndicator, 0.5),
    Rule("sexual-explicit-noun", SexualContext, 0.7),
    Rule("sexual-act-generic", SexualContext, 0.8),
    Rule("sexual-body-context", SexualContext, 0.5),
    Rule("bypass-negative-adult", ConjunctionBypass, 0.3),
    Rule("minor-descriptive", MinorIndicator, 0.7),
    Rule("minor-age-number", MinorIndicator, 0.7),
    Rule("sexual-pose-context", SexualContext, 0.5),
    Rule("sexual-act-extended", SexualContext, 0.8),
    Rule("euphemism-as-minor", MinorIndicator, 0.95),
    Rule("euphemism-as-sexual", SexualContext, 0.95)
  ]

  /** The rules whose pattern the prompt matches, in rule order. */
  function Signals(rules: seq<Rule>, matching: set<string>): seq<Rule> {
    if rules == [] then []
    else (if rules[0].id in matching then [rules[0]] else []) + Signals(rules[1..], matching)
  }

  method MatchRules(rules: seq<Rule>, matching: set<string>) returns (signals: seq<Rule>)
    ensures signals == Signals(rules, matching)
  {
    signals := [];
    for i := 0 to |rules|
      invariant signals + Signals(rules[i..], matching) == Signals(rules, matching)
    {
      assert rules[i..][1..] == rules[i + 1..];
      if rules[i].id in matching {
        signals := signals + [rules[i]];
      }
    }
  }

  predicate HasKind(signals: seq<Rule>, kind: Kind) {
    exists i :: 0 <= i < |signals| && signals[i].kind == kind
  }

  predicate SatisfiesConjunction(signals: seq<Rule>) {
    HasKind(signals, MinorIndicator) && HasKind(signals, SexualContext)
  }

  function TotalWeight(signals: seq<Rule>): real {
    if signals == [] then 0.0 else signals[0].weight + TotalWeight(signals[1..])
  }

  function WeightOf(signals: seq<Rule>, kind: Kind): real {
    if signals == [] then 0.0
    else (if signals[0].kind == kind then signals[0].weight else 0.0) + WeightOf(signals[1..], kind)
  }

  function Max(a: real, b: real): real {
    if a >= b then a else b
  }

  function Min(a: real, b: real): real {
    if a <= b then a else b
  }

  /** The greatest weight of a kind, 0 when there is none. */
  function MaxWeight(signals: seq<Rule>, kind: Kind): real {
    if signals == [] then 0.0
    else if signals[0].kind == kind then Max(signals[0].weight, MaxWeight(signals[1..], kind))
    else MaxWeight(signals[1..], kind)
  }

  function ConjunctionScore(signals: seq<Rule>): real {
    if !SatisfiesConjunction(signals) then Min(0.4, TotalWeight(signals) * 0.3)
    else
      Min(1.0, 0.5 + 0.3 * MaxWeight(signals, MinorIndicator) + 0.3 * MaxWeight(signals, SexualContext)
               + WeightOf(signals, ConjunctionBypass) * 0.2)
  }

  datatype Verdict = Allow | Review | Block

  datatype Thresholds = Thresholds(blockAt: real, reviewAt: real)

  const DEFAULT_THRESHOLDS := Thresholds(0.75, 0.5)

  function VerdictForScore(score: real, t: Thresholds): Verdict {
    if score >= t.blockAt then Block else if score >= t.reviewAt then Review else Allow
  }

  /** The heuristic second stage: the same score, raised when an evasion phrase is present. */
  method HeuristicClassify(signals: seq<Rule>, obfuscated: bool) returns (score: real, all: seq<Rule>)
    ensures score == HeuristicScore(signals, obfuscated)
    ensures signals <= all && |all| == |signals| + if obfuscated then 1 else 0
  {
    score := ConjunctionScore(signals);
    var extra: seq<Rule> := [];
    if obfuscated {
      extra := extra + [Rule("neural-obfuscation", ConjunctionBypass, 0.15)];
      score := Min(1.0, score + 0.15);
    }
    all := signals + extra;
  }

  function HeuristicScore(signals: seq<Rule>, obfuscated: bool): real {
    if obfuscated then Min(1.0, ConjunctionScore(signals) + 0.15) else ConjunctionScore(signals)
  }

  /** The cascade; `stage2` says whether the heuristic baseline is configured. */
  function Classify(signals: seq<Rule>, obfuscated: bool, stage2: bool, t: Thresholds): Verdict {
    var score := ConjunctionScore(signals);
    if score >= t.blockAt then Block
    else if score < t.reviewAt && !stage2 then Allow
    else if !stage2 then VerdictForScore(score, t)
    else VerdictForScore(Max(score, HeuristicScore(signals, obfuscated)), t)
  }

  predicate AtLeast(v: Verdict, w: Verdict) {
    v == w || v == Block || w == Allow
  }

  // ----- monotonicity -----

  predicate NonNegative(rules: seq<Rule>) {
    forall i :: 0 <= i < |rules| ==> rules[i].weight >= 0.0
  }

  lemma {:induction false} SignalsGrow(rules: seq<Rule>, fewer: set<string>, more: set<string>, kind: Kind)
    requires fewer <= more && NonNegative(rules)
    ensures 0.0 <= TotalWeight(Signals(rules, fewer)) <= TotalWeight(Signals(rules, more))
    ensures 0.0 <= WeightOf(Signals(rules, fewer), kind) <= WeightOf(Signals(rules, more), kind)
    ensures 0.0 <= MaxWeight(Signals(rules, fewer), kind) <= MaxWeight(Signals(rules, more), kind)
  {
    if rules != [] {
      SignalsGrow(rules[1..], fewer, more, kind);
      SignalsStep(rules, fewer, kind);
      SignalsStep(rules, more, kind);
    }
  }

  lemma SignalsStep(rules: seq<Rule>, matching: set<string>, kind: Kind)
    requires rules != []
    ensures var s, rest := Signals(rules, matching), Signals(rules[1..], matching);
      var r, on := rules[0], rules[0].id in matching;
      && TotalWeight(s) == (if on then r.weight else 0.0) + TotalWeight(rest)
      && WeightOf(s, kind) == (if on && r.kind == kind then r.weight else 0.0) + WeightOf(rest, kind)
      && MaxWeight(s, kind) == if on && r.kind == kind then Max(r.weight, MaxWeight(rest, kind)) else MaxWeight(rest, kind)
  {
    var rest := Signals(rules[1..], matching);
    assert ([rules[0]] + rest)[1..] == rest;
    assert [] + rest == rest;
  }

  lemma {:induction false} SignalsMeaning(rules: seq<Rule>, matching: set<string>, r: Rule)
    ensures r in Signals(rules, matching) <==> r in rules && r.id in matching
  {
    if rules != [] {
      SignalsMeaning(rules[1..], matching, r);
      assert rules == [rules[0]] + rules[1..];
    }
  }

  lemma KindsGrow(rules: seq<Rule>, fewer: set<string>, more: set<string>, kind: Kind)
    requires fewer <= more && HasKind(Signals(rules, fewer), kind)
    ensures HasKind(Signals(rules, more), kind)
  {
    var i :| 0 <= i < |Signals(rules, fewer)| && Signals(rules, fewer)[i].kind == kind;
    var r := Signals(rules, fewer)[i];
    SignalsMeaning(rules, fewer, r);
    SignalsMeaning(rules, more, r);
    var j :| 0 <= j < |Signals(rules, more)| && Signals(rules, more)[j] == r;
  }

  /** A prompt that matches more rules never scores lower, the jump into the conjunction included. */
  lemma ScoreMonotone(rules: seq<Rule>, fewer: set<string>, more: set<string>)
    requires fewer <= more && NonNegative(rules)
    ensures ConjunctionScore(Signals(rules, fewer)) <= ConjunctionScore(Signals(rules, more))
  {
    var s, t := Signals(rules, fewer), Signals(rules, more);
    SignalsGrow(rules, fewer, more, MinorIndicator);
    SignalsGrow(rules, fewer, more, SexualContext);
    SignalsGrow(rules, fewer, more, ConjunctionBypass);
    if SatisfiesConjunction(s) {
      KindsGrow(rules, fewer, more, MinorIndicator);
      KindsGrow(rules, fewer, more, SexualContext);
    }
  }

  // ----- verdicts -----

  /** Every indicator weighs at least a half, as all bootstrap rules do. */
  predicate Calibrated(rules: seq<Rule>) {
    NonNegative(rules) && forall i :: 0 <= i < |rules| && rules[i].kind != ConjunctionBypass ==> rules[i].weight >= 0.5
  }

  lemma BootstrapCalibrated()
    ensures Calibrated(BOOTSTRAP_RULES)
  {
  }

  lemma {:induction false} MaxWeightAtLeast(signals: seq<Rule>, i: nat)
    requires i < |signals|
    ensures MaxWeight(signals, signals[i].kind) >= signals[i].weight
  {
    if i > 0 {
      MaxWeightAtLeast(signals[1..], i - 1);
    }
  }

  lemma IndicatorWeight(rules: seq<Rule>, matching: set<string>, kind: Kind)
    requires Calibrated(rules) && kind != ConjunctionBypass && HasKind(Signals(rules, matching), kind)
    ensures MaxWeight(Signals(rules, matching), kind) >= 0.5
  {
    var signals := Signals(rules, matching);
    var i :| 0 <= i < |signals| && signals[i].kind == kind;
    SignalsMeaning(rules, matching, signals[i]);
    MaxWeightAtLeast(signals, i);
  }

  /** Without the conjunction a score stays at most 0.4; with it, it is at least 0.8. */
  lemma ScoreGap(rules: seq<Rule>, matching: set<string>)
    requires Calibrated(rules)
    ensures var s := Signals(rules, matching);
      if SatisfiesConjunction(s) then ConjunctionScore(s) >= 0.8 else ConjunctionScore(s) <= 0.4
  {
    if SatisfiesConjunction(Signals(rules, matching)) {
      IndicatorWeight(rules, matching, MinorIndicator);
      IndicatorWeight(rules, matching, SexualContext);
      SignalsGrow(rules, matching, matching, ConjunctionBypass);
    }
  }

  /** With default thresholds the pattern stage blocks exactly on the conjunction and otherwise allows. */
  lemma PatternStageBlocksOnConjunction(rules: seq<Rule>, matching: set<string>, obfuscated: bool)
    requires Calibrated(rules)
    ensures var s := Signals(rules, matching);
      Classify(s, obfuscated, false, DEFAULT_THRESHOLDS) == if SatisfiesConjunction(s) then Block else Allow
  {
    ScoreGap(rules, matching);
  }

  /** Whether one of the three answers is given, for any thresholds: a score at a threshold counts as reaching it. */
  lemma VerdictBoundaries(score: real, t: Thresholds)
    requires t.reviewAt <= t.blockAt
    ensures score == 0.75 ==> VerdictForScore(score, DEFAULT_THRESHOLDS) == Block
    ensures 0.5 <= score < 0.75 ==> VerdictForScore(score, DEFAULT_THRESHOLDS) == Review
    ensures score < 0.5 ==> VerdictForScore(score, DEFAULT_THRESHOLDS) == Allow
    ensures VerdictForScore(t.blockAt, t) == Block
    ensures t.reviewAt < t.blockAt ==> VerdictForScore(t.reviewAt, t) == Review
    ensures score < t.reviewAt ==> VerdictForScore(score, t) == Allow
    ensures t.reviewAt < score < t.blockAt ==> VerdictForScore(score, t) == Review
    ensures score > t.blockAt ==> VerdictForScore(score, t) == Block
  {
  }

  /**
   The default answer of stage two, completely: the conjunction blocks; without it a prompt is reviewed
   exactly when it uses an evasion phrase and its signals weigh at least 7/6 together.
   */
  lemma HeuristicVerdict(rules: seq<Rule>, matching: set<string>, obfuscated: bool)
    requires Calibrated(rules)
    ensures var s := Signals(rules, matching);
      Classify(s, obfuscated, true, DEFAULT_THRESHOLDS) ==
        if HasKind(s, MinorIndicator) && HasKind(s, SexualContext) then Block
        else if obfuscated && 6.0 * TotalWeight(s) >= 7.0 then Review
        else Allow
  {
    ScoreGap(rules, matching);
    SignalsGrow(rules, matching, matching, ConjunctionBypass);
  }

  /** Signal i is of this kind and none of the kind is heavier. */
  predicate Heaviest(signals: seq<Rule>, kind: Kind, i: nat) {
    i < |signals| && signals[i].kind == kind
    && forall j :: 0 <= j < |signals| && signals[j].kind == kind ==> signals[j].weight <= signals[i].weight
  }

  lemma {:induction false} MaxWeightReached(signals: seq<Rule>, kind: Kind)
    requires NonNegative(signals) && HasKind(signals, kind)
    ensures exists i :: 0 <= i < |signals| && signals[i].kind == kind && signals[i].weight == MaxWeight(signals, kind)
  {
    var rest := signals[1..];
    if HasKind(rest, kind) {
      MaxWeightReached(rest, kind);
      var i :| 0 <= i < |rest| && rest[i].kind == kind && rest[i].weight == MaxWeight(rest, kind);
      assert signals[i + 1] == rest[i];
      assert signals[0].kind == kind ==> MaxWeight(signals, kind) in {signals[0].weight, signals[i + 1].weight};
    } else {
      NoWeight(rest, kind);
      var i :| 0 <= i < |signals| && signals[i].kind == kind;
      assert forall k :: 0 < k < |signals| ==> signals[k] == rest[k - 1];
      assert signals[0].kind == kind && MaxWeight(signals, kind) == signals[0].weight;
    }
  }

  lemma {:induction false} NoWeight(signals: seq<Rule>, kind: Kind)
    requires !HasKind(signals, kind)
    ensures MaxWeight(signals, kind) == 0.0 && WeightOf(signals, kind) == 0.0
  {
    if signals != [] {
      assert signals[0].kind != kind;
      forall i | 0 <= i < |signals[1..]| ensures signals[1..][i].kind != kind {
        assert signals[1..][i] == signals[i + 1];
      }
      NoWeight(signals[1..], kind);
    }
  }

  lemma HeaviestWeight(signals: seq<Rule>, kind: Kind, i: nat)
    requires NonNegative(signals) && Heaviest(signals, kind, i)
    ensures MaxWeight(signals, kind) == signals[i].weight
  {
    MaxWeightAtLeast(signals, i);
    MaxWeightReached(signals, kind);
  }

  /**
   The score in terms of the signals: without the conjunction three tenths of their whole weight, at most
   0.4; with it a half, three tenths of the heaviest of each kind and a fifth of the bypass weight, at most 1.
   */
  lemma ScoreMeaning(signals: seq<Rule>, i: nat, j: nat)
    requires NonNegative(signals)
    ensures !(HasKind(signals, MinorIndicator) && HasKind(signals, SexualContext)) ==>
      ConjunctionScore(signals) == if TotalWeight(signals) * 3.0 <= 4.0 then TotalWeight(signals) * 0.3 else 0.4
    ensures Heaviest(signals, MinorIndicator, i) && Heaviest(signals, SexualContext, j) ==>
      var score := 0.5 + 0.3 * signals[i].weight + 0.3 * signals[j].weight + 0.2 * WeightOf(signals, ConjunctionBypass);
      ConjunctionScore(signals) == if score <= 1.0 then score else 1.0
  {
    if Heaviest(signals, MinorIndicator, i) && Heaviest(signals, SexualContext, j) {
      HeaviestWeight(signals, MinorIndicator, i);
      HeaviestWeight(signals, SexualContext, j);
    }
  }

  /** Two signals of the source's own rules and a bypass: 0.5 + 0.18 + 0.15 + 0.06. */
  lemma ScoreVector()
    ensures ConjunctionScore([BOOTSTRAP_RULES[1], BOOTSTRAP_RULES[5], BOOTSTRAP_RULES[6]]) == 0.89
  {
    var signals := [BOOTSTRAP_RULES[1], BOOTSTRAP_RULES[5], BOOTSTRAP_RULES[6]];
    ScoreMeaning(signals, 0, 1);
    assert signals[1..] == [BOOTSTRAP_RULES[5], BOOTSTRAP_RULES[6]] && signals[1..][1..] == [BOOTSTRAP_RULES[6]];
    assert WeightOf(signals[1..][1..], ConjunctionBypass) == 0.3;
    assert WeightOf(signals[1..], ConjunctionBypass) == 0.3;
    assert WeightOf(signals, ConjunctionBypass) == 0.3;
  }

  /** A score that reaches the block threshold blocks, whatever the other settings. */
  lemma BlockThresholdRules(signals: seq<Rule>, obfuscated: bool, stage2: bool, t: Thresholds)
    ensures ConjunctionScore(signals) >= t.blockAt ==> Classify(signals, obfuscated, stage2, t) == Block
  {
  }

  /** For any thresholds the heuristic stage can only raise a verdict. */
  lemma HeuristicNeverLowers(signals: seq<Rule>, obfuscated: bool, t: Thresholds)
    ensures AtLeast(Classify(signals, obfuscated, true, t), Classify(signals, obfuscated, false, t))
  {
  }

  /** With default thresholds it never blocks without the conjunction either: 0.4 + 0.15 stays below 0.75. */
  lemma HeuristicBlocksOnConjunction(rules: seq<Rule>, matching: set<string>, obfuscated: bool)
    requires Calibrated(rules)
    ensures var s := Signals(rules, matching);
      Classify(s, obfuscated, true, DEFAULT_THRESHOLDS) == Block <==> SatisfiesConjunction(s)
  {
    ScoreGap(rules, matching);
  }
}
