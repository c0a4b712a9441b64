/** Aggregate wellbeing signals: three counters that report exact averages of a history never stored. */
module Wellbeing {
  import opened Limits

  datatype Signal = Fine | Mild | Moderate | High | Severe

  function Weight(s: Signal): u32 {
    match s
    case Fine => 0
    case Mild => 1
    case Moderate => 2
    case High => 3
    case Severe => 4
  }

  predicate Elevated(s: Signal) {
    s == High || s == Severe
  }

  datatype Report =
    | InsufficientCohort(have: u32, need: u32)
    | Aggregate(cohortSize: u32, meanStrainCenti: u32, elevatedShareBps: u32, supportRecommended: bool)

  /** The counters at one moment. */
  datatype Counters = Counters(minCohort: u32, count: u32, weightSum: u64, elevatedCount: u32)

  function Initial(minCohort: u32): (c: Counters)
    ensures c.minCohort >= 5
  {
    Counters(if minCohort < 5 then 5 else minCohort, 0, 0, 0)
  }

  function Recorded(c: Counters, s: Signal): (r: Counters)
    ensures r.minCohort == c.minCohort
  {
    Counters(c.minCohort, SatIncrement(c.count), SatAdd(c.weightSum, Weight(s)),
             if Elevated(s) then SatIncrement(c.elevatedCount) else c.elevatedCount)
  }

  /** `as u32` keeps the low 32 bits. */
  function Truncate(n: nat): u32 {
    n % 0x1_0000_0000
  }

  /** Unchecked 64-bit multiplication. */
  function Mul64(a: u64, b: u64): u64 {
    (a * b) % 0x1_0000_0000_0000_0000
  }

  function Quotient(a: nat, n: nat): nat
    requires n > 0
  {
    a / n
  }

  function ReportOf(c: Counters): Report
    requires c.minCohort > 0
  {
    if c.count < c.minCohort then InsufficientCohort(c.count, c.minCohort)
    else
      var mean := Truncate(Quotient(Mul64(c.weightSum, 100), c.count));
      var share := Truncate(Quotient(Mul64(c.elevatedCount, 10_000), c.count));
      Aggregate(c.count, mean, share, share >= 2_000 || mean >= 250)
  }

  class WellbeingMonitor {
    const minCohort: u32
    var count: u32
    var weightSum: u64
    var elevatedCount: u32

    ghost function State(): Counters
      reads this
    {
      Counters(minCohort, count, weightSum, elevatedCount)
    }

    constructor (minCohort: u32)
      ensures State() == Initial(minCohort)
    {
      this.minCohort := if minCohort < 5 then 5 else minCohort;
      count, weightSum, elevatedCount := 0, 0, 0;
    }

    method Record(signal: Signal)
      modifies this
      ensures State() == Recorded(old(State()), signal)
    {
      count := SatIncrement(count);
      weightSum := SatAdd(weightSum, Weight(signal));
      if Elevated(signal) {
        elevatedCount := SatIncrement(elevatedCount);
      }
    }

    method Report() returns (r: Report)
      requires minCohort > 0
      ensures r == ReportOf(State())
    {
      if count < minCohort {
        return InsufficientCohort(count, minCohort);
      }
      var mean := Truncate(Quotient(Mul64(weightSum, 100), count));
      var share := Truncate(Quotient(Mul64(elevatedCount, 10_000), count));
      return Aggregate(count, mean, share, share >= 2_000 || mean >= 250);
    }
  }

  // ----- what the counters say about the history -----

  function AfterSignals(minCohort: u32, history: seq<Signal>): (c: Counters)
    ensures c.minCohort >= 5
  {
    if history == [] then Initial(minCohort)
    else Recorded(AfterSignals(minCohort, history[..|history| - 1]), history[|history| - 1])
  }

  function TotalWeight(history: seq<Signal>): nat {
    if history == [] then 0 else TotalWeight(history[..|history| - 1]) + Weight(history[|history| - 1])
  }

  function TotalElevated(history: seq<Signal>): nat {
    if history == [] then 0
    else TotalElevated(history[..|history| - 1]) + if Elevated(history[|history| - 1]) then 1 else 0
  }

  function Min(a: int, b: int): int {
    if a <= b then a else b
  }

  /** For histories of any length each counter is the true figure, capped at its width. */
  lemma {:induction false} CountersExact(minCohort: u32, history: seq<Signal>)
    ensures AfterSignals(minCohort, history) ==
      Counters(Initial(minCohort).minCohort,
               Min(|history|, 0xFFFF_FFFF),
               Min(TotalWeight(history), 0xFFFF_FFFF_FFFF_FFFF),
               Min(TotalElevated(history), 0xFFFF_FFFF))
  {
    if history != [] {
      CountersExact(minCohort, history[..|history| - 1]);
    }
  }

  lemma {:induction false} TotalsByCount(history: seq<Signal>)
    ensures var m := multiset(history);
      && TotalWeight(history) == m[Mild] + 2 * m[Moderate] + 3 * m[High] + 4 * m[Severe]
      && TotalElevated(history) == m[High] + m[Severe]
      && |history| == m[Fine] + m[Mild] + m[Moderate] + m[High] + m[Severe]
  {
    if history != [] {
      var front, last := history[..|history| - 1], history[|history| - 1];
      TotalsByCount(front);
      LastSignal(history);
      match last {
        case Fine =>
        case Mild =>
        case Moderate =>
        case High =>
        case Severe =>
      }
    }
  }

  lemma LastSignal(history: seq<Signal>)
    requires history != []
    ensures multiset(history) == multiset(history[..|history| - 1]) + multiset{history[|history| - 1]}
  {
    assert history == history[..|history| - 1] + [history[|history| - 1]];
  }

  /** Comparing a rounded-down quotient with an integer is comparing the dividend with a multiple. */
  lemma QuotientAtLeast(a: nat, n: nat, k: nat)
    requires n > 0
    ensures Quotient(a, n) >= k <==> a >= k * n
  {
    var q := a / n;
    assert q * n <= a < q * n + n;
    if q >= k {
      Monotone(k, q, n);
    } else {
      Monotone(q + 1, k, n);
    }
  }

  lemma Monotone(x: nat, y: nat, n: nat)
    requires x <= y
    ensures x * n <= y * n
  {
  }

  /** The report a history deserves, computed with exact rational floors. */
  function ExactReport(minCohort: u32, history: seq<Signal>): Report
    requires |history| <= 0xFFFF_FFFF
  {
    var need := if minCohort < 5 then 5 else minCohort;
    if |history| < need then InsufficientCohort(|history|, need)
    else
      TotalsByCount(history);
      QuotientAtLeast(TotalWeight(history) * 100, |history|, 401);
      QuotientAtLeast(TotalElevated(history) * 10_000, |history|, 10_001);
      var share := Quotient(TotalElevated(history) * 10_000, |history|);
      Aggregate(|history|, Quotient(TotalWeight(history) * 100, |history|), share, share >= 2_000)
  }

  /** A mean of 2.5 is impossible unless a quarter of the signals are elevated. */
  lemma HighMeanIsElevated(history: seq<Signal>)
    requires history != [] && Quotient(TotalWeight(history) * 100, |history|) >= 250
    ensures Quotient(TotalElevated(history) * 10_000, |history|) >= 2_500
  {
    TotalsByCount(history);
    var n, w, e := |history|, TotalWeight(history), TotalElevated(history);
    assert w <= 2 * n + 2 * e;
    QuotientAtLeast(w * 100, n, 250);
    QuotientAtLeast(e * 10_000, n, 2_500);
  }

  /**
   For up to 2^32 - 1 signals the report is exact, nothing saturates, overflows or truncates, and the
   second condition for recommending support never matters.
   */
  lemma ReportExact(minCohort: u32, history: seq<Signal>)
    requires |history| <= 0xFFFF_FFFF
    ensures ReportOf(AfterSignals(minCohort, history)) == ExactReport(minCohort, history)
    ensures var r := ExactReport(minCohort, history);
      r.Aggregate? ==> r.meanStrainCenti <= 400 && r.elevatedShareBps <= 10_000
  {
    CountersExact(minCohort, history);
    TotalsByCount(history);
    if |history| >= Initial(minCohort).minCohort {
      RatioExact(TotalWeight(history), 100, |history|, 400);
      RatioExact(TotalElevated(history), 10_000, |history|, 10_000);
      if Quotient(TotalWeight(history) * 100, |history|) >= 250 {
        HighMeanIsElevated(history);
      }
    }
  }

  /**
   What a report says about its history, without any division: withheld below the cohort, which is never
   less than five; the mean and the share are the greatest whole numbers not above the true ones; support
   is recommended exactly when a fifth of the signals are high or severe.
   */
  lemma ReportMeaning(minCohort: u32, history: seq<Signal>)
    requires |history| <= 0xFFFF_FFFF
    ensures var r, n, m := ReportOf(AfterSignals(minCohort, history)), |history|, multiset(history);
      var strain, elevated := m[Mild] + 2 * m[Moderate] + 3 * m[High] + 4 * m[Severe], m[High] + m[Severe];
      && (r.InsufficientCohort? <==> n < 5 || n < minCohort)
      && (r.InsufficientCohort? ==> r.have == n && r.need == if minCohort < 5 then 5 else minCohort)
      && (r.Aggregate? ==>
            && r.cohortSize == n
            && r.meanStrainCenti * n <= 100 * strain < (r.meanStrainCenti + 1) * n
            && r.elevatedShareBps * n <= 10_000 * elevated < (r.elevatedShareBps + 1) * n
            && (r.supportRecommended <==> 5 * elevated >= n))
  {
    ReportExact(minCohort, history);
    TotalsByCount(history);
    if history != [] {
      FloorMeaning(TotalWeight(history) * 100, |history|);
      FloorMeaning(TotalElevated(history) * 10_000, |history|);
      QuotientAtLeast(TotalElevated(history) * 10_000, |history|, 2_000);
    }
    hide Quotient;
  }

  lemma FloorMeaning(a: nat, n: nat)
    requires n > 0
    ensures Quotient(a, n) * n <= a < (Quotient(a, n) + 1) * n
  {
  }

  /** A bounded ratio computed in 64 bits and stored in 32 is the exact ratio. */
  lemma RatioExact(a: nat, scale: nat, n: nat, bound: nat)
    requires 0 < n <= 0xFFFF_FFFF && a * scale <= bound * n && bound <= 10_000 && a <= 0xFFFF_FFFF_FFFF_FFFF
    requires scale <= 10_000
    ensures Truncate(Quotient(Mul64(a, scale), n)) == Quotient(a * scale, n) <= bound
  {
    Monotone(bound, 10_000, n);
    assert a * scale <= 10_000 * 0xFFFF_FFFF;
    SmallProduct(a, scale);
    QuotientAtLeast(a * scale, n, bound + 1);
  }

  lemma SmallProduct(a: u64, b: u64)
    requires a * b < 0x1_0000_0000_0000_0000
    ensures Mul64(a, b) == a * b
  {
  }

  /** Only how many signals of each kind there were can be seen in a report, not their order. */
  lemma OrderInvisible(minCohort: u32, a: seq<Signal>, b: seq<Signal>)
    requires multiset(a) == multiset(b)
    ensures ReportOf(AfterSignals(minCohort, a)) == ReportOf(AfterSignals(minCohort, b))
  {
    CountersExact(minCohort, a);
    CountersExact(minCohort, b);
    TotalsByCount(a);
    TotalsByCount(b);
  }
}
