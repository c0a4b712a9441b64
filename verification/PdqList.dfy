/** The SDKs' list matcher: compare a hash with an operator-supplied list, stopping at the first match. */
module PdqList {
  import opened Hamming
  import opened Text
  import opened Wrappers

  /** Hashes of different lengths are infinitely far apart, which None stands for. */
  function DistanceTo(query: seq<bv8>, entry: seq<bv8>): Option<nat> {
    if |query| == |entry| then Some(Distance(query, entry)) else None
  }

  predicate Within(query: seq<bv8>, entry: seq<bv8>, threshold: nat) {
    |query| == |entry| && Distance(query, entry) <= threshold
  }

  predicate SomeWithin(query: seq<bv8>, list: seq<seq<bv8>>, threshold: nat) {
    exists k :: 0 <= k < |list| && Within(query, list[k], threshold)
  }

  /** The TypeScript loop, with the parallel bit count. */
  method HammingDistance(a: seq<bv8>, b: seq<bv8>) returns (d: Option<nat>)
    ensures d == DistanceTo(a, b)
  {
    hide Differing, Popcount8;
    if |a| != |b| {
      return None;
    }
    var distance := 0;
    for i := 0 to |a|
      invariant distance == Distance(a[..i], b[..i])
    {
      PopcountOfDifference(a[i], b[i]);
      DistanceAppend(a[..i], b[..i], a[i], b[i]);
      assert a[..i + 1] == a[..i] + [a[i]] && b[..i + 1] == b[..i] + [b[i]];
      distance := distance + Popcount8(a[i] ^ b[i]) as nat;
    }
    assert a[..|a|] == a && b[..|b|] == b;
    return Some(distance);
  }

  lemma PopcountOfDifference(x: bv8, y: bv8)
    ensures Popcount8(x ^ y) as nat == Differing(x, y)
  {
    PopcountCorrect(x ^ y);
  }

  /** Infinity is greater than every number. */
  predicate Less(a: Option<nat>, b: Option<nat>) {
    a.Some? && (b.None? || a.value < b.value)
  }

  predicate AtMost(a: Option<nat>, threshold: nat) {
    a.Some? && a.value <= threshold
  }

  /**
   The scan loop of `runPDQ` and `run_pdq`. Despite the early exit the verdict is exactly "some entry is
   within the threshold". The distance it reports is the first match's, or the minimum when nothing matched.
   */
  method Scan(query: seq<bv8>, list: seq<seq<bv8>>, threshold: nat) returns (matched: bool, best: Option<nat>)
    ensures Reported(query, list, threshold, matched, best)
    ensures IsMinimum(query, list, best) <==> NothingNearerBehind(query, list, threshold)
  {
    best := None;
    for i := 0 to |list|
      invariant forall j :: 0 <= j < i ==> !Within(query, list[j], threshold) && !Less(DistanceTo(query, list[j]), best)
      invariant !AtMost(best, threshold)
      invariant best.Some? ==> exists j :: 0 <= j < i && best == DistanceTo(query, list[j])
    {
      var distance := HammingDistance(query, list[i]);
      if Less(distance, best) {
        best := distance;
      }
      if AtMost(best, threshold) {
        assert FirstMatch(query, list, threshold, i);
        MinimumExactlyWhen(query, list, threshold, true, best);
        return true, best;
      }
    }
    MinimumExactlyWhen(query, list, threshold, false, best);
    return false, best;
  }

  /** Entry i is where the loop stops. */
  predicate FirstMatch(query: seq<bv8>, list: seq<seq<bv8>>, threshold: nat, i: nat) {
    i < |list| && Within(query, list[i], threshold) && forall j :: 0 <= j < i ==> !Within(query, list[j], threshold)
  }

  /** No entry is nearer than the reported distance. */
  predicate IsMinimum(query: seq<bv8>, list: seq<seq<bv8>>, best: Option<nat>) {
    forall k :: 0 <= k < |list| ==> !Less(DistanceTo(query, list[k]), best)
  }

  /** Nothing behind the first match is strictly nearer than it. */
  ghost predicate NothingNearerBehind(query: seq<bv8>, list: seq<seq<bv8>>, threshold: nat) {
    forall i: nat, j :: FirstMatch(query, list, threshold, i) && i < j < |list| ==>
      !Less(DistanceTo(query, list[j]), DistanceTo(query, list[i]))
  }

  /** What the loop promises of its two results; `Scan` establishes it. */
  ghost predicate Reported(query: seq<bv8>, list: seq<seq<bv8>>, threshold: nat, matched: bool, best: Option<nat>) {
    && (matched <==> SomeWithin(query, list, threshold))
    && (matched ==> exists k: nat :: FirstMatch(query, list, threshold, k) && best == DistanceTo(query, list[k]))
    && (!matched ==>
          && (best.Some? ==> exists k :: 0 <= k < |list| && best == DistanceTo(query, list[k]))
          && IsMinimum(query, list, best))
  }

  /**
   The reported "minHamming" is the minimum over the list exactly when no entry behind the first match is
   strictly nearer. Without a match it always is.
   */
  lemma MinimumExactlyWhen(query: seq<bv8>, list: seq<seq<bv8>>, threshold: nat, matched: bool, best: Option<nat>)
    requires Reported(query, list, threshold, matched, best)
    ensures IsMinimum(query, list, best) <==> NothingNearerBehind(query, list, threshold)
  {
    hide Distance;
    if matched {
      var i: nat :| FirstMatch(query, list, threshold, i) && best == DistanceTo(query, list[i]);
      assert forall k: nat :: FirstMatch(query, list, threshold, k) ==> k == i;
    }
  }

  /** The threshold itself still matches; one bit less does not. */
  lemma ThresholdInclusive(query: seq<bv8>, entry: seq<bv8>, threshold: nat)
    requires |query| == |entry|
    ensures Within(query, entry, threshold) <==> threshold >= Distance(query, entry)
    ensures Within(query, entry, Distance(query, entry))
  {
  }

  /** The reported "minHamming" need not be the minimum: an exact match later in the list goes unseen. */
  method ReportsFirstNotNearest(query: seq<bv8>, near: seq<bv8>, threshold: nat) returns (best: Option<nat>)
    requires |near| == |query| && near != query && Distance(query, near) <= threshold
    ensures best == Some(Distance(query, near)) && best.value > 0 && DistanceTo(query, query) == Some(0)
  {
    var list := [near, query];
    var matched, reported := Scan(query, list, threshold);
    assert Within(query, list[0], threshold);
    DistanceZero(query, near);
    DistanceZero(query, query);
    best := reported;
  }

  // ----- the byte-folding hash -----

  /** Low eight bits of a position. */
  function Low(i: nat): bv8 {
    ByteOf(i % 256)
  }

  /** The byte n above zero; `LowIsModular` gives its value. */
  function ByteOf(n: nat): bv8 {
    if n == 0 then 0 else Plus(ByteOf(n - 1), 1)
  }

  function Plus(x: bv8, y: bv8): bv8 {
    x + y
  }

  function Seed(width: nat): seq<bv8> {
    seq(width, i requires 0 <= i < width => Low(i * 31 + 7))
  }

  function Times131(byte: bv8): bv8 {
    byte * 131
  }

  function Sum(lane: bv8, product: bv8, low: bv8): bv8 {
    Plus(Plus(lane, product), low)
  }

  function MixBytes(lane: bv8, byte: bv8, low: bv8): bv8 {
    Sum(lane, Times131(byte), low)
  }

  function MixLane(lane: bv8, byte: bv8, position: nat): bv8 {
    MixBytes(lane, byte, Low(position))
  }

  /** Lanes after folding the first n bytes in. */
  function Folded(data: seq<bv8>, n: nat, width: nat): (lanes: seq<bv8>)
    requires n <= |data| && width > 0
    ensures |lanes| == width
  {
    if n == 0 then Seed(width)
    else
      var before := Folded(data, n - 1, width);
      var lane := (n - 1) % width;
      before[lane := MixLane(before[lane], data[n - 1], n - 1)]
  }

  function Rotate(carry: bv8): bv8 {
    (carry << 3) | (carry >> 5)
  }

  function MixCarry(lane: bv8, carry: bv8): bv8 {
    lane ^ Rotate(carry)
  }

  /** The diffusion pass from lane i on, each output lane mixed with the one before it. */
  function Diffused(lanes: seq<bv8>, carry: bv8): (out: seq<bv8>)
    ensures |out| == |lanes|
  {
    if lanes == [] then []
    else
      var mixed := MixCarry(lanes[0], carry);
      [mixed] + Diffused(lanes[1..], mixed)
  }

  function SyntheticHash(data: seq<bv8>, width: nat): seq<bv8>
    requires width > 0
  {
    Diffused(Folded(data, |data|, width), 0)
  }

  /** Both SDKs' loops, updating one buffer in place. */
  method DeriveSyntheticHash(data: seq<bv8>, width: nat) returns (out: array<bv8>)
    requires width > 0
    ensures fresh(out) && out[..] == SyntheticHash(data, width)
  {
    hide MixLane, MixCarry, Low;
    out := new bv8[width];
    for i := 0 to width
      invariant forall j :: 0 <= j < i ==> out[j] == Low(j * 31 + 7)
    {
      out[i] := Low(i * 31 + 7);
    }
    assert out[..] == Seed(width);
    for i := 0 to |data|
      invariant out[..] == Folded(data, i, width)
    {
      var lane := i % width;
      out[lane] := MixLane(out[lane], data[i], i);
    }
    Diffuse(out);
  }

  method Diffuse(out: array<bv8>)
    modifies out
    ensures out[..] == Diffused(old(out[..]), 0)
  {
    hide MixCarry;
    var carry: bv8 := 0;
    ghost var lanes := out[..];
    for i := 0 to out.Length
      invariant out[i..] == lanes[i..]
      invariant out[..i] + Diffused(lanes[i..], carry) == Diffused(lanes, 0)
    {
      ghost var done := out[..i];
      assert lanes[i..] == [out[i]] + lanes[i + 1..];
      var mixed := MixCarry(out[i], carry);
      Regroup(done, [mixed], Diffused(lanes[i + 1..], mixed));
      out[i] := mixed;
      assert out[..i + 1] == done + [mixed];
      assert out[i + 1..] == lanes[i + 1..];
      carry := mixed;
    }
    assert out[..out.Length] + Diffused(lanes[out.Length..], carry) == out[..];
  }

  /** The two SDKs mask at different places on wider integers; both compute the byte rotation above. */
  lemma BothSpellingsAgree(lane: bv8, carry: bv8)
    ensures var l, c := lane as bv32, carry as bv32;
      && (l ^ ((c << 3) | (c >> 5))) & 0xff == MixCarry(lane, carry) as bv32
      && (l ^ (((c << 3) | (c >> 5)) & 0xff)) & 0xff == MixCarry(lane, carry) as bv32
  {
  }

  function Previous(x: bv8): bv8 {
    x - 1
  }

  /** A byte as a number. */
  function Num(x: bv8): (n: nat)
    ensures n < 256
  {
    x as nat
  }

  lemma Neighbours(x: bv8)
    ensures Num(Plus(x, 1)) == (Num(x) + 1) % 256
    ensures if x == 0 then Num(x) == 0 else Num(Previous(x)) == Num(x) - 1
  {
  }

  lemma PlusStep(x: bv8, y: bv8)
    ensures Plus(Plus(x, Previous(y)), 1) == Plus(x, y) && Plus(x, 0) == x
    ensures Times131(y) == Plus(Times131(Previous(y)), 131) && Times131(0) == 0
  {
  }

  lemma SumModulo(m: nat, n: nat)
    ensures (m % 256 + n) % 256 == (m + n) % 256
  {
    assert m + n == 256 * (m / 256) + (m % 256 + n);
  }

  lemma {:induction false} PlusIsModular(x: bv8, y: bv8)
    ensures Num(Plus(x, y)) == (Num(x) + Num(y)) % 256
    decreases Num(y)
  {
    hide Plus, Previous, Num;
    PlusStep(x, y);
    Neighbours(y);
    if y != 0 {
      PlusIsModular(x, Previous(y));
      Neighbours(Plus(x, Previous(y)));
      SumModulo(Num(x) + Num(Previous(y)), 1);
    }
  }

  lemma {:induction false} TimesIsModular(byte: bv8)
    ensures Num(Times131(byte)) == Num(byte) * 131 % 256
    decreases Num(byte)
  {
    hide Plus, Previous, Num, Times131;
    PlusStep(0, byte);
    Neighbours(byte);
    if byte != 0 {
      TimesIsModular(Previous(byte));
      PlusIsModular(Times131(Previous(byte)), 131);
      Literal131();
      SumModulo(Num(Previous(byte)) * 131, 131);
    }
  }

  lemma Literal131()
    ensures Num(131) == 131
  {
  }

  lemma LowIsModular(position: nat)
    ensures Num(Low(position)) == position % 256
  {
    ByteValue(position % 256);
  }

  lemma {:induction false} ByteValue(n: nat)
    requires n < 256
    ensures Num(ByteOf(n)) == n
  {
    hide Plus, Num;
    if n == 0 {
      Neighbours(0);
    } else {
      ByteValue(n - 1);
      Neighbours(ByteOf(n - 1));
    }
  }

  /** The fold line, which both SDKs compute in wide integers and then mask, is the byte sum above. */
  lemma FoldIsModular(lane: bv8, byte: bv8, position: nat)
    ensures Num(MixLane(lane, byte, position)) == (Num(lane) + Num(byte) * 131 + position) % 256
  {
    LowIsModular(position);
    hide Plus, Num, Times131, Low;
    PlusIsModular(Plus(lane, Times131(byte)), Low(position));
    PlusIsModular(lane, Times131(byte));
    TimesIsModular(byte);
    SumModulo(Num(byte) * 131, Num(lane));
    SumModulo(Num(lane) + Num(byte) * 131, position % 256);
    SumModulo(position, Num(lane) + Num(byte) * 131);
  }

  lemma MixCancels(x: bv8, y: bv8, byte: bv8, position: nat)
    ensures MixLane(x, byte, position) == MixLane(y, byte, position) <==> x == y
  {
    hide Low, MixBytes;
    AddCancels(x, y, byte, Low(position));
  }

  lemma AddCancels(x: bv8, y: bv8, byte: bv8, low: bv8)
    ensures MixBytes(x, byte, low) == MixBytes(y, byte, low) <==> x == y
  {
    hide Plus, Times131;
    PlusCancels(Plus(x, Times131(byte)), Plus(y, Times131(byte)), low);
    PlusCancels(x, y, Times131(byte));
  }

  lemma PlusCancels(x: bv8, y: bv8, z: bv8)
    ensures Plus(x, z) == Plus(y, z) <==> x == y
    ensures Plus(z, x) == Plus(z, y) <==> x == y
  {
  }

  lemma MixSeparates(lane: bv8, a: bv8, b: bv8, position: nat)
    ensures MixLane(lane, a, position) == MixLane(lane, b, position) <==> a == b
  {
    hide Low, MixBytes;
    OddMultiplier(lane, a, b, Low(position));
  }

  /** 131 is odd, hence invertible modulo 256: its inverse is 43. */
  lemma OddMultiplier(lane: bv8, a: bv8, b: bv8, low: bv8)
    ensures MixBytes(lane, a, low) == MixBytes(lane, b, low) <==> a == b
  {
    hide Plus, Times131, Times43;
    PlusCancels(Plus(lane, Times131(a)), Plus(lane, Times131(b)), low);
    PlusCancels(Times131(a), Times131(b), lane);
    Invertible(a);
    Invertible(b);
  }

  function Times43(byte: bv8): bv8 {
    byte * 43
  }

  lemma Invertible(a: bv8)
    ensures Times43(Times131(a)) == a
  {
  }

  /** Two inputs that differ at one position only have equal lanes up to it and differ in its lane ever after. */
  lemma {:induction false} FoldTracksChange(a: seq<bv8>, b: seq<bv8>, p: nat, n: nat, width: nat)
    requires width > 0 && |a| == |b| && p < |a| && n <= |a|
    requires a[p] != b[p] && forall i :: 0 <= i < |a| && i != p ==> a[i] == b[i]
    ensures n <= p ==> Folded(a, n, width) == Folded(b, n, width)
    ensures n > p ==> Folded(a, n, width)[p % width] != Folded(b, n, width)[p % width]
    decreases n
  {
    hide MixLane;
    if n > 0 {
      FoldTracksChange(a, b, p, n - 1, width);
      var x, y, lane := Folded(a, n - 1, width), Folded(b, n - 1, width), (n - 1) % width;
      if n - 1 == p {
        MixSeparates(x[lane], a[p], b[p], p);
      } else if n > p {
        MixCancels(x[lane], y[lane], a[n - 1], n - 1);
      }
    }
  }

  /** The diffusion pass can be undone, lane by lane. */
  lemma {:induction false} DiffusionInjective(a: seq<bv8>, b: seq<bv8>, carry: bv8)
    requires |a| == |b| && Diffused(a, carry) == Diffused(b, carry)
    ensures a == b
  {
    hide MixCarry;
    if a != [] {
      var x, y := MixCarry(a[0], carry), MixCarry(b[0], carry);
      assert Diffused(a, carry)[0] == x && Diffused(b, carry)[0] == y;
      XorCancels(a[0], b[0], carry);
      assert Diffused(a, carry)[1..] == Diffused(a[1..], x) && Diffused(b, carry)[1..] == Diffused(b[1..], y);
      DiffusionInjective(a[1..], b[1..], x);
      assert a == [a[0]] + a[1..] && b == [b[0]] + b[1..];
    }
  }

  lemma XorCancels(x: bv8, y: bv8, carry: bv8)
    ensures MixCarry(x, carry) == MixCarry(y, carry) <==> x == y
  {
  }

  /** Before any input, lane i holds 31 i + 7 modulo 256. */
  lemma SeedValues(width: nat, i: nat)
    requires i < width
    ensures Num(Seed(width)[i]) == (i * 31 + 7) % 256
  {
    hide Num;
    LowIsModular(i * 31 + 7);
  }

  /** The first lanes of an empty input, before and after the diffusion pass. */
  lemma EmptyInput()
    ensures Seed(4) == [7, 38, 69, 100]
    ensures SyntheticHash([], 4) == [7, 30, 181, 201]
  {
    ByteByValue(Seed(4)[0], 7);
    ByteByValue(Seed(4)[1], 38);
    ByteByValue(Seed(4)[2], 69);
    ByteByValue(Seed(4)[3], 100);
    assert Seed(4) == [7, 38, 69, 100];
    DiffusedVector();
  }

  lemma ByteByValue(b: bv8, n: bv8)
    requires exists i: nat :: i < 4 && Seed(4)[i] == b && Num(n) == (i * 31 + 7) % 256
    ensures b == n
  {
    var i: nat :| i < 4 && Seed(4)[i] == b && Num(n) == (i * 31 + 7) % 256;
    SeedValues(4, i);
  }

  lemma DiffusedVector()
    ensures Diffused([7, 38, 69, 100], 0) == [7, 30, 181, 201]
  {
    assert [7, 38, 69, 100][1..] == [38, 69, 100] && [38, 69, 100][1..] == [69, 100] && [69, 100][1..] == [100];
    assert MixCarry(7, 0) == 7 && MixCarry(38, 7) == 30 && MixCarry(69, 30) == 181 && MixCarry(100, 181) == 201;
  }

  /** Changing exactly one byte of any input always changes the derived hash. */
  lemma OneByteChangesHash(data: seq<bv8>, p: nat, byte: bv8, width: nat)
    requires width > 0 && p < |data| && byte != data[p]
    ensures SyntheticHash(data, width) != SyntheticHash(data[p := byte], width)
  {
    var other := data[p := byte];
    FoldTracksChange(data, other, p, |data|, width);
    if SyntheticHash(data, width) == SyntheticHash(other, width) {
      DiffusionInjective(Folded(data, |data|, width), Folded(other, |data|, width), 0);
    }
  }
}
