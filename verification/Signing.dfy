/** The canonical payload a snapshot signature covers. */
module Signing {
  import opened Decimal
  import opened Hex
  import opened Rfc3339
  import opened Sorting
  import opened Text

  function HexLine(h: Hash): string {
    Encode(h)
  }

  function HexLines(hashes: seq<Hash>): seq<string> {
    Map(HexLine, hashes)
  }

  /** The hash texts in the order the payload lists them. */
  function SortedLines(hashes: seq<Hash>): seq<string> {
    Sort(LexLe, HexLines(hashes))
  }

  method SerializeHashes(hashes: seq<Hash>) returns (text: string)
    ensures text == JoinLines(SortedLines(hashes))
  {
    if |hashes| == 0 {
      assert HexLines(hashes) == [];
      return "";
    }
    var hexes := new string[|hashes|];
    for i := 0 to |hashes|
      invariant forall j :: 0 <= j < i ==> hexes[j] == Encode(hashes[j])
    {
      hexes[i] := Encode(hashes[i]);
    }
    assert forall j :: 0 <= j < |hashes| ==> hexes[..][j] == HexLine(hashes[j]);
    assert hexes[..] == HexLines(hashes);
    text := JoinLines(Sort(LexLe, hexes[..]));
  }

  function Payload(id: string, hashes: seq<Hash>, createdAt: Instant): string {
    id + "\n" + JoinLines(SortedLines(hashes)) + "\n" + FormatInt(Unix(createdAt))
  }

  // ----- sorted lines are canonical -----

  lemma LexOrder()
    ensures TotalPreorder(LexLe)
  {
    forall x, y ensures LexLe(x, y) || LexLe(y, x) { LexTotal(x, y); }
    forall x, y, z | LexLe(x, y) && LexLe(y, z) ensures LexLe(x, z) { LexTransitive(x, y, z); }
  }

  lemma LexDecides(lines: seq<string>)
    ensures AntisymmetricOn(LexLe, lines)
  {
    forall x, y | LexLe(x, y) && LexLe(y, x) ensures x == y { LexAntisymmetric(x, y); }
  }

  function Unhex(s: string): Hash {
    var r := ParseHashHex(s);
    if r.Ok? then r.value else seq(32, _ => 0)
  }

  lemma SortForgetsOrder(a: seq<string>, b: seq<string>)
    ensures Sort(LexLe, a) == Sort(LexLe, b) <==> multiset(a) == multiset(b)
  {
    SortElements(LexLe, a);
    SortElements(LexLe, b);
    if multiset(a) == multiset(b) {
      LexOrder();
      SortSorted(LexLe, a);
      SortSorted(LexLe, b);
      LexDecides(Sort(LexLe, a));
      SortedUnique(LexLe, Sort(LexLe, a), Sort(LexLe, b));
    }
  }

  /** The payload's hash part determines the hashes up to order, and nothing more. */
  lemma LinesCanonical(a: seq<Hash>, b: seq<Hash>)
    ensures SortedLines(a) == SortedLines(b) <==> multiset(a) == multiset(b)
  {
    SortForgetsOrder(HexLines(a), HexLines(b));
    if multiset(a) == multiset(b) {
      MapRespectsElements(HexLine, a, b);
    }
    if multiset(HexLines(a)) == multiset(HexLines(b)) {
      MapRespectsElements(Unhex, HexLines(a), HexLines(b));
      UnhexLines(a);
      UnhexLines(b);
    }
  }

  lemma UnhexLines(hashes: seq<Hash>)
    ensures Map(Unhex, HexLines(hashes)) == hashes
  {
    forall i | 0 <= i < |hashes|
      ensures Unhex(HexLines(hashes)[i]) == hashes[i]
    {
      ParseEncoded(hashes[i]);
    }
  }

  /** The lines are those of the hashes in ascending order, byte by byte. */
  lemma LinesAscend(hashes: seq<Hash>) returns (ordered: seq<Hash>)
    ensures multiset(ordered) == multiset(hashes)
    ensures SortedLines(hashes) == HexLines(ordered)
    ensures forall i, j :: 0 <= i < j < |ordered| ==> BytesLe(ordered[i], ordered[j])
  {
    var lines := SortedLines(hashes);
    ordered := Map(Unhex, lines);
    LexOrder();
    SortSorted(LexLe, HexLines(hashes));
    SortElements(LexLe, HexLines(hashes));
    forall i | 0 <= i < |lines| ensures Encode(ordered[i]) == lines[i] {
      assert lines[i] in multiset(lines) && lines[i] in multiset(HexLines(hashes));
      var k :| 0 <= k < |hashes| && HexLines(hashes)[k] == lines[i];
      ParseEncoded(hashes[k]);
    }
    assert HexLines(ordered) == lines;
    MapRespectsElements(Unhex, lines, HexLines(hashes));
    UnhexLines(hashes);
    forall i, j | 0 <= i < j < |ordered| ensures BytesLe(ordered[i], ordered[j]) {
      EncodeOrdered(ordered[i], ordered[j]);
    }
  }

  // ----- joined lines are unambiguous -----

  /** Lines as the payload holds them: fixed width, without a line break. */
  predicate Lines(lines: seq<string>) {
    forall i :: 0 <= i < |lines| ==> |lines[i]| == 64 && '\n' !in lines[i]
  }

  lemma SortedLinesAreLines(hashes: seq<Hash>)
    ensures Lines(SortedLines(hashes))
  {
    var lines := SortedLines(hashes);
    SortElements(LexLe, HexLines(hashes));
    forall i | 0 <= i < |lines|
      ensures |lines[i]| == 64 && '\n' !in lines[i]
    {
      assert lines[i] in multiset(lines) && lines[i] in multiset(HexLines(hashes));
      var j :| 0 <= j < |hashes| && HexLines(hashes)[j] == lines[i];
      EncodedText(hashes[j]);
    }
  }

  lemma {:induction false} JoinInjective(a: seq<string>, b: seq<string>)
    requires Lines(a) && Lines(b) && JoinLines(a) == JoinLines(b)
    ensures a == b
  {
    JoinShape(a);
    JoinShape(b);
    if |a| > 1 && |b| > 1 {
      SplitAtFirst(a[0], JoinLines(a[1..]), b[0], JoinLines(b[1..]), '\n');
      JoinInjective(a[1..], b[1..]);
      assert a == [a[0]] + a[1..] && b == [b[0]] + b[1..];
    }
  }

  lemma JoinShape(lines: seq<string>)
    requires Lines(lines)
    ensures |lines| == 0 <==> JoinLines(lines) == ""
    ensures |lines| > 1 <==> '\n' in JoinLines(lines)
  {
    if |lines| > 1 {
      assert JoinLines(lines)[64] == '\n';
    }
  }

  /** Cutting joined lines at any line break cuts the list of lines. */
  lemma {:induction false} JoinCut(lines: seq<string>, front: string, back: string) returns (k: nat)
    requires Lines(lines) && JoinLines(lines) == front + "\n" + back
    ensures 0 < k < |lines| && front == JoinLines(lines[..k]) && back == JoinLines(lines[k..])
  {
    JoinShape(lines);
    assert (front + "\n" + back)[|front|] == '\n';
    var first, rest := lines[0], JoinLines(lines[1..]);
    if '\n' in front {
      var i := FirstBreak(front);
      Regroup(front[..i], "\n", front[i + 1..] + "\n" + back);
      assert front == front[..i] + "\n" + front[i + 1..];
      assert front + "\n" + back == front[..i] + "\n" + (front[i + 1..] + "\n" + back);
      SplitAtFirst(first, rest, front[..i], front[i + 1..] + "\n" + back, '\n');
      var j := JoinCut(lines[1..], front[i + 1..], back);
      k := j + 1;
      assert lines[..k][1..] == lines[1..][..j] && lines[k..] == lines[1..][j..];
    } else {
      SplitAtFirst(first, rest, front, back, '\n');
      k := 1;
      assert lines[..1] == [first];
    }
  }

  lemma {:induction false} FirstBreak(s: string) returns (i: nat)
    requires '\n' in s
    ensures i < |s| && s[i] == '\n' && '\n' !in s[..i]
  {
    if s[0] == '\n' {
      i := 0;
    } else {
      assert s == [s[0]] + s[1..];
      var j := FirstBreak(s[1..]);
      i := j + 1;
      assert s[..i] == [s[0]] + s[1..][..j];
    }
  }

  lemma {:induction false} JoinedFields(lines: seq<string>)
    requires Lines(lines)
    ensures Split(JoinLines(lines), '\n') == if lines == [] then [""] else lines
  {
    if lines != [] {
      SplitWhole(lines[0], '\n');
      assert lines == [lines[0]] + lines[1..];
      if |lines| > 1 {
        SplitConcat(lines[0], JoinLines(lines[1..]), '\n');
        JoinedFields(lines[1..]);
      }
    }
  }

  /** Line by line the payload is the id, the sorted hash texts (one empty line if there are none) and the Unix second. */
  lemma PayloadLines(id: string, hashes: seq<Hash>, createdAt: Instant)
    ensures Split(Payload(id, hashes, createdAt), '\n') ==
      Split(id, '\n') + (if hashes == [] then [""] else SortedLines(hashes)) + [FormatInt(Unix(createdAt))]
    ensures '\n' !in id ==> Split(id, '\n') == [id]
  {
    hide Unix, FormatInt;
    var lines, second := SortedLines(hashes), FormatInt(Unix(createdAt));
    SortElements(LexLe, HexLines(hashes));
    SortedLinesAreLines(hashes);
    JoinedFields(lines);
    FormatIntSign(Unix(createdAt));
    SplitConcat(id + "\n" + JoinLines(lines), second, '\n');
    SplitConcat(id, JoinLines(lines), '\n');
    SplitWhole(second, '\n');
    if '\n' !in id {
      SplitWhole(id, '\n');
    }
  }

  // ----- when payloads coincide -----

  predicate SameContent(id: string, hashes: seq<Hash>, id': string, hashes': seq<Hash>) {
    id == id' && multiset(hashes) == multiset(hashes')
  }

  /** The second id reads like the first id followed by some of its smallest hashes, one per line. */
  ghost predicate Absorbs(id: string, hashes: seq<Hash>, id': string, hashes': seq<Hash>) {
    exists k :: 0 < k < |SortedLines(hashes)|
      && id' == id + "\n" + JoinLines(SortedLines(hashes)[..k])
      && SortedLines(hashes') == SortedLines(hashes)[k..]
  }

  lemma PayloadParts(id: string, hashes: seq<Hash>, at: Instant, id': string, hashes': seq<Hash>, at': Instant)
    ensures Payload(id, hashes, at) == Payload(id', hashes', at') <==>
      && Unix(at) == Unix(at')
      && id + "\n" + JoinLines(SortedLines(hashes)) == id' + "\n" + JoinLines(SortedLines(hashes'))
  {
    FormatIntSign(Unix(at));
    FormatIntSign(Unix(at'));
    var a, b := id + "\n" + JoinLines(SortedLines(hashes)), id' + "\n" + JoinLines(SortedLines(hashes'));
    if Payload(id, hashes, at) == Payload(id', hashes', at') {
      SplitAtLast(a, FormatInt(Unix(at)), b, FormatInt(Unix(at')), '\n');
      FormatIntInjective(Unix(at), Unix(at'));
    }
  }

  /** With the ids in order of length, the joined texts coincide exactly in the two ways named. */
  lemma TextsCoincide(id: string, a: seq<string>, id': string, b: seq<string>)
    requires Lines(a) && Lines(b) && |id| <= |id'|
    ensures id + "\n" + JoinLines(a) == id' + "\n" + JoinLines(b) <==>
      (id == id' && a == b)
      || exists k :: 0 < k < |a| && id' == id + "\n" + JoinLines(a[..k]) && b == a[k..]
  {
    if id + "\n" + JoinLines(a) == id' + "\n" + JoinLines(b) {
      TextsDecompose(id, a, id', b);
    }
    if k :| 0 < k < |a| && id' == id + "\n" + JoinLines(a[..k]) && b == a[k..] {
      JoinConcat(a, k);
      Rearrange(id, JoinLines(a[..k]), JoinLines(b));
    }
  }

  lemma Rearrange(id: string, front: string, back: string)
    ensures id + "\n" + (front + "\n" + back) == (id + "\n" + front) + "\n" + back
  {
  }

  lemma TextsDecompose(id: string, a: seq<string>, id': string, b: seq<string>)
    requires Lines(a) && Lines(b) && |id| <= |id'|
    requires id + "\n" + JoinLines(a) == id' + "\n" + JoinLines(b)
    ensures (id == id' && a == b)
      || exists k :: 0 < k < |a| && id' == id + "\n" + JoinLines(a[..k]) && b == a[k..]
  {
    if |id| == |id'| {
      Aligned(id, JoinLines(a), id', JoinLines(b));
      JoinInjective(a, b);
    } else {
      var mid := Shifted(id, JoinLines(a), id', JoinLines(b));
      var k := JoinCut(a, mid, JoinLines(b));
      JoinInjective(b, a[k..]);
    }
  }

  lemma Aligned(id: string, x: string, id': string, y: string)
    requires id + "\n" + x == id' + "\n" + y && |id| == |id'|
    ensures id == id' && x == y
  {
    var s := id + "\n" + x;
    assert id == s[..|id|] == id' && x == s[|id| + 1..] == y;
  }

  lemma Shifted(id: string, x: string, id': string, y: string) returns (mid: string)
    requires id + "\n" + x == id' + "\n" + y && |id| < |id'|
    ensures id' == id + "\n" + mid && x == mid + "\n" + y
  {
    mid := id'[|id| + 1..];
    var s := id + "\n" + x;
    assert id' == s[..|id'|] && x == s[|id| + 1..];
    assert mid == s[|id| + 1..|id'|];
  }

  lemma {:induction false} JoinConcat(lines: seq<string>, k: nat)
    requires 0 < k < |lines|
    ensures JoinLines(lines) == JoinLines(lines[..k]) + "\n" + JoinLines(lines[k..])
  {
    if k == 1 {
      assert lines[..1] == [lines[0]];
    } else {
      JoinConcat(lines[1..], k - 1);
      assert lines[..k][1..] == lines[1..][..k - 1] && lines[1..][k - 1..] == lines[k..];
      Regroup(lines[0] + "\n", JoinLines(lines[1..k]), "\n" + JoinLines(lines[k..]));
      assert lines[1..][..k - 1] == lines[1..k];
      Regroup(JoinLines(lines[1..k]), "\n", JoinLines(lines[k..]));
      Regroup(lines[0] + "\n" + JoinLines(lines[1..k]), "\n", JoinLines(lines[k..]));
    }
  }

  /**
   Exactly when two payloads are the same bytes, for all ids: the same Unix second and either the same
   id and hashes up to order, or an id with line breaks that swallowed hashes of the other snapshot.
   */
  lemma PayloadCollision(id: string, hashes: seq<Hash>, at: Instant, id': string, hashes': seq<Hash>, at': Instant)
    ensures Payload(id, hashes, at) == Payload(id', hashes', at') <==>
      && Unix(at) == Unix(at')
      && (SameContent(id, hashes, id', hashes') || Absorbs(id, hashes, id', hashes') || Absorbs(id', hashes', id, hashes))
  {
    var a, b := SortedLines(hashes), SortedLines(hashes');
    PayloadParts(id, hashes, at, id', hashes', at');
    SortedLinesAreLines(hashes);
    SortedLinesAreLines(hashes');
    LinesCanonical(hashes, hashes');
    if |id| <= |id'| {
      TextsCoincide(id, a, id', b);
    } else {
      TextsCoincide(id', b, id, a);
    }
  }

  /** For ids without line breaks the payload is canonical. */
  lemma PayloadCanonical(id: string, hashes: seq<Hash>, at: Instant, id': string, hashes': seq<Hash>, at': Instant)
    requires '\n' !in id && '\n' !in id'
    ensures Payload(id, hashes, at) == Payload(id', hashes', at') <==>
      id == id' && multiset(hashes) == multiset(hashes') && Unix(at) == Unix(at')
  {
    PayloadCollision(id, hashes, at, id', hashes', at');
    forall k | 0 < k < |SortedLines(hashes)|
      ensures id' != id + "\n" + JoinLines(SortedLines(hashes)[..k])
    {
      assert (id + "\n" + JoinLines(SortedLines(hashes)[..k]))[|id|] == '\n';
    }
    forall k | 0 < k < |SortedLines(hashes')|
      ensures id != id' + "\n" + JoinLines(SortedLines(hashes')[..k])
    {
      assert (id' + "\n" + JoinLines(SortedLines(hashes')[..k]))[|id'|] == '\n';
    }
  }

  /**
   The restriction is needed: the service accepts ids with line breaks, and then a snapshot of two hashes
   and a differently named snapshot of one hash have the same payload, hence the same signature.
   */
  lemma LineBreakCollision(id: string, a: Hash, b: Hash, at: Instant)
    requires LexLe(Encode(a), Encode(b))
    ensures Payload(id, [a, b], at) == Payload(id + "\n" + Encode(a), [b], at)
    ensures !SameContent(id, [a, b], id + "\n" + Encode(a), [b])
  {
    var lines := HexLines([a, b]);
    assert lines == [Encode(a), Encode(b)] && lines[1..] == [Encode(b)] && [Encode(b)][1..] == [];
    assert Sort(LexLe, [Encode(b)]) == [Encode(b)];
    assert Insert(LexLe, Encode(a), [Encode(b)]) == [Encode(a)] + [Encode(b)];
    assert SortedLines([a, b]) == lines;
    assert HexLines([b]) == [Encode(b)];
    assert SortedLines([b]) == lines[1..];
    assert JoinLines(lines[..1]) == Encode(a);
    assert Absorbs(id, [a, b], id + "\n" + Encode(a), [b]);
    PayloadCollision(id, [a, b], at, id + "\n" + Encode(a), [b], at);
  }
}
