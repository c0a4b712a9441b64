/** Facts about splitting and joining sequences at a separator, and the byte-wise order of strings. */
module Text {

  lemma Regroup<T>(a: seq<T>, b: seq<T>, c: seq<T>)
    ensures (a + b) + c == a + (b + c)
  {
  }

  /** When the separator is absent from both right-hand parts, the last separator decides the split. */
  lemma SplitAtLast<T>(a1: seq<T>, b1: seq<T>, a2: seq<T>, b2: seq<T>, c: T)
    requires a1 + [c] + b1 == a2 + [c] + b2
    requires c !in b1 && c !in b2
    ensures a1 == a2 && b1 == b2
  {
    var s1, s2 := a1 + [c] + b1, a2 + [c] + b2;
    assert s1[|a1|] == c && forall k :: |a1| < k < |s1| ==> s1[k] == b1[k - |a1| - 1];
    assert s2[|a2|] == c && forall k :: |a2| < k < |s2| ==> s2[k] == b2[k - |a2| - 1];
    assert a1 == s1[..|a1|] && a2 == s2[..|a2|];
    assert b1 == s1[|a1| + 1..] && b2 == s2[|a2| + 1..];
  }

  /** When the separator is absent from both left-hand parts, the first separator decides the split. */
  lemma SplitAtFirst<T>(a1: seq<T>, b1: seq<T>, a2: seq<T>, b2: seq<T>, c: T)
    requires a1 + [c] + b1 == a2 + [c] + b2
    requires c !in a1 && c !in a2
    ensures a1 == a2 && b1 == b2
  {
    var s1, s2 := a1 + [c] + b1, a2 + [c] + b2;
    assert s1[|a1|] == c && forall k :: 0 <= k < |a1| ==> s1[k] == a1[k];
    assert s2[|a2|] == c && forall k :: 0 <= k < |a2| ==> s2[k] == a2[k];
    assert a1 == s1[..|a1|] && a2 == s2[..|a2|];
    assert b1 == s1[|a1| + 1..] && b2 == s2[|a2| + 1..];
  }

  /** Lexicographic order, as `sort.Strings` and the default array sort apply it to ASCII text. */
  predicate LexLe(a: string, b: string) {
    a == "" || (b != "" && (a[0] < b[0] || (a[0] == b[0] && LexLe(a[1..], b[1..]))))
  }

  lemma {:induction false} LexTotal(a: string, b: string)
    ensures LexLe(a, b) || LexLe(b, a)
  {
    if a != "" && b != "" {
      LexTotal(a[1..], b[1..]);
    }
  }

  lemma {:induction false} LexTransitive(a: string, b: string, c: string)
    requires LexLe(a, b) && LexLe(b, c)
    ensures LexLe(a, c)
  {
    if a != "" && a[0] == b[0] && b[0] == c[0] {
      LexTransitive(a[1..], b[1..], c[1..]);
    }
  }

  lemma {:induction false} LexAntisymmetric(a: string, b: string)
    requires LexLe(a, b) && LexLe(b, a)
    ensures a == b
  {
    if a != "" && b != "" {
      LexAntisymmetric(a[1..], b[1..]);
      assert a == [a[0]] + a[1..] && b == [b[0]] + b[1..];
    }
  }

  /** The first difference is at k and puts a first. */
  predicate FirstSmallerAt(a: string, b: string, k: nat) {
    k < |a| && k < |b| && a[..k] == b[..k] && a[k] < b[k]
  }

  /** Character by character: a prefix comes first, otherwise the first difference decides. */
  ghost predicate Before(a: string, b: string) {
    a <= b || exists k: nat :: FirstSmallerAt(a, b, k)
  }

  lemma {:induction false} LexMeaning(a: string, b: string)
    ensures LexLe(a, b) <==> Before(a, b)
  {
    if a != "" && b != "" {
      if a[0] == b[0] {
        LexMeaning(a[1..], b[1..]);
        forall k: nat ensures FirstSmallerAt(a, b, k + 1) <==> FirstSmallerAt(a[1..], b[1..], k) { TailSmaller(a, b, k); }
        TailPrefix(a, b);
        assert !FirstSmallerAt(a, b, 0);
        if k: nat :| FirstSmallerAt(a, b, k) {
          assert FirstSmallerAt(a[1..], b[1..], k - 1);
        }
      } else {
        assert a[0] < b[0] ==> FirstSmallerAt(a, b, 0);
        forall k: nat | k > 0 ensures !FirstSmallerAt(a, b, k) { HeadsDiffer(a, b, k); }
      }
    }
  }

  lemma TailSmaller(a: string, b: string, k: nat)
    requires a != "" && b != "" && a[0] == b[0]
    ensures FirstSmallerAt(a, b, k + 1) <==> FirstSmallerAt(a[1..], b[1..], k)
  {
    if k < |a[1..]| && k < |b[1..]| {
      assert a[..k + 1] == [a[0]] + a[1..][..k] && b[..k + 1] == [b[0]] + b[1..][..k];
      assert a[..k + 1][1..] == a[1..][..k] && b[..k + 1][1..] == b[1..][..k];
    }
  }

  lemma TailPrefix(a: string, b: string)
    requires a != "" && b != "" && a[0] == b[0]
    ensures a <= b <==> a[1..] <= b[1..]
  {
  }

  lemma HeadsDiffer(a: string, b: string, k: nat)
    requires a != "" && b != "" && a[0] != b[0] && k > 0
    ensures !FirstSmallerAt(a, b, k)
  {
    if k < |a| && k < |b| {
      assert a[..k][0] == a[0] && b[..k][0] == b[0];
    }
  }

  /** The fields of a text between separators. */
  function Split(s: string, c: char): (fields: seq<string>)
    ensures fields != []
  {
    if s == "" then [""]
    else
      var rest := Split(s[1..], c);
      if s[0] == c then [""] + rest else [[s[0]] + rest[0]] + rest[1..]
  }

  lemma {:induction false} SplitWhole(s: string, c: char)
    requires c !in s
    ensures Split(s, c) == [s]
  {
    if s != "" {
      assert s == [s[0]] + s[1..];
      SplitWhole(s[1..], c);
    }
  }

  lemma {:induction false} SplitConcat(a: string, b: string, c: char)
    ensures Split(a + [c] + b, c) == Split(a, c) + Split(b, c)
  {
    var s := a + [c] + b;
    if a == "" {
      assert s[1..] == b;
    } else {
      assert s[1..] == a[1..] + [c] + b && s[0] == a[0];
      SplitConcat(a[1..], b, c);
      SplitStep(s, c);
      SplitStep(a, c);
      hide Split;
      Regroup([""], Split(a[1..], c), Split(b, c));
      WidenFirst(a[0], Split(a[1..], c), Split(b, c));
    }
  }

  lemma SplitStep(s: string, c: char)
    requires s != ""
    ensures var rest := Split(s[1..], c); Split(s, c) == if s[0] == c then [""] + rest else Widened(s[0], rest)
  {
  }

  function Widened(x: char, fields: seq<string>): seq<string>
    requires fields != []
  {
    [[x] + fields[0]] + fields[1..]
  }

  lemma WidenFirst(x: char, fields: seq<string>, more: seq<string>)
    requires fields != []
    ensures Widened(x, fields + more) == Widened(x, fields) + more
  {
    assert (fields + more)[0] == fields[0] && (fields + more)[1..] == fields[1..] + more;
  }

  /** `strings.Join(parts, "\n")` */
  function JoinLines(parts: seq<string>): string {
    if parts == [] then ""
    else if |parts| == 1 then parts[0]
    else parts[0] + "\n" + JoinLines(parts[1..])
  }
}
