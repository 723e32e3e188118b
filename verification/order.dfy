/**
 * The default ordering of `Array.prototype.sort` on strings, and the
 * `Array.from(new Set(xs)).sort()` idiom built on it: deduplicate in
 * first-seen order, then sort.
 */
module StringOrder {

  /** Lexicographic strict order: a proper prefix comes first, otherwise the
      first differing character decides. */
  predicate Less(a: string, b: string) {
    if |a| == 0 then |b| > 0
    else if |b| == 0 then false
    else if a[0] != b[0] then a[0] < b[0]
    else Less(a[1..], b[1..])
  }

  predicate LessOrEqual(a: string, b: string) {
    a == b || Less(a, b)
  }

  lemma {:induction false} LessIrreflexive(a: string)
    ensures !Less(a, a)
  {
    if |a| > 0 {
      LessIrreflexive(a[1..]);
    }
  }

  lemma {:induction false} LessAsymmetric(a: string, b: string)
    requires Less(a, b)
    ensures !Less(b, a)
  {
    if |a| > 0 && |b| > 0 && a[0] == b[0] {
      LessAsymmetric(a[1..], b[1..]);
    }
  }

  lemma {:induction false} LessTransitive(a: string, b: string, c: string)
    requires Less(a, b) && Less(b, c)
    ensures Less(a, c)
  {
    if |a| > 0 && a[0] == b[0] && b[0] == c[0] {
      LessTransitive(a[1..], b[1..], c[1..]);
    }
  }

  /** Any two different strings are ordered one way or the other. */
  lemma {:induction false} LessTotal(a: string, b: string)
    requires a != b
    ensures Less(a, b) || Less(b, a)
  {
    if |a| > 0 && |b| > 0 && a[0] == b[0] {
      assert a == [a[0]] + a[1..] && b == [b[0]] + b[1..];
      LessTotal(a[1..], b[1..]);
    }
  }

  predicate Sorted(s: seq<string>) {
    forall i, j | 0 <= i < j < |s| :: LessOrEqual(s[i], s[j])
  }

  predicate StrictlySorted(s: seq<string>) {
    forall i, j | 0 <= i < j < |s| :: Less(s[i], s[j])
  }

  predicate Distinct<T(==)>(s: seq<T>) {
    forall i, j | 0 <= i < j < |s| :: s[i] != s[j]
  }

  /** The elements of `s`, as a set. */
  function Elements<T>(s: seq<T>): set<T> {
    set x | x in s
  }

  /** Inserts `x` into a sorted sequence before the first element not below it. */
  function Insert(x: string, s: seq<string>): (r: seq<string>)
    requires Sorted(s)
    ensures Sorted(r)
    ensures multiset(r) == multiset(s) + multiset{x}
  {
    if |s| == 0 then [x]
    else if LessOrEqual(x, s[0]) then
      PrependLeast(x, s);
      [x] + s
    else
      LessTotal(x, s[0]);
      var rest := Insert(x, s[1..]);
      assert s == [s[0]] + s[1..];
      HeadBelowInserted(x, s, rest);
      [s[0]] + rest
  }

  /** A value not above the head of a sorted sequence can go in front of it. */
  lemma PrependLeast(x: string, s: seq<string>)
    requires Sorted(s) && |s| > 0 && LessOrEqual(x, s[0])
    ensures Sorted([x] + s)
  {
    forall j | 0 < j < |s| ensures LessOrEqual(x, s[j]) {
      if x != s[0] && s[0] != s[j] { LessTransitive(x, s[0], s[j]); }
    }
  }

  /** The head of a sorted sequence can go in front of any sorted
      rearrangement of its tail with a larger value added. */
  lemma HeadBelowInserted(x: string, s: seq<string>, rest: seq<string>)
    requires Sorted(s) && |s| > 0 && Less(s[0], x)
    requires Sorted(rest) && multiset(rest) == multiset(s[1..]) + multiset{x}
    ensures Sorted([s[0]] + rest)
  {
    forall j | 0 <= j < |rest| ensures LessOrEqual(s[0], rest[j]) {
      assert rest[j] in multiset(rest);
      if rest[j] != x {
        assert rest[j] in s[1..];
      }
    }
  }

  /** Insertion sort; on distinct elements any correct sort gives the same answer (`StrictlySortedUnique`). */
  function Sort(s: seq<string>): (r: seq<string>)
    ensures Sorted(r)
    ensures multiset(r) == multiset(s)
  {
    if |s| == 0 then []
    else
      assert s == s[..|s| - 1] + [s[|s| - 1]];
      Insert(s[|s| - 1], Sort(s[..|s| - 1]))
  }

  /** Keeps the first occurrence of every element, in order (what iterating a
      JavaScript `Set` built from `s` yields). */
  function Dedup<T(==)>(s: seq<T>): (r: seq<T>)
    ensures Distinct(r)
    ensures Elements(r) == Elements(s)
  {
    if |s| == 0 then []
    else
      var prefix := Dedup(s[..|s| - 1]);
      var last := s[|s| - 1];
      assert s == s[..|s| - 1] + [last];
      if last in prefix then prefix
      else
        assert Elements(prefix + [last]) == Elements(prefix) + {last};
        prefix + [last]
  }

  /** `Array.from(new Set(s)).sort()`. */
  function SortedSet(s: seq<string>): (r: seq<string>)
    ensures StrictlySorted(r)
    ensures Elements(r) == Elements(s)
  {
    var d := Dedup(s);
    var r := Sort(d);
    assert forall x :: x in r <==> x in multiset(r);
    assert forall x :: x in d <==> x in multiset(d);
    DistinctCountsOne(d);
    CountsOneDistinct(r);
    SortedDistinctIsStrict(r);
    r
  }

  /** A sorted sequence without repetitions is strictly sorted. */
  lemma SortedDistinctIsStrict(s: seq<string>)
    requires Sorted(s) && Distinct(s)
    ensures StrictlySorted(s)
  {
  }

  /** In a duplicate-free sequence every element occurs exactly once. */
  lemma {:induction false} DistinctCountsOne<T>(s: seq<T>)
    requires Distinct(s)
    ensures forall x | x in multiset(s) :: multiset(s)[x] == 1
  {
    if |s| > 0 {
      var t := s[1..];
      assert s == [s[0]] + t;
      assert Distinct(t);
      DistinctCountsOne(t);
      assert s[0] !in multiset(t);
    }
  }

  /** A sequence in which every element occurs once has no repetitions. */
  lemma {:induction false} CountsOneDistinct<T>(s: seq<T>)
    requires forall x | x in multiset(s) :: multiset(s)[x] == 1
    ensures Distinct(s)
  {
    if |s| > 0 {
      var t := s[1..];
      assert s == [s[0]] + t;
      assert multiset(s) == multiset{s[0]} + multiset(t);
      assert s[0] in multiset(s);
      assert multiset(t)[s[0]] == 0;
      forall x | x in multiset(t)
        ensures multiset(t)[x] == 1
      {
        assert x in multiset(s);
      }
      CountsOneDistinct(t);
      forall j | 0 < j < |s|
        ensures s[0] != s[j]
      {
        assert s[j] == t[j - 1] && t[j - 1] in multiset(t);
      }
    }
  }

  /** A sequence has no elements exactly when it is empty. */
  lemma ElementsEmpty<T>(s: seq<T>)
    ensures Elements(s) == {} <==> |s| == 0
  {
    if |s| > 0 {
      assert s[0] in Elements(s);
    }
  }

  lemma LessOrEqualAntisymmetric(a: string, b: string)
    requires LessOrEqual(a, b) && LessOrEqual(b, a)
    ensures a == b
  {
    if a != b {
      LessAsymmetric(a, b);
      assert false;
    }
  }

  /** The head of a strictly sorted sequence is at or below all its elements. */
  lemma HeadIsLeast(s: seq<string>, x: string)
    requires StrictlySorted(s) && |s| > 0 && x in s
    ensures LessOrEqual(s[0], x)
  {
    var j :| 0 <= j < |s| && s[j] == x;
    if j > 0 {
      assert Less(s[0], s[j]);
    }
  }

  /** A strictly sorted sequence is determined by its elements: whatever
      algorithm `Array.prototype.sort` uses, sorting a duplicate-free
      sequence yields the result of `Sort`. */
  lemma {:induction false} StrictlySortedUnique(a: seq<string>, b: seq<string>)
    requires StrictlySorted(a) && StrictlySorted(b)
    requires Elements(a) == Elements(b)
    ensures a == b
  {
    ElementsEmpty(a);
    ElementsEmpty(b);
    if |a| > 0 {
      assert a[0] in Elements(b) && b[0] in Elements(a);
      HeadIsLeast(a, b[0]);
      HeadIsLeast(b, a[0]);
      LessOrEqualAntisymmetric(a[0], b[0]);
      StrictTail(a);
      StrictTail(b);
      StrictlySortedUnique(a[1..], b[1..]);
    }
  }

  /** Removing the head of a strictly sorted sequence removes exactly that
      element from its set of elements. */
  lemma StrictTail(s: seq<string>)
    requires StrictlySorted(s) && |s| > 0
    ensures StrictlySorted(s[1..])
    ensures Elements(s[1..]) == Elements(s) - {s[0]}
  {
    forall j | 0 < j < |s|
      ensures s[j] != s[0]
    {
      assert Less(s[0], s[j]);
      LessIrreflexive(s[0]);
    }
    assert s == [s[0]] + s[1..];
  }
}
