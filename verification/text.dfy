/**
 * Case folding and substring search on strings, the two string primitives the
 * venue logic is built from (`String.prototype.toLowerCase` and
 * `String.prototype.includes`).
 */
module Text {

  /** Lower-cases one character: ASCII `A`-`Z` and the Latin-1 capitals
      U+00C0..U+00DE (except the multiplication sign U+00D7) move down by 32,
      so `Ñ` becomes `ñ`; every other character is left as it is. */
  function LowerChar(c: char): char {
    if 'A' <= c <= 'Z' || ('À' <= c <= 'Þ' && c != '×') then
      (c as int + 32) as char
    else
      c
  }

  /** The character-by-character lower-case form of `s`: ASCII capitals
      become the matching small letters, no ASCII capital is left, and
      characters that are neither ASCII nor Latin-1 capitals are kept. */
  function Lower(s: string): (r: string)
    ensures |r| == |s|
    ensures forall i | 0 <= i < |s| && 'A' <= s[i] <= 'Z' :: r[i] == (s[i] as int - 'A' as int + 'a' as int) as char
    ensures forall i | 0 <= i < |s| :: !('A' <= r[i] <= 'Z')
    ensures forall i | 0 <= i < |s| && !('A' <= s[i] <= 'Z') && !('À' <= s[i] <= 'Þ') :: r[i] == s[i]
  {
    seq(|s|, i requires 0 <= i < |s| => LowerChar(s[i]))
  }

  /** `n` occurs in `h` starting at position `i`. */
  predicate OccursAt(h: string, n: string, i: int) {
    0 <= i && i + |n| <= |h| && h[i..i + |n|] == n
  }

  /** `h.includes(n)`: the needle occurs somewhere in the haystack; the empty
      needle occurs in every haystack. */
  predicate Contains(h: string, n: string) {
    exists i | 0 <= i <= |h| - |n| :: OccursAt(h, n, i)
  }

  /** A lowered character is a fixed point of lowering. */
  lemma LowerCharIdempotent(c: char)
    ensures LowerChar(LowerChar(c)) == LowerChar(c)
  {
  }

  /** Lowering twice is lowering once. */
  lemma LowerIdempotent(s: string)
    ensures Lower(Lower(s)) == Lower(s)
  {
    forall i | 0 <= i < |s|
      ensures Lower(Lower(s))[i] == Lower(s)[i]
    {
      LowerCharIdempotent(s[i]);
    }
  }

  /** Lowering distributes over concatenation. */
  lemma LowerConcat(a: string, b: string)
    ensures Lower(a + b) == Lower(a) + Lower(b)
  {
  }

  /** Containment is transitive: a needle of a needle is a needle. */
  lemma ContainsTransitive(a: string, b: string, c: string)
    requires Contains(a, b) && Contains(b, c)
    ensures Contains(a, c)
  {
    var i :| 0 <= i <= |a| - |b| && OccursAt(a, b, i);
    var j :| 0 <= j <= |b| - |c| && OccursAt(b, c, j);
    forall k | 0 <= k < |c|
      ensures a[i + j..i + j + |c|][k] == c[k]
    {
      assert c[k] == b[j + k] == a[i + j + k];
    }
    assert a[i + j..i + j + |c|] == c;
    assert OccursAt(a, c, i + j);
  }

  /** A needle is never longer than a haystack that contains it. */
  lemma ContainsLength(h: string, n: string)
    ensures Contains(h, n) ==> |n| <= |h|
  {
  }

  /** A needle holding a character that the haystack lacks does not occur in it. */
  lemma MissingCharNotContained(h: string, n: string, k: int)
    requires 0 <= k < |n| && n[k] !in h
    ensures !Contains(h, n)
  {
    forall i | 0 <= i <= |h| - |n|
      ensures !OccursAt(h, n, i)
    {
      assert h[i..i + |n|][k] == h[i + k] != n[k];
    }
  }

  /** A needle whose first character is absent from `a` can only occur in
      `a + b` inside `b`. */
  lemma NotContainedAcrossSplit(a: string, b: string, n: string)
    requires |n| > 0 && n[0] !in a && !Contains(b, n)
    ensures !Contains(a + b, n)
  {
    var h := a + b;
    forall i | 0 <= i <= |h| - |n|
      ensures !OccursAt(h, n, i)
    {
      if i < |a| {
        assert h[i..i + |n|][0] == a[i] != n[0];
      } else {
        assert h[i..i + |n|] == b[i - |a|..i - |a| + |n|];
        assert !OccursAt(b, n, i - |a|);
      }
    }
  }
}
