/**
  The ordering Python uses for `str` values and the `sorted()` builtin applied
  to a list of controller names. Python compares strings lexicographically by
  code point; Dafny's `<` on `char` is the same code-point order.
 */
module StringOrder {

  /** `a` is a prefix of `b`. */
  ghost predicate PrefixOf(a: string, b: string)
  {
    |a| <= |b| && a == b[..|a|]
  }

  /** `a` and `b` agree before position `k`, where `a` has the smaller character. */
  ghost predicate SmallerAt(a: string, b: string, k: int)
  {
    0 <= k < |a| && k < |b| && a[..k] == b[..k] && a[k] < b[k]
  }

  /**
    The textbook definition of lexicographic `<=`: `a` is a prefix of `b`, or
    at the first position where they differ `a` has the smaller character.
   */
  ghost predicate Lexicographic(a: string, b: string)
  {
    PrefixOf(a, b) || exists k :: SmallerAt(a, b, k)
  }

  /** The empty string is below everything; nothing non-empty is below it. */
  lemma LexicographicEmpty(a: string, b: string)
    ensures |a| == 0 ==> Lexicographic(a, b)
    ensures |a| > 0 && |b| == 0 ==> !Lexicographic(a, b)
  {
  }

  /** Strings with different first characters are ordered by those characters. */
  lemma LexicographicHeadsDiffer(a: string, b: string)
    requires |a| > 0 && |b| > 0 && a[0] != b[0]
    ensures Lexicographic(a, b) <==> a[0] < b[0]
  {
    if a[0] < b[0] {
      assert SmallerAt(a, b, 0);
    }
  }

  /** A common first character shifts the first difference by one. */
  lemma SmallerAtTail(a: string, b: string, k: int)
    requires |a| > 0 && |b| > 0 && a[0] == b[0]
    ensures SmallerAt(a, b, k + 1) <==> SmallerAt(a[1..], b[1..], k)
  {
    if 0 <= k < |a| - 1 && k < |b| - 1 {
      assert a[..k + 1] == [a[0]] + a[1..][..k];
      assert b[..k + 1] == [b[0]] + b[1..][..k];
    }
  }

  /** A common first character can be dropped from a prefix test. */
  lemma PrefixOfTail(a: string, b: string)
    requires |a| > 0 && |b| > 0 && a[0] == b[0]
    ensures PrefixOf(a, b) <==> PrefixOf(a[1..], b[1..])
  {
    if |a| <= |b| {
      assert b[..|a|] == [b[0]] + b[1..][..|a| - 1];
      assert a == [a[0]] + a[1..];
    }
  }

  /** A common first character can be dropped from the comparison. */
  lemma LexicographicTail(a: string, b: string)
    requires |a| > 0 && |b| > 0 && a[0] == b[0]
    ensures Lexicographic(a, b) <==> Lexicographic(a[1..], b[1..])
  {
    PrefixOfTail(a, b);
    assert !SmallerAt(a, b, 0);
    if exists k :: SmallerAt(a, b, k) {
      var k :| SmallerAt(a, b, k);
      SmallerAtTail(a, b, k - 1);
    }
    if exists k :: SmallerAt(a[1..], b[1..], k) {
      var k :| SmallerAt(a[1..], b[1..], k);
      SmallerAtTail(a, b, k);
    }
  }

  /** Python's `a <= b` on strings, compared one character at a time. */
  predicate Le(a: string, b: string)
    decreases |a|
  {
    if |a| == 0 then true
    else if |b| == 0 then false
    else if a[0] < b[0] then true
    else if a[0] == b[0] then Le(a[1..], b[1..])
    else false
  }

  /**
    The character-by-character comparison is the lexicographic order: a
    proper prefix sorts first, otherwise the first differing character decides.
   */
  lemma {:induction false} LeIsLexicographic(a: string, b: string)
    ensures Le(a, b) <==> Lexicographic(a, b)
    decreases |a|
  {
    LexicographicEmpty(a, b);
    if |a| > 0 && |b| > 0 {
      if a[0] == b[0] {
        LexicographicTail(a, b);
        LeIsLexicographic(a[1..], b[1..]);
      } else {
        LexicographicHeadsDiffer(a, b);
      }
    }
  }

  lemma {:induction false} LeReflexive(a: string)
    ensures Le(a, a)
    decreases |a|
  {
    if |a| > 0 {
      LeReflexive(a[1..]);
    }
  }

  lemma {:induction false} LeTotal(a: string, b: string)
    ensures Le(a, b) || Le(b, a)
    decreases |a|
  {
    if |a| > 0 && |b| > 0 && a[0] == b[0] {
      LeTotal(a[1..], b[1..]);
    }
  }

  lemma {:induction false} LeAntisymmetric(a: string, b: string)
    requires Le(a, b) && Le(b, a)
    ensures a == b
    decreases |a|
  {
    if |a| > 0 {
      LeAntisymmetric(a[1..], b[1..]);
      assert a == [a[0]] + a[1..];
      assert b == [b[0]] + b[1..];
    }
  }

  lemma {:induction false} LeTransitive(a: string, b: string, c: string)
    requires Le(a, b) && Le(b, c)
    ensures Le(a, c)
    decreases |a|
  {
    if |a| > 0 && a[0] == b[0] && b[0] == c[0] {
      LeTransitive(a[1..], b[1..], c[1..]);
    }
  }

  /** Every earlier element is `<=` every later one. */
  predicate IsSorted(s: seq<string>)
  {
    forall i, j | 0 <= i < j < |s| :: Le(s[i], s[j])
  }

  /** An element `<=` everything in a sorted list can go in front of it. */
  lemma SortedCons(h: string, s: seq<string>)
    requires IsSorted(s)
    requires forall j | 0 <= j < |s| :: Le(h, s[j])
    ensures IsSorted([h] + s)
  {
    var r := [h] + s;
    forall i, j | 0 <= i < j < |r| ensures Le(r[i], r[j]) {
      assert r[j] == s[j - 1];
      if i > 0 { assert r[i] == s[i - 1]; }
    }
  }

  /** Inserts `x` into a sorted list before the first element it is `<=` to. */
  function Insert(x: string, s: seq<string>): (r: seq<string>)
    requires IsSorted(s)
    ensures IsSorted(r)
    ensures multiset(r) == multiset(s) + multiset{x}
    decreases |s|
  {
    if |s| == 0 then [x]
    else if Le(x, s[0]) then
      assert forall j | 0 <= j < |s| :: Le(x, s[j]) by {
        forall j | 0 <= j < |s| ensures Le(x, s[j]) {
          if j > 0 { LeTransitive(x, s[0], s[j]); }
        }
      }
      SortedCons(x, s);
      [x] + s
    else
      LeTotal(x, s[0]);
      assert s == [s[0]] + s[1..];
      assert IsSorted(s[1..]) by {
        forall i, j | 0 <= i < j < |s| - 1 ensures Le(s[1..][i], s[1..][j]) {
          assert s[1..][i] == s[i + 1] && s[1..][j] == s[j + 1];
        }
      }
      var tail := Insert(x, s[1..]);
      assert forall j | 0 <= j < |tail| :: Le(s[0], tail[j]) by {
        forall j | 0 <= j < |tail| ensures Le(s[0], tail[j]) {
          assert tail[j] in multiset(tail);
          assert tail[j] == x || tail[j] in s[1..];
        }
      }
      SortedCons(s[0], tail);
      [s[0]] + tail
  }

  /** Python's `sorted(xs)` on a list of strings. */
  function Sort(xs: seq<string>): (r: seq<string>)
    ensures IsSorted(r)
    ensures multiset(r) == multiset(xs)
    decreases |xs|
  {
    if |xs| == 0 then []
    else
      assert xs == [xs[0]] + xs[1..];
      Insert(xs[0], Sort(xs[1..]))
  }

  /** Two sorted permutations of each other start with the same element. */
  lemma SortedPermutationsSameHead(a: seq<string>, b: seq<string>)
    requires IsSorted(a) && IsSorted(b)
    requires multiset(a) == multiset(b)
    requires |a| > 0 && |b| > 0
    ensures a[0] == b[0]
  {
    assert a[0] in multiset(b);
    var j :| 0 <= j < |b| && b[j] == a[0];
    assert b[0] in multiset(a);
    var i :| 0 <= i < |a| && a[i] == b[0];
    if j > 0 { assert Le(b[0], a[0]); } else { LeReflexive(a[0]); }
    if i > 0 { assert Le(a[0], b[0]); } else { LeReflexive(a[0]); }
    LeAntisymmetric(a[0], b[0]);
  }

  /** Removing equal heads from equal multisets leaves equal multisets. */
  lemma TailsSameMultiset(a: seq<string>, b: seq<string>)
    requires |a| > 0 && |b| > 0 && a[0] == b[0]
    requires multiset(a) == multiset(b)
    ensures multiset(a[1..]) == multiset(b[1..])
  {
    assert a == [a[0]] + a[1..];
    assert b == [b[0]] + b[1..];
    assert multiset(a) == multiset([a[0]]) + multiset(a[1..]);
    assert multiset(b) == multiset([b[0]]) + multiset(b[1..]);
    assert multiset(a[1..]) == multiset(a) - multiset([a[0]]);
    assert multiset(b[1..]) == multiset(b) - multiset([b[0]]);
  }

  /**
    A sorted permutation is unique, so `Sort` is exactly the list Python's
    `sorted()` returns, whatever sorting algorithm produces it.
   */
  lemma {:induction false} SortedPermutationUnique(a: seq<string>, b: seq<string>)
    requires IsSorted(a) && IsSorted(b)
    requires multiset(a) == multiset(b)
    ensures a == b
    decreases |a|
  {
    assert |a| == |multiset(a)| == |multiset(b)| == |b|;
    if |a| > 0 {
      SortedPermutationsSameHead(a, b);
      TailsSameMultiset(a, b);
      assert IsSorted(a[1..]) && IsSorted(b[1..]);
      SortedPermutationUnique(a[1..], b[1..]);
      assert a == [a[0]] + a[1..];
      assert b == [b[0]] + b[1..];
    }
  }
}
