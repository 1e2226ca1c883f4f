/**
 * Python's ordering of `str` values (code point by code point, a proper
 * prefix first) and the in-place `list.sort()` applied to the resolved keys.
 */
module StringOrder {

  /** `a <= b` on Python strings. */
  predicate LexLe(a: string, b: string) {
    |a| == 0 || (|b| > 0 && (a[0] < b[0] || (a[0] == b[0] && LexLe(a[1..], b[1..]))))
  }

  lemma {:induction false} LexLeReflexive(a: string)
    ensures LexLe(a, a)
  {
    if |a| > 0 {
      LexLeReflexive(a[1..]);
    }
  }

  lemma {:induction false} LexLeTotal(a: string, b: string)
    ensures LexLe(a, b) || LexLe(b, a)
  {
    if |a| > 0 && |b| > 0 && a[0] == b[0] {
      LexLeTotal(a[1..], b[1..]);
    }
  }

  lemma {:induction false} LexLeAntisymmetric(a: string, b: string)
    requires LexLe(a, b) && LexLe(b, a)
    ensures a == b
  {
    if |a| > 0 && |b| > 0 {
      LexLeAntisymmetric(a[1..], b[1..]);
      assert a == [a[0]] + a[1..];
      assert b == [b[0]] + b[1..];
    }
  }

  lemma {:induction false} LexLeTransitive(a: string, b: string, c: string)
    requires LexLe(a, b) && LexLe(b, c)
    ensures LexLe(a, c)
  {
    if |a| > 0 && |b| > 0 && |c| > 0 && a[0] == b[0] && b[0] == c[0] {
      LexLeTransitive(a[1..], b[1..], c[1..]);
    }
  }

  /** Every earlier element is `<=` every later one. */
  ghost predicate Sorted(s: seq<string>) {
    forall i, j :: 0 <= i < j < |s| ==> LexLe(s[i], s[j])
  }

  /** The first element of a sorted list is `<=` every element of it. */
  lemma SortedFirstIsLeast(a: seq<string>, x: string)
    requires Sorted(a)
    requires x in a
    ensures LexLe(a[0], x)
  {
    var j :| 0 <= j < |a| && a[j] == x;
    if j == 0 {
      LexLeReflexive(x);
    }
  }

  /** Dropping the first element keeps a list sorted and removes one copy of it from the multiset. */
  lemma SortedTail(a: seq<string>)
    requires Sorted(a) && a != []
    ensures Sorted(a[1..])
    ensures multiset(a[1..]) == multiset(a) - multiset{a[0]}
  {
    assert a == [a[0]] + a[1..];
  }

  /**
   * A sorted arrangement of a multiset of strings is unique: whatever order
   * the keys arrive in, sorting them gives the same list.
   */
  lemma {:induction false} SortedUnique(a: seq<string>, b: seq<string>)
    requires Sorted(a) && Sorted(b)
    requires multiset(a) == multiset(b)
    ensures a == b
  {
    assert |a| == |multiset(a)| == |multiset(b)| == |b|;
    if a != [] {
      assert a[0] in multiset(b) && b[0] in multiset(a);
      SortedFirstIsLeast(b, a[0]);
      SortedFirstIsLeast(a, b[0]);
      LexLeAntisymmetric(a[0], b[0]);
      SortedTail(a);
      SortedTail(b);
      SortedUnique(a[1..], b[1..]);
      assert a == [a[0]] + a[1..] && b == [b[0]] + b[1..];
    }
  }

  /** `keys.sort()`: sorts the keys in place, ascending. */
  method SortInPlace(a: array<string>)
    modifies a
    ensures Sorted(a[..])
    ensures multiset(a[..]) == multiset(old(a[..]))
  {
    var i := 0;
    while i < a.Length
      invariant 0 <= i <= a.Length
      invariant Sorted(a[..i])
      invariant multiset(a[..]) == multiset(old(a[..]))
    {
      InsertAt(a, i);
      i := i + 1;
    }
    assert a[..a.Length] == a[..];
  }

  /** Moves `a[i]` left into its place within the sorted prefix `a[..i]`. */
  method InsertAt(a: array<string>, i: int)
    requires 0 <= i < a.Length
    requires Sorted(a[..i])
    modifies a
    ensures Sorted(a[..i + 1])
    ensures multiset(a[..]) == multiset(old(a[..]))
  {
    StartInsert(a[..], i);
    var j := i;
    while j > 0 && !LexLe(a[j - 1], a[j])
      invariant 0 <= j <= i
      invariant Inserting(a[..], j, i)
      invariant multiset(a[..]) == multiset(old(a[..]))
    {
      ghost var s := a[..];
      InsertStep(s, j, i);
      a[j - 1], a[j] := a[j], a[j - 1];
      assert a[..] == s[j - 1 := s[j]][j := s[j - 1]];
      j := j - 1;
    }
    SortedAfterInsert(a[..], j, i);
  }

  /**
   * While element `j` moves left to its place: the prefix up to `i` is
   * sorted apart from position `j`, which is below everything after it.
   */
  ghost predicate Inserting(s: seq<string>, j: int, i: int) {
    0 <= j <= i < |s| &&
    (forall p, q :: 0 <= p < q <= i && q != j ==> LexLe(s[p], s[q])) &&
    (forall q :: j < q <= i ==> LexLe(s[j], s[q])) &&
    (0 < j < i ==> LexLe(s[j - 1], s[j + 1]))
  }

  lemma StartInsert(s: seq<string>, i: int)
    requires 0 <= i < |s|
    requires Sorted(s[..i])
    ensures Inserting(s, i, i)
  {
    forall p, q | 0 <= p < q <= i && q != i
      ensures LexLe(s[p], s[q])
    {
      assert s[p] == s[..i][p] && s[q] == s[..i][q];
    }
  }

  /** One swap of the moving element with its left neighbour keeps `Inserting`. */
  lemma InsertStep(s: seq<string>, j: int, i: int)
    requires 0 < j
    requires Inserting(s, j, i)
    requires !LexLe(s[j - 1], s[j])
    ensures Inserting(s[j - 1 := s[j]][j := s[j - 1]], j - 1, i)
  {
    var t := s[j - 1 := s[j]][j := s[j - 1]];
    forall q | j - 1 < q <= i
      ensures LexLe(t[j - 1], t[q])
    {
      if q == j { LexLeTotal(s[j], s[j - 1]); }
    }
    if 0 < j - 1 {
      assert LexLe(s[j - 2], s[j - 1]);
    }
  }

  lemma SortedAfterInsert(s: seq<string>, j: int, i: int)
    requires Inserting(s, j, i)
    requires j == 0 || LexLe(s[j - 1], s[j])
    ensures Sorted(s[..i + 1])
  {
    forall p, q | 0 <= p < q <= i
      ensures LexLe(s[p], s[q])
    {
      if q == j && p < j - 1 {
        LexLeTransitive(s[p], s[j - 1], s[j]);
      }
    }
  }
}
