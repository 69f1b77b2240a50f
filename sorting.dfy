/**
 * Go's string order and `sort.Strings`. Go compares strings byte by byte;
 * UTF-8 keeps the order of code points, so comparing characters one by one
 * gives the same order.
 */
module Sorting {

  /** `a < b` on Go strings: lexicographic, a proper prefix before its extensions. */
  predicate Less(a: string, b: string)
  {
    if |a| == 0 then |b| > 0
    else if |b| == 0 then false
    else if a[0] != b[0] then a[0] < b[0]
    else Less(a[1..], b[1..])
  }

  lemma {:induction false} LessIrreflexive(a: string)
    ensures !Less(a, a)
  {
    if |a| > 0 {
      LessIrreflexive(a[1..]);
    }
  }

  lemma {:induction false} LessTransitive(a: string, b: string, c: string)
    requires Less(a, b) && Less(b, c)
    ensures Less(a, c)
  {
    if |a| > 0 && a[0] == b[0] && b[0] == c[0] {
      LessTransitive(a[1..], b[1..], c[1..]);
    }
  }

  /** Any two different strings are ordered one way or the other. */
  lemma {:induction false} LessTotal(a: string, b: string)
    requires a != b
    ensures Less(a, b) || Less(b, a)
  {
    if |a| > 0 && |b| > 0 && a[0] == b[0] {
      assert a == [a[0]] + a[1..] && b == [b[0]] + b[1..];
      LessTotal(a[1..], b[1..]);
    }
  }

  lemma LessAsymmetric(a: string, b: string)
    requires Less(a, b)
    ensures !Less(b, a)
  {
    if Less(b, a) {
      LessTransitive(a, b, a);
      LessIrreflexive(a);
    }
  }

  /** `a <= b` on Go strings. */
  predicate AtMost(a: string, b: string)
  {
    !Less(b, a)
  }

  lemma AtMostTransitive(a: string, b: string, c: string)
    requires AtMost(a, b) && AtMost(b, c)
    ensures AtMost(a, c)
  {
    if Less(c, a) {
      if a == b {
      } else {
        LessTotal(a, b);
        LessTransitive(c, a, b);
      }
    }
  }

  /** What `sort.Strings` promises: every element is at most every later one. */
  ghost predicate Sorted(s: seq<string>)
  {
    forall i, j :: 0 <= i < j < |s| ==> AtMost(s[i], s[j])
  }

  /** Strictly ascending: sorted and without repetitions. */
  ghost predicate Ascending(s: seq<string>)
  {
    forall i, j :: 0 <= i < j < |s| ==> Less(s[i], s[j])
  }

  ghost predicate NoDuplicates(s: seq<string>)
  {
    forall i, j :: 0 <= i < j < |s| ==> s[i] != s[j]
  }

  /** A sorted sequence without repetitions is strictly ascending, and conversely. */
  lemma SortedDistinctAscending(s: seq<string>)
    ensures Sorted(s) && NoDuplicates(s) <==> Ascending(s)
  {
    if Sorted(s) && NoDuplicates(s) {
      forall i, j | 0 <= i < j < |s| ensures Less(s[i], s[j]) {
        LessTotal(s[i], s[j]);
      }
    }
    if Ascending(s) {
      forall i, j | 0 <= i < j < |s| ensures AtMost(s[i], s[j]) && s[i] != s[j] {
        LessAsymmetric(s[i], s[j]);
        LessIrreflexive(s[i]);
      }
    }
  }

  /** An element occurs at most once in a sequence without repetitions. */
  lemma {:induction false} NoDuplicatesMultiplicity(s: seq<string>, x: string)
    requires NoDuplicates(s)
    ensures multiset(s)[x] <= 1
  {
    if s != [] {
      assert s == [s[0]] + s[1..];
      NoDuplicatesMultiplicity(s[1..], x);
      if s[0] == x {
        assert x !in s[1..];
      }
    }
  }

  /** Reordering a sequence without repetitions cannot create one. */
  lemma NoDuplicatesPermutation(s: seq<string>, t: seq<string>)
    requires multiset(s) == multiset(t) && NoDuplicates(t)
    ensures NoDuplicates(s)
  {
    forall i, j | 0 <= i < j < |s| ensures s[i] != s[j] {
      if s[i] == s[j] {
        assert s == s[..j] + s[j..];
        assert s[i] == s[..j][i];
        assert s[j] == s[j..][0];
        assert multiset(s)[s[i]] == multiset(s[..j])[s[i]] + multiset(s[j..])[s[i]];
        NoDuplicatesMultiplicity(t, s[i]);
        assert false;
      }
    }
  }

  /**
   * Two strictly ascending sequences with the same elements are equal:
   * sorting a set of distinct names leaves no choice.
   */
  lemma {:induction false} AscendingUnique(s: seq<string>, t: seq<string>)
    requires Ascending(s) && Ascending(t)
    requires forall x :: x in s <==> x in t
    ensures s == t
    decreases |s|
  {
    if s != [] { assert s[0] in t; }
    if t != [] { assert t[0] in s; }
    if s != [] && t != [] {
      if s[0] != t[0] {
        assert s[0] in t && t[0] in s;
        var i :| 0 <= i < |t| && t[i] == s[0];
        var j :| 0 <= j < |s| && s[j] == t[0];
        assert Less(t[0], s[0]);
        assert Less(s[0], t[0]);
        LessAsymmetric(s[0], t[0]);
      }
      forall x ensures x in s[1..] <==> x in t[1..] {
        AscendingTail(s, x);
        AscendingTail(t, x);
      }
      AscendingUnique(s[1..], t[1..]);
      assert s == [s[0]] + s[1..] && t == [t[0]] + t[1..];
    }
  }

  /** Past the head of a strictly ascending sequence lie exactly its other elements. */
  lemma AscendingTail(s: seq<string>, x: string)
    requires Ascending(s) && s != []
    ensures x in s[1..] <==> x in s && x != s[0]
  {
    if x in s[1..] {
      var k :| 1 <= k < |s| && s[k] == x;
      LessIrreflexive(x);
    }
    if x in s && x != s[0] {
      var k :| 0 <= k < |s| && s[k] == x;
      assert s[1..][k - 1] == x;
    }
  }

  /** `sort.Strings`: sorts the array in place; the result is a reordering of the input. */
  method SortStrings(a: array<string>)
    modifies a
    ensures Sorted(a[..])
    ensures multiset(a[..]) == multiset(old(a[..]))
  {
    var i := 0;
    while i < a.Length
      invariant 0 <= i <= a.Length
      invariant Sorted(a[..i])
      invariant multiset(a[..]) == multiset(old(a[..]))
    {
      InsertLast(a, i);
      i := i + 1;
    }
    assert a[..a.Length] == a[..];
  }

  /** Moves `a[i]` down into the sorted prefix `a[..i]`, leaving `a[..i + 1]` sorted. */
  method InsertLast(a: array<string>, i: nat)
    requires i < a.Length && Sorted(a[..i])
    modifies a
    ensures Sorted(a[..i + 1])
    ensures multiset(a[..]) == multiset(old(a[..]))
    ensures a[i + 1..] == old(a[i + 1..])
  {
    SortedBeforeInsert(a[..], i);
    var j := i;
    while 0 < j && Less(a[j], a[j - 1])
      invariant 0 <= j <= i
      invariant SortedExcept(a[..], i, j) && AtMostAfter(a[..], i, j)
      invariant multiset(a[..]) == multiset(old(a[..]))
      invariant a[i + 1..] == old(a[i + 1..])
    {
      ghost var before := a[..];
      a[j - 1], a[j] := a[j], a[j - 1];
      SwapDown(before, a[..], i, j);
      j := j - 1;
    }
    SortedAfterInsert(a[..], i, j);
  }

  /** The first `n + 1` elements are sorted once the one at `j` is set aside. */
  ghost predicate SortedExcept(s: seq<string>, n: nat, j: nat)
    requires n < |s|
  {
    forall p, q :: 0 <= p < q <= n && p != j && q != j ==> AtMost(s[p], s[q])
  }

  /** The element at `j` is at most every later one up to `n`. */
  ghost predicate AtMostAfter(s: seq<string>, n: nat, j: nat)
    requires j <= n < |s|
  {
    forall q :: j < q <= n ==> AtMost(s[j], s[q])
  }

  lemma SortedBeforeInsert(s: seq<string>, i: nat)
    requires i < |s| && Sorted(s[..i])
    ensures SortedExcept(s, i, i) && AtMostAfter(s, i, i)
  {
    forall p, q | 0 <= p < q <= i && p != i && q != i ensures AtMost(s[p], s[q]) {
      assert s[p] == s[..i][p] && s[q] == s[..i][q];
    }
  }

  /** Swapping the element at `j` with a greater left neighbour moves the gap one place down. */
  lemma SwapDown(before: seq<string>, after: seq<string>, i: nat, j: nat)
    requires 0 < j <= i < |before|
    requires after == before[j - 1 := before[j]][j := before[j - 1]]
    requires Less(before[j], before[j - 1])
    requires SortedExcept(before, i, j) && AtMostAfter(before, i, j)
    ensures SortedExcept(after, i, j - 1) && AtMostAfter(after, i, j - 1)
    ensures multiset(after) == multiset(before)
  {
    forall p, q | 0 <= p < q <= i && p != j - 1 && q != j - 1 ensures AtMost(after[p], after[q]) {
      if q == j {
        assert AtMost(before[p], before[j - 1]);
      } else if p == j {
        assert AtMost(before[j - 1], before[q]);
      } else {
        assert AtMost(before[p], before[q]);
      }
    }
    LessAsymmetric(before[j], before[j - 1]);
    forall q | j - 1 < q <= i ensures AtMost(after[j - 1], after[q]) {
      if q > j {
        assert AtMost(before[j], before[q]);
      }
    }
  }

  /** Once no greater left neighbour remains, the first `i + 1` elements are sorted. */
  lemma SortedAfterInsert(s: seq<string>, i: nat, j: nat)
    requires j <= i < |s|
    requires SortedExcept(s, i, j) && AtMostAfter(s, i, j)
    requires j == 0 || !Less(s[j], s[j - 1])
    ensures Sorted(s[..i + 1])
  {
    var prefix := s[..i + 1];
    forall p, q | 0 <= p < q < |prefix| ensures AtMost(prefix[p], prefix[q]) {
      assert prefix[p] == s[p] && prefix[q] == s[q];
      if q == j && p < j - 1 {
        AtMostTransitive(s[p], s[j - 1], s[j]);
      }
    }
  }
}
