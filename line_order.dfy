/**
 * Ordering facts behind the list `notYetCoveredLineNumbers` returns: the
 * in-place ascending sort the list gets, and why a sorted list of distinct
 * line numbers is determined by its elements alone.
 */
module LineOrder {

  import opened CoverageTypes

  /** Every element is no larger than every later one. */
  ghost predicate Ascending(s: seq<int>)
  {
    forall i, j :: 0 <= i < j < |s| ==> s[i] <= s[j]
  }

  /** Every element is smaller than every later one: sorted, no duplicates. */
  ghost predicate StrictlyIncreasing(s: seq<int>)
  {
    forall i, j :: 0 <= i < j < |s| ==> s[i] < s[j]
  }

  /** Sorts `a` ascending in place, as `List.sort(Integer::compare)` does. */
  method SortAscending(a: array<int>)
    modifies a
    ensures Ascending(a[..])
    ensures multiset(a[..]) == multiset(old(a[..]))
  {
    var i := 0;
    while i < a.Length
      invariant 0 <= i <= a.Length
      invariant Ascending(a[..i])
      invariant multiset(a[..]) == multiset(old(a[..]))
    {
      InsertAt(a, i);
      i := i + 1;
    }
    assert a[..] == a[..a.Length];
  }

  /** Moves `a[i]` down into the ascending prefix `a[..i]`, leaving `a[..i + 1]`
      ascending and the contents of `a` a permutation of what they were. */
  method InsertAt(a: array<int>, i: int)
    requires 0 <= i < a.Length
    requires Ascending(a[..i])
    modifies a
    ensures Ascending(a[..i + 1])
    ensures multiset(a[..]) == multiset(old(a[..]))
  {
    var j := i;
    while 0 < j && a[j] < a[j - 1]
      invariant 0 <= j <= i
      invariant forall p, q :: 0 <= p < q <= i && p != j && q != j ==> a[p] <= a[q]
      invariant forall q :: j < q <= i ==> a[j] < a[q]
      invariant multiset(a[..]) == multiset(old(a[..]))
    {
      SwapAdjacent(a, j);
      j := j - 1;
    }
  }

  /** Exchanges `a[j - 1]` and `a[j]`. */
  method SwapAdjacent(a: array<int>, j: int)
    requires 0 < j < a.Length
    modifies a
    ensures a[j - 1] == old(a[j]) && a[j] == old(a[j - 1])
    ensures forall k :: 0 <= k < a.Length && k != j - 1 && k != j ==> a[k] == old(a[k])
    ensures multiset(a[..]) == multiset(old(a[..]))
  {
    a[j - 1], a[j] := a[j], a[j - 1];
  }

  /** A value that occurs at two positions occurs at least twice. */
  lemma {:induction false} TwoPositionsTwoCopies(s: seq<int>, i: int, j: int)
    requires 0 <= i < j < |s| && s[i] == s[j]
    ensures multiset(s)[s[i]] >= 2
  {
    assert s == s[..j] + s[j..];
    assert s[i] == s[..j][i];
    assert s[j] == s[j..][0];
    assert multiset(s) == multiset(s[..j]) + multiset(s[j..]);
  }

  /** An ascending arrangement of the elements of a set is strictly
      increasing and holds exactly the elements of the set. */
  lemma {:induction false} AscendingSetIsStrict(s: seq<int>, lines: set<int>)
    requires Ascending(s)
    requires multiset(s) == multiset(lines)
    ensures StrictlyIncreasing(s)
    ensures forall n :: n in s <==> n in lines
    ensures |s| == |lines|
  {
    forall i, j | 0 <= i < j < |s| ensures s[i] < s[j] {
      if s[i] == s[j] {
        TwoPositionsTwoCopies(s, i, j);
        assert false;
      }
    }
    forall n ensures n in s <==> n in lines {
      assert n in s <==> n in multiset(s);
    }
  }

  /** A strictly increasing sequence is determined by its elements: two that
      hold the same numbers are equal. */
  lemma {:induction false} StrictlyIncreasingUnique(s: seq<int>, t: seq<int>)
    requires StrictlyIncreasing(s) && StrictlyIncreasing(t)
    requires forall n :: n in s <==> n in t
    ensures s == t
    decreases |s|
  {
    assert s != [] ==> s[0] in s;
    assert t != [] ==> t[0] in t;
    if s != [] && t != [] {
      HeadAndTail(s);
      HeadAndTail(t);
      assert s[0] == t[0] by {
        assert s[0] in t && t[0] in s;
      }
      StrictlyIncreasingUnique(s[1..], t[1..]);
      assert s == [s[0]] + s[1..] && t == [t[0]] + t[1..];
    }
  }

  /** The head of a non-empty strictly increasing sequence is its least
      element, and every other element lies in the tail. */
  lemma HeadAndTail(s: seq<int>)
    requires StrictlyIncreasing(s) && s != []
    ensures StrictlyIncreasing(s[1..])
    ensures forall n :: n in s <==> n == s[0] || n in s[1..]
    ensures forall n :: n in s[1..] ==> s[0] < n
  {
    assert s == [s[0]] + s[1..];
    forall n | n in s[1..] ensures s[0] < n {
      var k :| 0 <= k < |s[1..]| && s[1..][k] == n;
      assert s[k + 1] == n;
    }
  }

  /** A strictly increasing sequence of numbers from `lo..hi` (inclusive) has
      at most `hi - lo + 1` elements. */
  lemma {:induction false} StrictlyIncreasingBound(s: seq<int>, lo: int, hi: int)
    requires StrictlyIncreasing(s)
    requires forall n :: n in s ==> lo <= n <= hi
    ensures |s| <= if lo <= hi then hi - lo + 1 else 0
    decreases |s|
  {
    if s != [] {
      assert s[0] in s;
      forall n | n in s[1..] ensures s[0] + 1 <= n <= hi {
        var k :| 1 <= k < |s| && s[k] == n;
        assert s[k] in s;
      }
      StrictlyIncreasingBound(s[1..], s[0] + 1, hi);
    }
  }
}
