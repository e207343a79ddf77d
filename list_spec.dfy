/**
 * Pure specification of the list operations: the comparator and predicate
 * conventions of the C interface, sortedness, the sorted-insertion position,
 * insertion sort and first-match search, all on the abstract sequence of
 * payloads held front to back.
 */
module ListSpec {

  /** A comparator `greater_than(a, b)` answers nonzero when `a` must sort strictly after `b`. */
  predicate Greater<T>(greaterThan: (T, T) -> int, a: T, b: T) {
    greaterThan(a, b) != 0
  }

  /** A search predicate answers nonzero when the payload matches. */
  predicate Matches<T>(pred: T -> int, x: T) {
    pred(x) != 0
  }

  /** What a "greater than" relation must satisfy: never both a > b and b > a. */
  ghost predicate Asymmetric<T(!new)>(greaterThan: (T, T) -> int) {
    forall a, b :: Greater(greaterThan, a, b) ==> !Greater(greaterThan, b, a)
  }

  /** "Not greater than" is transitive, as for any total preorder. */
  ghost predicate NotGreaterTransitive<T(!new)>(greaterThan: (T, T) -> int) {
    forall a, b, c :: !Greater(greaterThan, a, b) && !Greater(greaterThan, b, c) ==> !Greater(greaterThan, a, c)
  }

  /** No adjacent pair (a, b), front to back, has a greater than b. */
  ghost predicate AdjSorted<T>(greaterThan: (T, T) -> int, s: seq<T>) {
    forall i :: 0 <= i < |s| - 1 ==> !Greater(greaterThan, s[i], s[i + 1])
  }

  /** No pair at all, front to back, is out of order. */
  ghost predicate Sorted<T>(greaterThan: (T, T) -> int, s: seq<T>) {
    forall i, j :: 0 <= i < j < |s| ==> !Greater(greaterThan, s[i], s[j])
  }

  ghost predicate Distinct<X>(s: seq<X>) {
    forall i, j :: 0 <= i < j < |s| ==> s[i] != s[j]
  }

  /** Index of the first payload front to back that matches, or |s| when none does. */
  function FirstMatch<T>(pred: T -> int, s: seq<T>): (k: nat)
    ensures k <= |s|
    ensures forall j :: 0 <= j < k ==> !Matches(pred, s[j])
    ensures k < |s| ==> Matches(pred, s[k])
  {
    if s == [] || Matches(pred, s[0]) then 0 else 1 + FirstMatch(pred, s[1..])
  }

  /**
   * Where a sorted insertion puts x: before the first element that is greater
   * than x, so that x lands after every element it ties with.
   */
  function InsertionPoint<T>(greaterThan: (T, T) -> int, s: seq<T>, x: T): (k: nat)
    ensures k <= |s|
    ensures forall j :: 0 <= j < k ==> !Greater(greaterThan, s[j], x)
    ensures k < |s| ==> Greater(greaterThan, s[k], x)
  {
    FirstMatch(e => greaterThan(e, x), s)
  }

  /** The sequence after inserting x at its insertion point. */
  function InsertSorted<T>(greaterThan: (T, T) -> int, s: seq<T>, x: T): (r: seq<T>)
  {
    InsertAt(s, InsertionPoint(greaterThan, s, x), x)
  }

  /** Inserts the elements of s, front first, one by one into acc. */
  function InsertAll<T>(greaterThan: (T, T) -> int, acc: seq<T>, s: seq<T>): (r: seq<T>)
    decreases s
  {
    if s == [] then acc else InsertAll(greaterThan, InsertSorted(greaterThan, acc, s[0]), s[1..])
  }

  /** Insertion sort: the order the list takes after sorting. */
  function SortedBy<T>(greaterThan: (T, T) -> int, s: seq<T>): (r: seq<T>)
  {
    InsertAll(greaterThan, [], s)
  }

  /** s with x inserted at position k, every later element moving up by one. */
  function InsertAt<X>(s: seq<X>, k: nat, x: X): (r: seq<X>)
    requires k <= |s|
    ensures |r| == |s| + 1
  {
    seq(|s| + 1, i requires 0 <= i <= |s| => if i < k then s[i] else if i == k then x else s[i - 1])
  }

  lemma InsertAtSlices<X>(s: seq<X>, k: nat, x: X)
    requires k <= |s|
    ensures InsertAt(s, k, x) == s[..k] + [x] + s[k..]
  {
  }

  lemma InsertAtDistinct<X>(s: seq<X>, k: nat, x: X)
    requires k <= |s| && Distinct(s) && x !in s
    ensures Distinct(InsertAt(s, k, x))
  {
    var r := InsertAt(s, k, x);
    forall i, j | 0 <= i < j < |r| ensures r[i] != r[j] {
      if j < k {
      } else if j == k {
        assert r[i] == s[i];
      } else if i < k {
        assert r[i] == s[i] && r[j] == s[j - 1];
      } else if i == k {
        assert r[j] == s[j - 1];
      } else {
        assert r[i] == s[i - 1] && r[j] == s[j - 1];
      }
    }
  }

  lemma InsertAtMultiset<X>(s: seq<X>, k: nat, x: X)
    requires k <= |s|
    ensures multiset(InsertAt(s, k, x)) == multiset(s) + multiset{x}
  {
    InsertAtSlices(s, k, x);
    assert s == s[..k] + s[k..];
  }

  /** A sorted insertion adds exactly one element and loses none. */
  lemma InsertSortedPermutation<T>(greaterThan: (T, T) -> int, s: seq<T>, x: T)
    ensures |InsertSorted(greaterThan, s, x)| == |s| + 1
    ensures multiset(InsertSorted(greaterThan, s, x)) == multiset(s) + multiset{x}
  {
    InsertAtMultiset(s, InsertionPoint(greaterThan, s, x), x);
  }

  /** A sorted insertion into an adjacently sorted sequence keeps it adjacently sorted. */
  lemma InsertSortedKeepsOrder<T(!new)>(greaterThan: (T, T) -> int, s: seq<T>, x: T)
    requires Asymmetric(greaterThan)
    requires AdjSorted(greaterThan, s)
    ensures AdjSorted(greaterThan, InsertSorted(greaterThan, s, x))
  {
    var k := InsertionPoint(greaterThan, s, x);
    var r := InsertSorted(greaterThan, s, x);
    forall i | 0 <= i < |r| - 1
      ensures !Greater(greaterThan, r[i], r[i + 1])
    {
      if i + 1 < k {
        assert r[i] == s[i] && r[i + 1] == s[i + 1];
      } else if i + 1 == k {
        assert r[i] == s[k - 1] && r[i + 1] == x;
      } else if i == k {
        assert r[i] == x && r[i + 1] == s[k];
      } else {
        assert r[i] == s[i - 1] && r[i + 1] == s[i];
      }
    }
  }

  lemma {:induction false} InsertAllPermutation<T>(greaterThan: (T, T) -> int, acc: seq<T>, s: seq<T>)
    ensures multiset(InsertAll(greaterThan, acc, s)) == multiset(acc) + multiset(s)
    decreases s
  {
    if s != [] {
      InsertSortedPermutation(greaterThan, acc, s[0]);
      InsertAllPermutation(greaterThan, InsertSorted(greaterThan, acc, s[0]), s[1..]);
      assert s == [s[0]] + s[1..];
    }
  }

  lemma {:induction false} InsertAllKeepsOrder<T(!new)>(greaterThan: (T, T) -> int, acc: seq<T>, s: seq<T>)
    requires Asymmetric(greaterThan)
    requires AdjSorted(greaterThan, acc)
    ensures AdjSorted(greaterThan, InsertAll(greaterThan, acc, s))
    decreases s
  {
    if s != [] {
      InsertSortedKeepsOrder(greaterThan, acc, s[0]);
      InsertAllKeepsOrder(greaterThan, InsertSorted(greaterThan, acc, s[0]), s[1..]);
    }
  }

  /** Sorting yields a permutation of its input, adjacently sorted for any asymmetric comparator. */
  lemma SortedBySortsAndPermutes<T(!new)>(greaterThan: (T, T) -> int, s: seq<T>)
    ensures multiset(SortedBy(greaterThan, s)) == multiset(s)
    ensures |SortedBy(greaterThan, s)| == |s|
    ensures Asymmetric(greaterThan) ==> AdjSorted(greaterThan, SortedBy(greaterThan, s))
  {
    InsertAllPermutation(greaterThan, [], s);
    assert |multiset(SortedBy(greaterThan, s))| == |multiset(s)|;
    if Asymmetric(greaterThan) {
      InsertAllKeepsOrder(greaterThan, [], s);
    }
  }

  /** For a comparator whose "not greater" is transitive, adjacent order is full order. */
  lemma {:induction false} AdjSortedIsSorted<T(!new)>(greaterThan: (T, T) -> int, s: seq<T>)
    requires NotGreaterTransitive(greaterThan)
    requires AdjSorted(greaterThan, s)
    ensures Sorted(greaterThan, s)
    decreases |s|
  {
    if |s| > 1 {
      var t := s[..|s| - 1];
      assert AdjSorted(greaterThan, t) by {
        forall i | 0 <= i < |t| - 1 ensures !Greater(greaterThan, t[i], t[i + 1]) {
          assert t[i] == s[i] && t[i + 1] == s[i + 1];
        }
      }
      AdjSortedIsSorted(greaterThan, t);
      forall i, j | 0 <= i < j < |s| ensures !Greater(greaterThan, s[i], s[j]) {
        if j < |s| - 1 {
          assert t[i] == s[i] && t[j] == s[j];
        } else if i < |s| - 2 {
          assert t[i] == s[i] && t[|s| - 2] == s[|s| - 2];
          assert !Greater(greaterThan, s[i], s[|s| - 2]);
        }
      }
    }
  }
}
