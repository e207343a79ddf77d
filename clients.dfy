/**
 * Programs written against the list interface: the queue and stack
 * disciplines that the endpoint pushes and pops give, and small scenarios of
 * the sorted insert, the sort and the search.
 */
module ListClients {
  import opened Wrappers
  import opened ListSpec
  import opened CList
  import opened CSortedList

  /** The sequence back to front. */
  function Reverse<X>(s: seq<X>): (r: seq<X>)
    ensures |r| == |s|
    ensures forall i :: 0 <= i < |s| ==> r[i] == s[|s| - 1 - i]
  {
    if s == [] then [] else Reverse(s[1..]) + [s[0]]
  }

  /** A fresh list built by `cl_empl_back` of every payload in turn. */
  method FillBack<T(!new)>(xs: seq<T>) returns (l: List<T>)
    ensures l.Valid() && fresh(l.Repr)
    ensures l.Contents == xs
  {
    l := new List<T>();
    var i := 0;
    while i < |xs|
      invariant 0 <= i <= |xs|
      invariant l.Valid() && fresh(l.Repr)
      invariant l.Contents == xs[..i]
    {
      l.EmplBack(xs[i]);
      assert xs[..i + 1] == xs[..i] + [xs[i]];
      i := i + 1;
    }
    assert xs[..i] == xs;
  }

  /** A fresh list built by `cl_empl_front` of every payload in turn. */
  method FillFront<T(!new)>(xs: seq<T>) returns (l: List<T>)
    ensures l.Valid() && fresh(l.Repr)
    ensures l.Contents == Reverse(xs)
  {
    l := new List<T>();
    var i := 0;
    while i < |xs|
      invariant 0 <= i <= |xs|
      invariant l.Valid() && fresh(l.Repr)
      invariant l.Contents == Reverse(xs[..i])
    {
      l.EmplFront(xs[i]);
      i := i + 1;
    }
    assert xs[..i] == xs;
  }

  /** `cl_popd_front` until the list is empty: the payloads front to back. */
  method DrainFront<T(!new)>(l: List<T>) returns (ys: seq<T>)
    requires l.Valid()
    modifies l.Repr
    ensures l.Valid() && l.Contents == []
    ensures ys == old(l.Contents)
  {
    ys := [];
    while !l.IsEmpty()
      invariant l.Valid() && l.Repr <= old(l.Repr)
      invariant |ys| + |l.Contents| == |old(l.Contents)|
      invariant l.Contents == old(l.Contents)[|ys|..]
      invariant forall j :: 0 <= j < |ys| ==> ys[j] == old(l.Contents)[j]
      decreases |l.Contents|
    {
      var d := l.PopdFront();
      ys := ys + [d.value];
    }
  }

  /** `cl_popd_back` until the list is empty: the payloads back to front. */
  method DrainBack<T(!new)>(l: List<T>) returns (ys: seq<T>)
    requires l.Valid()
    modifies l.Repr
    ensures l.Valid() && l.Contents == []
    ensures ys == Reverse(old(l.Contents))
  {
    ys := [];
    while !l.IsEmpty()
      invariant l.Valid() && l.Repr <= old(l.Repr)
      invariant |ys| + |l.Contents| == |old(l.Contents)|
      invariant l.Contents == old(l.Contents)[..|l.Contents|]
      invariant forall j :: 0 <= j < |ys| ==> ys[j] == old(l.Contents)[|old(l.Contents)| - 1 - j]
      decreases |l.Contents|
    {
      var d := l.PopdBack();
      ys := ys + [d.value];
    }
  }

  /** `cl_empl_back` then `cl_popd_front`: first in, first out. */
  method QueueBackFront<T(!new)>(xs: seq<T>) returns (ys: seq<T>)
    ensures ys == xs
  {
    var l := FillBack(xs);
    ys := DrainFront(l);
  }

  /** `cl_empl_front` then `cl_popd_back`: also first in, first out. */
  method QueueFrontBack<T(!new)>(xs: seq<T>) returns (ys: seq<T>)
    ensures ys == xs
  {
    var l := FillFront(xs);
    ys := DrainBack(l);
    assert |ys| == |xs| && forall i :: 0 <= i < |xs| ==> ys[i] == xs[i];
  }

  /** `cl_empl_front` then `cl_popd_front`: last in, first out. */
  method StackFront<T(!new)>(xs: seq<T>) returns (ys: seq<T>)
    ensures ys == Reverse(xs)
  {
    var l := FillFront(xs);
    ys := DrainFront(l);
  }

  /** The comparator of a least-to-greatest list of integers. */
  function IntGreater(a: int, b: int): int {
    if a > b then 1 else 0
  }

  /** Inserting 5, 1 and 3 into an empty sorted list of integers leaves 1, 3, 5. */
  method SortedInsertScenario() returns (visited: seq<int>)
    ensures visited == [1, 3, 5]
  {
    var sl := new SortedList<int>(IntGreater);
    sl.InsertData(5);
    sl.InsertData(1);
    sl.InsertData(3);
    visited := sl.Foreach();
  }

  /** Rock-paper-scissors on 0, 1 and 2: a beats b when a is one step ahead of b. */
  function Beats(a: int, b: int): int {
    if (a - b) % 3 == 1 then 1 else 0
  }

  /** The cyclic comparator never answers yes both ways, so it is asymmetric. */
  lemma BeatsAsymmetric()
    ensures Asymmetric(Beats)
  {
    forall a: int, b: int | Greater(Beats, a, b)
      ensures !Greater(Beats, b, a)
    {
      assert (a - b) % 3 == 1;
      assert (b - a) % 3 == 2;
    }
  }

  /**
   * Inserting 2, 0 and 1 into a sorted list under the asymmetric but cyclic
   * `Beats` leaves 1, 2, 0: adjacent pairs are in order, yet the front beats
   * the back, so without transitivity the front is not the least payload.
   */
  method CyclicInsertScenario() returns (visited: seq<int>)
    ensures Asymmetric(Beats)
    ensures visited == [1, 2, 0]
    ensures AdjSorted(Beats, visited) && Greater(Beats, visited[0], visited[2])
  {
    BeatsAsymmetric();
    var sl := new SortedList<int>(Beats);
    sl.InsertData(2);
    sl.InsertData(0);
    sl.InsertData(1);
    visited := sl.Foreach();
  }

  /** Sorting 3, 1, 2 gives 1, 2, 3. */
  method SortScenario() returns (visited: seq<int>)
    ensures visited == [1, 2, 3]
  {
    var l := FillBack([3, 1, 2]);
    l.Sort(IntGreater);
    visited := l.Foreach();
  }

  /** Searching 1, 2, 3 for an even payload finds the node holding 2; popping an empty list yields nothing. */
  method FindScenario() returns (found: Node?<int>, popped: Node?<int>)
    ensures found != null && found.data == 2
    ensures popped == null
  {
    var l := FillBack([1, 2, 3]);
    found := l.Find(x => if x % 2 == 0 then 1 else 0);
    var empty := new List<int>();
    popped := empty.PopFront();
  }
}
