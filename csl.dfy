/**
 * The sorted list `csl_t`: a `cl_t` together with the comparator it was
 * allocated with. Every insertion goes through the ordered insert, so for an
 * asymmetric comparator no adjacent pair is out of order, and when "not
 * greater" is also transitive the payloads run least to greatest; the
 * accessors and pops delegate to the underlying list and keep that order.
 */
module CSortedList {
  import opened Wrappers
  import opened ListSpec
  import opened CList

  /** Dropping the front or the back of a sorted sequence leaves it sorted. */
  lemma AdjSortedEnds<T>(greaterThan: (T, T) -> int, s: seq<T>)
    requires s != [] && AdjSorted(greaterThan, s)
    ensures AdjSorted(greaterThan, s[1..])
    ensures AdjSorted(greaterThan, s[..|s| - 1])
  {
    forall i | 0 <= i < |s| - 2
      ensures !Greater(greaterThan, s[1..][i], s[1..][i + 1])
    {
      assert s[1..][i] == s[i + 1] && s[1..][i + 1] == s[i + 2];
    }
  }

  /** `csl_t`: the list and its comparator. */
  class SortedList<T(!new)> {
    const list: List<T>
    const greaterThan: (T, T) -> int
    ghost var Repr: set<object>

    /**
     * The underlying list is valid and owned by this sorted list, and when
     * the comparator is asymmetric no adjacent pair is out of order.
     */
    ghost predicate Valid()
      reads this, Repr
      ensures Valid() ==> this in Repr
    {
      && this in Repr
      && list in Repr
      && list.Repr <= Repr
      && Repr == {this} + list.Repr
      && this !in list.Repr
      && list.Valid()
      && (Asymmetric(greaterThan) ==> AdjSorted(greaterThan, list.Contents))
    }

    /** The payloads, front to back. */
    ghost function Contents(): seq<T>
      reads this, list
    {
      list.Contents
    }

    constructor (greaterThan: (T, T) -> int)
      ensures Valid() && fresh(Repr)
      ensures Contents() == [] && this.greaterThan == greaterThan
    {
      this.greaterThan := greaterThan;
      list := new List<T>();
      new;
      Repr := {this} + list.Repr;
    }

    /** `csl_alloc`: no sorted list without a comparator. */
    static method Alloc(greaterThan: Option<(T, T) -> int>) returns (sl: SortedList?<T>)
      ensures sl == null <==> greaterThan.None?
      ensures sl != null ==>
                && sl.Valid() && fresh(sl.Repr)
                && sl.Contents() == [] && sl.greaterThan == greaterThan.value
    {
      match greaterThan
      case None =>
        sl := null;
      case Some(gt) =>
        sl := new SortedList(gt);
    }

    /** `csl_size`. */
    function Size(): (r: nat)
      requires Valid()
      reads this, Repr
      ensures r == |Contents()|
    {
      list.Size()
    }

    /** `csl_is_empty`: exactly when the size is zero. */
    function IsEmpty(): (r: bool)
      requires Valid()
      reads this, Repr
      ensures r <==> Size() == 0
      ensures r <==> Contents() == []
    {
      list.IsEmpty()
    }

    /** `csl_peek_front`: the front node, the least one when `FrontIsLeast` applies. */
    function PeekFront(): (r: Node?<T>)
      requires Valid()
      reads this, Repr
      ensures r == null <==> Contents() == []
      ensures r != null ==> r == list.Nodes[0] && r.data == Contents()[0]
    {
      list.PeekFront()
    }

    /** `csl_peek_back`: the back node, the greatest one when `BackIsGreatest` applies. */
    function PeekBack(): (r: Node?<T>)
      requires Valid()
      reads this, Repr
      ensures r == null <==> Contents() == []
      ensures r != null ==> r == list.Nodes[|list.Nodes| - 1] && r.data == Contents()[|Contents()| - 1]
    {
      list.PeekBack()
    }

    /**
     * With an asymmetric comparator whose "not greater" is transitive, the
     * front payload is greater than none of the payloads. Asymmetry alone is
     * not enough: a cyclic comparator keeps only adjacent pairs in order.
     */
    lemma FrontIsLeast()
      requires Valid() && Contents() != []
      requires Asymmetric(greaterThan) && NotGreaterTransitive(greaterThan)
      ensures forall i :: 0 <= i < |Contents()| ==> !Greater(greaterThan, Contents()[0], Contents()[i])
    {
      AdjSortedIsSorted(greaterThan, Contents());
    }

    /** Under the same conditions, the back payload is less than none of the payloads. */
    lemma BackIsGreatest()
      requires Valid() && Contents() != []
      requires Asymmetric(greaterThan) && NotGreaterTransitive(greaterThan)
      ensures forall i :: 0 <= i < |Contents()| ==> !Greater(greaterThan, Contents()[i], Contents()[|Contents()| - 1])
    {
      AdjSortedIsSorted(greaterThan, Contents());
    }

    /**
     * `csl_insert`: n goes in front of the first element greater than it;
     * an absent node changes nothing.
     */
    method Insert(n: Node?<T>)
      requires Valid() && (n != null ==> n !in Repr)
      modifies Repr, n
      ensures Valid()
      ensures n == null ==> list.Nodes == old(list.Nodes) && Contents() == old(Contents()) && Repr == old(Repr)
      ensures n != null ==>
                && Contents() == InsertSorted(greaterThan, old(Contents()), n.data)
                && list.Nodes == InsertAt(old(list.Nodes), InsertionPoint(greaterThan, old(Contents()), n.data), n)
                && multiset(Contents()) == multiset(old(Contents())) + multiset{n.data}
                && Repr == old(Repr) + {n}
      ensures Asymmetric(greaterThan) ==> AdjSorted(greaterThan, Contents())
    {
      if n == null {
        return;
      }
      ghost var before := list.Contents;
      list.InsertOrdered(greaterThan, n);
      Repr := {this} + list.Repr;
      InsertSortedPermutation(greaterThan, before, n.data);
      if Asymmetric(greaterThan) {
        InsertSortedKeepsOrder(greaterThan, before, n.data);
      }
    }

    /** `csl_insertd`: wraps data in a new node and inserts it in order. */
    method InsertData(data: T)
      requires Valid()
      modifies Repr
      ensures Valid()
      ensures Contents() == InsertSorted(greaterThan, old(Contents()), data)
      ensures multiset(Contents()) == multiset(old(Contents())) + multiset{data}
      ensures var k := InsertionPoint(greaterThan, old(Contents()), data);
              && k < |list.Nodes| && fresh(list.Nodes[k]) && list.Nodes[k].data == data
              && list.Nodes == InsertAt(old(list.Nodes), k, list.Nodes[k])
              && Repr == old(Repr) + {list.Nodes[k]}
      ensures Asymmetric(greaterThan) ==> AdjSorted(greaterThan, Contents())
    {
      var n := new Node(data);
      Insert(n);
    }

    /** `csl_pop_front`: detaches and returns the front node. */
    method PopFront() returns (n: Node?<T>)
      requires Valid()
      modifies Repr
      ensures Valid()
      ensures n == null <==> old(Contents()) == []
      ensures n == null ==> list.Nodes == old(list.Nodes) && Contents() == old(Contents()) && Repr == old(Repr)
      ensures n != null ==>
                && n == old(list.Nodes[0]) && list.Nodes == old(list.Nodes[1..])
                && n.data == old(Contents()[0]) && Contents() == old(Contents()[1..])
                && Repr == old(Repr) - {n} && n.next == null && n.prev == null
    {
      ghost var before := list.Contents;
      n := list.PopFront();
      Repr := {this} + list.Repr;
      if n != null && Asymmetric(greaterThan) {
        AdjSortedEnds(greaterThan, before);
      }
    }

    /** `csl_pop_back`: detaches and returns the back node. */
    method PopBack() returns (n: Node?<T>)
      requires Valid()
      modifies Repr
      ensures Valid()
      ensures n == null <==> old(Contents()) == []
      ensures n == null ==> list.Nodes == old(list.Nodes) && Contents() == old(Contents()) && Repr == old(Repr)
      ensures n != null ==>
                && n == old(list.Nodes[|list.Nodes| - 1]) && list.Nodes == old(list.Nodes[..|list.Nodes| - 1])
                && n.data == old(Contents()[|Contents()| - 1]) && Contents() == old(Contents()[..|Contents()| - 1])
                && Repr == old(Repr) - {n} && n.next == null && n.prev == null
    {
      ghost var before := list.Contents;
      n := list.PopBack();
      Repr := {this} + list.Repr;
      if n != null && Asymmetric(greaterThan) {
        AdjSortedEnds(greaterThan, before);
      }
    }

    /** `csl_popd_front`: removes the front node and hands back its payload. */
    method PopdFront() returns (d: Option<T>)
      requires Valid()
      modifies Repr
      ensures Valid()
      ensures d == (if old(Contents()) == [] then None else Some(old(Contents()[0])))
      ensures Contents() == (if old(Contents()) == [] then [] else old(Contents()[1..]))
      ensures list.Nodes == (if old(list.Nodes) == [] then [] else old(list.Nodes[1..]))
      ensures Repr == (if old(list.Nodes) == [] then old(Repr) else old(Repr) - {old(list.Nodes[0])})
    {
      var n := PopFront();
      d := if n == null then None else Some(n.data);
    }

    /** `csl_popd_back`: removes the back node and hands back its payload. */
    method PopdBack() returns (d: Option<T>)
      requires Valid()
      modifies Repr
      ensures Valid()
      ensures d == (if old(Contents()) == [] then None else Some(old(Contents()[|Contents()| - 1])))
      ensures Contents() == (if old(Contents()) == [] then [] else old(Contents()[..|Contents()| - 1]))
      ensures list.Nodes == (if old(list.Nodes) == [] then [] else old(list.Nodes[..|list.Nodes| - 1]))
      ensures Repr == (if old(list.Nodes) == [] then old(Repr) else old(Repr) - {old(list.Nodes[|list.Nodes| - 1])})
    {
      var n := PopBack();
      d := if n == null then None else Some(n.data);
    }

    /** `csl_find`: the first node, front to back, whose payload matches, or absent. */
    method Find(pred: T -> int) returns (r: Node?<T>)
      requires Valid()
      ensures r == null <==> forall i :: 0 <= i < |Contents()| ==> !Matches(pred, Contents()[i])
      ensures r != null ==> r in list.Nodes && Matches(pred, r.data)
      ensures var k := FirstMatch(pred, Contents());
              r == (if k < |list.Nodes| then list.Nodes[k] else null)
    {
      r := list.Find(pred);
      assert Contents() == list.Contents;
    }

    /** `csl_foreach`: the payloads handed to `use_data`, front to back. */
    method Foreach() returns (visited: seq<T>)
      requires Valid()
      ensures visited == Contents()
    {
      visited := list.Foreach();
    }

    /** `csl_destroy`: every node is removed and left detached. */
    method Destroy()
      requires Valid()
      modifies Repr
      ensures Valid() && list.Nodes == [] && Contents() == [] && Repr == {this, list}
      ensures forall j :: 0 <= j < |old(list.Nodes)| ==> old(list.Nodes)[j].next == null && old(list.Nodes)[j].prev == null
    {
      list.Destroy();
      Repr := {this} + list.Repr;
    }
  }
}
