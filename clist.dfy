/**
 * The intrusive doubly-linked list `cl_t` and its node `cl_node_t`.
 *
 * A node is an object holding an opaque payload and two non-owning links.
 * A list owns the nodes reachable from its front; its ghost state gives the
 * abstract view: `Nodes`, the nodes front to back, `Contents`, their payloads,
 * and `Repr`, the list object and exactly its member nodes. A popped node
 * leaves `Repr`, so the caller may push it onto another list.
 */
module CList {
  import opened Wrappers
  import opened ListSpec

  /** `cl_data`: the payload a node carries, whether or not it is in a list. */
  function Data<T>(n: Node<T>): T
  {
    n.data
  }

  /** `cl_node_t`: an opaque payload and the links to its neighbours. */
  class Node<T> {
    const data: T
    var next: Node?<T>
    var prev: Node?<T>

    /** `cl_alloc_node`: a free-standing node wrapping the payload. */
    constructor (data: T)
      ensures this.data == data && next == null && prev == null
    {
      this.data := data;
      next := null;
      prev := null;
    }

    /** Links this node in between the adjacent nodes p and e: the relink step of `SpliceBefore`. */
    method LinkBetween(p: Node<T>, e: Node<T>)
      requires p != this && e != this && p != e
      modifies this, p, e
      ensures prev == p && next == e && p.next == this && e.prev == this
      ensures p.prev == old(p.prev) && e.next == old(e.next)
    {
      prev, next := p, e;
      p.next, e.prev := this, this;
    }
  }

  ghost function NodeSet<T>(ns: seq<Node<T>>): set<object>
  {
    set n | n in ns
  }

  lemma NodeSetCons<T>(n: Node<T>, s: seq<Node<T>>)
    ensures NodeSet([n] + s) == {n} + NodeSet(s)
  {
    assert forall o :: o in [n] + s <==> o == n || o in s;
  }

  lemma NodeSetSnoc<T>(s: seq<Node<T>>, n: Node<T>)
    ensures NodeSet(s + [n]) == NodeSet(s) + {n}
  {
    assert forall o :: o in s + [n] <==> o in s || o == n;
  }

  lemma NodeSetTail<T>(s: seq<Node<T>>)
    requires s != [] && Distinct(s)
    ensures NodeSet(s[1..]) == NodeSet(s) - {s[0]}
  {
    assert s == [s[0]] + s[1..];
    assert s[0] !in s[1..];
    NodeSetCons(s[0], s[1..]);
  }

  lemma NodeSetInit<T>(s: seq<Node<T>>)
    requires s != [] && Distinct(s)
    ensures NodeSet(s[..|s| - 1]) == NodeSet(s) - {s[|s| - 1]}
  {
    assert s == s[..|s| - 1] + [s[|s| - 1]];
    assert s[|s| - 1] !in s[..|s| - 1];
    NodeSetSnoc(s[..|s| - 1], s[|s| - 1]);
  }

  lemma NodeSetInsert<T>(s: seq<Node<T>>, k: nat, n: Node<T>)
    requires k <= |s|
    ensures NodeSet(InsertAt(s, k, n)) == NodeSet(s) + {n}
  {
    InsertAtSlices(s, k, n);
    assert s == s[..k] + s[k..];
    assert forall o :: o in s[..k] + [n] + s[k..] <==> o in s[..k] || o == n || o in s[k..];
  }

  /** The links of a chain once n is linked in between its positions k - 1 and k. */
  lemma LinkedAfterSplice<T>(s: seq<Node<T>>, k: nat, n: Node<T>)
    requires 0 < k < |s|
    requires forall j :: 0 <= j < |s| - 1 && j != k - 1 ==> s[j].next == s[j + 1] && s[j + 1].prev == s[j]
    requires s[k - 1].next == n && n.prev == s[k - 1] && n.next == s[k] && s[k].prev == n
    ensures var r := InsertAt(s, k, n);
            forall i :: 0 <= i < |r| - 1 ==> r[i].next == r[i + 1] && r[i + 1].prev == r[i]
  {
    var r := InsertAt(s, k, n);
    forall i | 0 <= i < |r| - 1
      ensures r[i].next == r[i + 1] && r[i + 1].prev == r[i]
    {
      if i < k - 1 {
        assert r[i] == s[i] && r[i + 1] == s[i + 1];
      } else if i == k - 1 {
        assert r[i] == s[k - 1] && r[i + 1] == n;
      } else if i == k {
        assert r[i] == n && r[i + 1] == s[k];
      } else {
        assert r[i] == s[i - 1] && r[i + 1] == s[i];
      }
    }
  }

  /** The heap-independent facts about a chain with n inserted at position k. */
  lemma InsertAtShape<T>(s: seq<Node<T>>, c: seq<T>, k: nat, n: Node<T>)
    requires k <= |s| && |s| == |c| && Distinct(s) && n !in s
    requires forall i :: 0 <= i < |s| ==> s[i].data == c[i]
    ensures var r := InsertAt(s, k, n);
            var rc := InsertAt(c, k, n.data);
            && Distinct(r)
            && NodeSet(r) == NodeSet(s) + {n}
            && (forall i :: 0 <= i < |r| ==> r[i].data == rc[i])
  {
    InsertAtDistinct(s, k, n);
    NodeSetInsert(s, k, n);
  }

  /** `cl_t`: front, back and count over a chain of nodes. */
  class List<T(!new)> {
    var front: Node?<T>
    var back: Node?<T>
    var count: nat

    ghost var Nodes: seq<Node<T>>
    ghost var Contents: seq<T>
    ghost var Repr: set<object>

    /**
     * The list invariant: the count is the chain length, the front has no
     * previous node, the back has no next node, and between them `next` and
     * `prev` are mutual inverses following the order of `Nodes`.
     */
    ghost predicate Valid()
      reads this, Repr
      ensures Valid() ==> this in Repr
    {
      && this in Repr
      && Repr == {this} + NodeSet(Nodes)
      && count == |Nodes| == |Contents|
      && Distinct(Nodes)
      && front == (if Nodes == [] then null else Nodes[0])
      && back == (if Nodes == [] then null else Nodes[|Nodes| - 1])
      && (forall i :: 0 <= i < |Nodes| ==> Nodes[i].data == Contents[i])
      && (Nodes != [] ==> Nodes[0].prev == null && Nodes[|Nodes| - 1].next == null)
      && (forall i :: 0 <= i < |Nodes| - 1 ==> Nodes[i].next == Nodes[i + 1] && Nodes[i + 1].prev == Nodes[i])
    }

    /** `cl_alloc`: an empty list. */
    constructor ()
      ensures Valid() && fresh(Repr - {this})
      ensures Nodes == [] && Contents == [] && Repr == {this}
    {
      front, back, count := null, null, 0;
      Nodes, Contents := [], [];
      Repr := {this};
    }

    /** `cl_size`. */
    function Size(): (r: nat)
      requires Valid()
      reads this, Repr
      ensures r == |Contents| == |Nodes|
    {
      count
    }

    /** `cl_is_empty`: exactly when the size is zero. */
    function IsEmpty(): (r: bool)
      requires Valid()
      reads this, Repr
      ensures r <==> Size() == 0
      ensures r <==> Contents == []
    {
      count == 0
    }

    /** `cl_peek_front`. */
    function PeekFront(): (r: Node?<T>)
      requires Valid()
      reads this, Repr
      ensures r == null <==> Contents == []
      ensures r != null ==> r == Nodes[0] && r.data == Contents[0]
    {
      front
    }

    /** `cl_peek_back`. */
    function PeekBack(): (r: Node?<T>)
      requires Valid()
      reads this, Repr
      ensures r == null <==> Contents == []
      ensures r != null ==> r == Nodes[|Nodes| - 1] && r.data == Contents[|Contents| - 1]
    {
      back
    }

    /** The front is the one member without a previous node, the back the one without a next node. */
    lemma EndsAreUnique(n: Node<T>)
      requires Valid() && n in Nodes
      ensures n.next == null <==> n == back
      ensures n.prev == null <==> n == front
      ensures forall i :: 0 <= i < |Nodes| && Nodes[i] == n ==>
                && n.next == (if i + 1 < |Nodes| then Nodes[i + 1] else null)
                && n.prev == (if 0 < i then Nodes[i - 1] else null)
    {
      forall i | 0 <= i < |Nodes| && Nodes[i] == n
        ensures n.next == (if i + 1 < |Nodes| then Nodes[i + 1] else null)
        ensures n.prev == (if 0 < i then Nodes[i - 1] else null)
        ensures n.next == null <==> n == back
        ensures n.prev == null <==> n == front
      {
        if i + 1 < |Nodes| {
          assert Nodes[i].next == Nodes[i + 1];
          assert Nodes[i] != Nodes[|Nodes| - 1];
        }
        if 0 < i {
          assert Nodes[i - 1].next == Nodes[i];
          assert Nodes[0] != Nodes[i];
        }
      }
    }

    /** `cl_next`: the following node, absent exactly for the back. */
    function Next(n: Node<T>): (r: Node?<T>)
      requires Valid() && n in Nodes
      reads this, Repr
      ensures r == null <==> n == back
      ensures forall i :: 0 <= i < |Nodes| && Nodes[i] == n ==>
                r == (if i + 1 < |Nodes| then Nodes[i + 1] else null)
    {
      EndsAreUnique(n);
      n.next
    }

    /** `cl_prev`: the preceding node, absent exactly for the front. */
    function Prev(n: Node<T>): (r: Node?<T>)
      requires Valid() && n in Nodes
      reads this, Repr
      ensures r == null <==> n == front
      ensures forall i :: 0 <= i < |Nodes| && Nodes[i] == n ==>
                r == (if 0 < i then Nodes[i - 1] else null)
    {
      EndsAreUnique(n);
      n.prev
    }

    /** `cl_next` and `cl_prev` undo each other on every member that has the neighbour in question. */
    lemma NextPrevInverse(n: Node<T>)
      requires Valid() && n in Nodes
      ensures n != back ==> Next(n) != null && Next(n) in Nodes && Prev(Next(n)) == n
      ensures n != front ==> Prev(n) != null && Prev(n) in Nodes && Next(Prev(n)) == n
    {
      var i :| 0 <= i < |Nodes| && Nodes[i] == n;
      EndsAreUnique(n);
      if i + 1 < |Nodes| {
        EndsAreUnique(Nodes[i + 1]);
      }
      if 0 < i {
        EndsAreUnique(Nodes[i - 1]);
      }
    }

    /** The payload `cl_data` reads off a member node is the one at its position. */
    lemma DataAtPosition(n: Node<T>)
      requires Valid() && n in Nodes
      ensures exists i :: 0 <= i < |Nodes| && Nodes[i] == n && Data(n) == Contents[i]
      ensures forall i :: 0 <= i < |Nodes| && Nodes[i] == n ==> Data(n) == Contents[i]
    {
    }

    /** `cl_push_front`: n becomes the front (and the back if the list was empty). */
    method PushFront(n: Node<T>)
      requires Valid() && n !in Repr
      modifies Repr, n
      ensures Valid()
      ensures Nodes == [n] + old(Nodes) && Contents == [n.data] + old(Contents)
      ensures old(Nodes) == [] ==> front == n && back == n
      ensures Repr == old(Repr) + {n}
    {
      ghost var s := Nodes;
      assert forall j :: 0 <= j < |s| ==> s[j] != n;
      n.prev := null;
      n.next := front;
      if front == null {
        back := n;
      } else {
        front.prev := n;
      }
      front := n;
      count := count + 1;
      Nodes := [n] + Nodes;
      Contents := [n.data] + Contents;
      Repr := Repr + {n};
      NodeSetCons(n, s);
      forall i | 0 < i < |Nodes| - 1
        ensures Nodes[i].next == Nodes[i + 1] && Nodes[i + 1].prev == Nodes[i]
      {
        assert Nodes[i] == s[i - 1] && Nodes[i + 1] == s[i];
        assert old(s[i - 1].next) == s[i] && old(s[i].prev) == s[i - 1];
        assert s[i] != s[0];
      }
    }

    /** `cl_push_back`: n becomes the back (and the front if the list was empty). */
    method PushBack(n: Node<T>)
      requires Valid() && n !in Repr
      modifies Repr, n
      ensures Valid()
      ensures Nodes == old(Nodes) + [n] && Contents == old(Contents) + [n.data]
      ensures old(Nodes) == [] ==> front == n && back == n
      ensures Repr == old(Repr) + {n}
    {
      ghost var s := Nodes;
      assert forall j :: 0 <= j < |s| ==> s[j] != n;
      n.next := null;
      n.prev := back;
      if back == null {
        front := n;
      } else {
        back.next := n;
      }
      back := n;
      count := count + 1;
      Nodes := Nodes + [n];
      Contents := Contents + [n.data];
      Repr := Repr + {n};
      NodeSetSnoc(s, n);
      forall i | 0 <= i < |Nodes| - 2
        ensures Nodes[i].next == Nodes[i + 1] && Nodes[i + 1].prev == Nodes[i]
      {
        assert Nodes[i] == s[i] && Nodes[i + 1] == s[i + 1];
        assert old(s[i].next) == s[i + 1] && old(s[i + 1].prev) == s[i];
        assert s[i] != s[|s| - 1];
      }
    }

    /** `cl_empl_front`: wraps data in a new node and pushes it at the front. */
    method EmplFront(data: T)
      requires Valid()
      modifies Repr
      ensures Valid()
      ensures Contents == [data] + old(Contents)
      ensures fresh(Nodes[0]) && Nodes[1..] == old(Nodes)
      ensures Repr == old(Repr) + {Nodes[0]}
    {
      var n := new Node(data);
      PushFront(n);
    }

    /** `cl_empl_back`: wraps data in a new node and pushes it at the back. */
    method EmplBack(data: T)
      requires Valid()
      modifies Repr
      ensures Valid()
      ensures Contents == old(Contents) + [data]
      ensures fresh(Nodes[|Nodes| - 1]) && Nodes[..|Nodes| - 1] == old(Nodes)
      ensures Repr == old(Repr) + {Nodes[|Nodes| - 1]}
    {
      var n := new Node(data);
      PushBack(n);
    }

    /**
     * `cl_pop_front`: detaches and returns the front node; absent, with no
     * change, when the list is empty.
     */
    method PopFront() returns (n: Node?<T>)
      requires Valid()
      modifies Repr
      ensures Valid()
      ensures n == null <==> old(Contents) == []
      ensures n == null ==> Nodes == old(Nodes) && Contents == old(Contents) && Repr == old(Repr)
      ensures n != null ==>
                && n == old(Nodes[0]) && n.data == old(Contents[0])
                && Nodes == old(Nodes[1..]) && Contents == old(Contents[1..])
                && Repr == old(Repr) - {n}
                && n.next == null && n.prev == null
    {
      n := front;
      if n == null {
        return;
      }
      ghost var s := Nodes;
      assert |s| > 1 ==> s[0].next == s[1] && s[1].prev == s[0] && s[1] in Repr;
      front := n.next;
      if front == null {
        back := null;
      } else {
        front.prev := null;
      }
      n.next := null;
      count := count - 1;
      Nodes := Nodes[1..];
      Contents := Contents[1..];
      Repr := Repr - {n};
      NodeSetTail(s);
      assert |s| > 1 ==> old(s[0].next) == s[1] && s[1] != s[0];
      forall i | 0 <= i < |Nodes| - 1
        ensures Nodes[i].next == Nodes[i + 1] && Nodes[i + 1].prev == Nodes[i]
      {
        assert Nodes[i] == s[i + 1] && Nodes[i + 1] == s[i + 2];
        assert old(s[i + 1].next) == s[i + 2] && old(s[i + 2].prev) == s[i + 1];
        assert s[i + 1] != s[0] && s[i + 2] != s[0] && s[i + 2] != s[1];
      }
      assert Nodes != [] ==> Nodes[|Nodes| - 1] == s[|s| - 1] && s[|s| - 1] != s[0];
    }

    /**
     * `cl_pop_back`: detaches and returns the back node; absent, with no
     * change, when the list is empty.
     */
    method PopBack() returns (n: Node?<T>)
      requires Valid()
      modifies Repr
      ensures Valid()
      ensures n == null <==> old(Contents) == []
      ensures n == null ==> Nodes == old(Nodes) && Contents == old(Contents) && Repr == old(Repr)
      ensures n != null ==>
                && n == old(Nodes[|Nodes| - 1]) && n.data == old(Contents[|Contents| - 1])
                && Nodes == old(Nodes[..|Nodes| - 1]) && Contents == old(Contents[..|Contents| - 1])
                && Repr == old(Repr) - {n}
                && n.next == null && n.prev == null
    {
      n := back;
      if n == null {
        return;
      }
      ghost var s := Nodes;
      ghost var last := |s| - 1;
      assert |s| > 1 ==> s[last - 1].next == s[last] && s[last].prev == s[last - 1] && s[last - 1] in Repr;
      back := n.prev;
      if back == null {
        front := null;
      } else {
        back.next := null;
      }
      n.prev := null;
      count := count - 1;
      Nodes := Nodes[..last];
      Contents := Contents[..last];
      Repr := Repr - {n};
      NodeSetInit(s);
      assert |s| > 1 ==> old(s[last - 1].next) == s[last] && old(s[last].prev) == s[last - 1] && s[last - 1] != s[last];
      forall i | 0 <= i < |Nodes| - 1
        ensures Nodes[i].next == Nodes[i + 1] && Nodes[i + 1].prev == Nodes[i]
      {
        assert Nodes[i] == s[i] && Nodes[i + 1] == s[i + 1];
        assert old(s[i].next) == s[i + 1] && old(s[i + 1].prev) == s[i];
        assert s[i] != s[last] && s[i] != s[last - 1] && s[i + 1] != s[last];
      }
      assert Nodes != [] ==> Nodes[0] == s[0] && s[0] != s[last];
    }

    /** `cl_popd_front`: removes the front node and hands back its payload. */
    method PopdFront() returns (d: Option<T>)
      requires Valid()
      modifies Repr
      ensures Valid()
      ensures d == (if old(Contents) == [] then None else Some(old(Contents[0])))
      ensures Contents == (if old(Contents) == [] then [] else old(Contents[1..]))
      ensures Nodes == (if old(Nodes) == [] then [] else old(Nodes[1..]))
      ensures Repr == (if old(Contents) == [] then old(Repr) else old(Repr) - {old(Nodes[0])})
    {
      var n := PopFront();
      d := if n == null then None else Some(n.data);
    }

    /** `cl_popd_back`: removes the back node and hands back its payload. */
    method PopdBack() returns (d: Option<T>)
      requires Valid()
      modifies Repr
      ensures Valid()
      ensures d == (if old(Contents) == [] then None else Some(old(Contents[|Contents| - 1])))
      ensures Contents == (if old(Contents) == [] then [] else old(Contents[..|Contents| - 1]))
      ensures Nodes == (if old(Nodes) == [] then [] else old(Nodes[..|Nodes| - 1]))
      ensures Repr == (if old(Contents) == [] then old(Repr) else old(Repr) - {old(Nodes[|Nodes| - 1])})
    {
      var n := PopBack();
      d := if n == null then None else Some(n.data);
    }

    /**
     * `cl_foreach`: the payloads handed to `use_data`, in the order it
     * receives them; walking `next` from the front visits exactly `Size()` nodes.
     */
    method Foreach() returns (visited: seq<T>)
      requires Valid()
      ensures visited == Contents
      ensures |visited| == Size()
    {
      visited := [];
      var cur := front;
      ghost var i := 0;
      while cur != null
        invariant 0 <= i <= |Nodes|
        invariant cur == (if i < |Nodes| then Nodes[i] else null)
        invariant visited == Contents[..i]
        decreases |Nodes| - i
      {
        visited := visited + [cur.data];
        cur := cur.next;
        i := i + 1;
      }
    }

    /** `cl_find`: the first node front to back whose payload matches, or absent. */
    method Find(pred: T -> int) returns (r: Node?<T>)
      requires Valid()
      ensures r == null <==> forall i :: 0 <= i < |Contents| ==> !Matches(pred, Contents[i])
      ensures r != null ==> r in Nodes && Matches(pred, r.data)
      ensures var k := FirstMatch(pred, Contents);
              r == (if k < |Nodes| then Nodes[k] else null)
    {
      r := front;
      ghost var i := 0;
      while r != null && !Matches(pred, r.data)
        invariant 0 <= i <= |Nodes|
        invariant r == (if i < |Nodes| then Nodes[i] else null)
        invariant forall j :: 0 <= j < i ==> !Matches(pred, Contents[j])
        decreases |Nodes| - i
      {
        r := r.next;
        i := i + 1;
      }
      assert i == FirstMatch(pred, Contents);
    }

    /** Attaches n just before e, the node at position k (e absent meaning after the back). */
    method InsertBefore(n: Node<T>, e: Node?<T>, ghost k: nat)
      requires Valid() && n !in Repr
      requires k <= |Nodes| && e == (if k < |Nodes| then Nodes[k] else null)
      modifies Repr, n
      ensures Valid()
      ensures Nodes == InsertAt(old(Nodes), k, n)
      ensures Contents == InsertAt(old(Contents), k, n.data)
      ensures Repr == old(Repr) + {n}
    {
      ghost var s := Nodes;
      ghost var c := Contents;
      if e != null {
        EndsAreUnique(e);
      }
      if e == null {
        PushBack(n);
        assert InsertAt(s, k, n) == s + [n];
        assert InsertAt(c, k, n.data) == c + [n.data];
      } else if e == front {
        PushFront(n);
        assert InsertAt(s, k, n) == [n] + s;
        assert InsertAt(c, k, n.data) == [n.data] + c;
      } else {
        assert k > 0 && k < |s|;
        SpliceBefore(n, e, k);
      }
    }

    /** Links n between the nodes at positions k - 1 and k. */
    method SpliceBefore(n: Node<T>, e: Node<T>, ghost k: nat)
      requires Valid() && n !in Repr
      requires 0 < k < |Nodes| && e == Nodes[k]
      modifies Repr, n
      ensures Valid()
      ensures Nodes == InsertAt(old(Nodes), k, n)
      ensures Contents == InsertAt(old(Contents), k, n.data)
      ensures Repr == old(Repr) + {n}
    {
      ghost var s := Nodes;
      ghost var c := Contents;
      ghost var r := InsertAt(s, k, n);
      assert n !in s;
      InsertAtShape(s, c, k, n);
      assert r[0] == s[0] && r[|r| - 1] == s[|s| - 1];
      assert s[0] != s[k] && s[|s| - 1] != s[k - 1];
      assert s[k - 1].next == s[k] && s[k].prev == s[k - 1];
      var p := e.prev;
      n.LinkBetween(p, e);
      count, Nodes, Contents, Repr := count + 1, r, InsertAt(c, k, n.data), Repr + {n};
      forall j | 0 <= j < |s| - 1 && j != k - 1
        ensures s[j].next == s[j + 1] && s[j + 1].prev == s[j]
      {
        assert old(s[j].next) == s[j + 1] && old(s[j + 1].prev) == s[j];
        assert s[j] != s[k - 1] && s[j + 1] != s[k];
      }
      LinkedAfterSplice(s, k, n);
    }

    /**
     * Attaches n before the first node whose payload is greater than n's,
     * or at the back when there is none; the shared step of `csl_insert`
     * and `cl_sort`.
     */
    method InsertOrdered(greaterThan: (T, T) -> int, n: Node<T>)
      requires Valid() && n !in Repr
      modifies Repr, n
      ensures Valid()
      ensures Contents == InsertSorted(greaterThan, old(Contents), n.data)
      ensures Nodes == InsertAt(old(Nodes), InsertionPoint(greaterThan, old(Contents), n.data), n)
      ensures Repr == old(Repr) + {n}
    {
      var cur := front;
      ghost var i := 0;
      while cur != null && !Greater(greaterThan, cur.data, n.data)
        invariant 0 <= i <= |Nodes|
        invariant cur == (if i < |Nodes| then Nodes[i] else null)
        invariant forall j :: 0 <= j < i ==> !Greater(greaterThan, Contents[j], n.data)
        decreases |Nodes| - i
      {
        cur := cur.next;
        i := i + 1;
      }
      assert i == InsertionPoint(greaterThan, Contents, n.data);
      InsertBefore(n, cur, i);
    }

    /** One step of `cl_sort`: moves the front node of this list into dest at its sorted place. */
    method MoveFrontOrdered(greaterThan: (T, T) -> int, dest: List<T>)
      requires Valid() && dest.Valid() && Nodes != []
      requires Repr !! dest.Repr
      modifies Repr, dest.Repr
      ensures Valid() && dest.Valid()
      ensures Nodes == old(Nodes[1..]) && Contents == old(Contents[1..])
      ensures dest.Contents == InsertSorted(greaterThan, old(dest.Contents), old(Contents[0]))
      ensures multiset(dest.Nodes) == old(multiset(dest.Nodes)) + multiset{old(Nodes[0])}
      ensures Repr == old(Repr) - {old(Nodes[0])}
      ensures dest.Repr == old(dest.Repr) + {old(Nodes[0])}
    {
      var n := PopFront();
      ghost var before := dest.Nodes;
      ghost var k := InsertionPoint(greaterThan, dest.Contents, n.data);
      dest.InsertOrdered(greaterThan, n);
      assert dest.Nodes == InsertAt(before, k, n);
      InsertAtMultiset(before, k, n);
      assert multiset(dest.Nodes) == multiset(before) + multiset{n};
    }

    /** The loop body of `cl_sort`, stated as what it preserves. */
    method SortStep(greaterThan: (T, T) -> int, sorted: List<T>)
      requires Valid() && sorted.Valid() && Nodes != []
      requires Repr !! sorted.Repr
      modifies Repr, sorted.Repr
      ensures Valid() && sorted.Valid() && Repr !! sorted.Repr
      ensures |Nodes| < old(|Nodes|) && Repr <= old(Repr)
      ensures (Repr - {this}) + (sorted.Repr - {sorted}) == old((Repr - {this}) + (sorted.Repr - {sorted}))
      ensures InsertAll(greaterThan, sorted.Contents, Contents) == old(InsertAll(greaterThan, sorted.Contents, Contents))
      ensures multiset(sorted.Nodes) + multiset(Nodes) == old(multiset(sorted.Nodes) + multiset(Nodes))
    {
      ghost var rest := Nodes;
      MoveFrontOrdered(greaterThan, sorted);
      assert rest == [rest[0]] + Nodes;
    }

    /**
     * `cl_sort`: re-splices the nodes into insertion-sorted order. The list
     * keeps the same nodes and payloads; for an asymmetric comparator no
     * adjacent pair is out of order.
     */
    method Sort(greaterThan: (T, T) -> int)
      requires Valid()
      modifies Repr
      ensures Valid() && Repr == old(Repr)
      ensures Contents == SortedBy(greaterThan, old(Contents))
      ensures multiset(Nodes) == multiset(old(Nodes))
      ensures multiset(Contents) == multiset(old(Contents))
      ensures Asymmetric(greaterThan) ==> AdjSorted(greaterThan, Contents)
    {
      var sorted := new List<T>();
      while front != null
        invariant Valid() && sorted.Valid() && fresh(sorted)
        invariant Repr <= old(Repr) && Repr !! sorted.Repr
        invariant (Repr - {this}) + (sorted.Repr - {sorted}) == old(Repr) - {this}
        invariant InsertAll(greaterThan, sorted.Contents, Contents) == SortedBy(greaterThan, old(Contents))
        invariant multiset(sorted.Nodes) + multiset(Nodes) == multiset(old(Nodes))
        decreases |Nodes|
      {
        SortStep(greaterThan, sorted);
      }
      TakeChain(sorted);
      SortedBySortsAndPermutes(greaterThan, old(Contents));
    }

    /** The last step of `cl_sort`: this empty list takes over the chain of src. */
    method TakeChain(src: List<T>)
      requires Valid() && Nodes == [] && src.Valid() && Repr !! src.Repr
      modifies this
      ensures Valid()
      ensures Nodes == src.Nodes && Contents == src.Contents
      ensures Repr == old(Repr) + (src.Repr - {src})
    {
      front, back, count := src.front, src.back, src.count;
      Nodes, Contents := src.Nodes, src.Contents;
      Repr := Repr + (src.Repr - {src});
    }

    /**
     * `cl_destroy`: every node is removed and left detached; the payloads
     * are not inspected.
     */
    method Destroy()
      requires Valid()
      modifies Repr
      ensures Valid() && Nodes == [] && Contents == [] && Repr == {this}
      ensures forall j :: 0 <= j < |old(Nodes)| ==> old(Nodes)[j].next == null && old(Nodes)[j].prev == null
    {
      ghost var gone := 0;
      while front != null
        invariant Valid() && Repr <= old(Repr)
        invariant 0 <= gone <= |old(Nodes)| && Nodes == old(Nodes)[gone..]
        invariant forall j :: 0 <= j < gone ==> old(Nodes)[j].next == null && old(Nodes)[j].prev == null
        invariant forall j :: 0 <= j < gone ==> old(Nodes)[j] !in Repr
        decreases |Nodes|
      {
        assert old(Nodes)[gone..][1..] == old(Nodes)[gone + 1..];
        var n := PopFront();
        gone := gone + 1;
      }
    }
  }
}
