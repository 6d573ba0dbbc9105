/** The lock nodes, and the binary heap that orders them by expiry. A node knows its own
    position in the heap, so that it can be removed from the middle. */
module ExpiryHeap {
  import opened LockTable
  import opened LockTree

  class Node {
    var details: LockDetails
    var token: string
    var refCount: int
    var expiry: int
    var byExpiryIndex: int
    var held: bool

    /** An interior node of the path tree: named, but not locked. */
    constructor (name: string)
      ensures Val() == Interior(name) && byExpiryIndex == -1
    {
      details := LockDetails(name, 0, "", false);
      token, refCount, expiry, byExpiryIndex, held := "", 0, 0, -1, false;
    }

    /** All of the node's fields but its place in the heap. */
    function Val(): NodeVal
      reads this
    {
      NodeVal(details, token, refCount, expiry, held)
    }
  }

  // -------------------------------------------------------- heap order, on the expiries alone

  predicate IsParent(p: nat, k: nat) {
    k == 2 * p + 1 || k == 2 * p + 2
  }

  function Exchange(e: seq<int>, i: nat, j: nat): (r: seq<int>)
    requires i < |e| && j < |e|
  {
    e[i := e[j]][j := e[i]]
  }

  /** Among the first n, nothing expires before its parent. */
  ghost predicate Ordered(e: seq<int>, n: nat)
    requires n <= |e|
  {
    forall p: nat, k: nat {:trigger e[p], e[k]} :: k < n && IsParent(p, k) ==> e[p] <= e[k]
  }

  /** Order among the first n, except perhaps between i and its parent or children. */
  ghost predicate OrderedAround(e: seq<int>, i: nat, n: nat)
    requires n <= |e|
  {
    && (forall p: nat, k: nat {:trigger e[p], e[k]} :: k < n && IsParent(p, k) && p != i && k != i ==> e[p] <= e[k])
    && (forall p: nat, k: nat {:trigger e[p], e[k]} :: k < n && IsParent(p, i) && IsParent(i, k) ==> e[p] <= e[k])
  }

  ghost predicate ParentEarlier(e: seq<int>, i: nat)
    requires i < |e|
  {
    forall p: nat {:trigger e[p]} :: IsParent(p, i) ==> e[p] <= e[i]
  }

  ghost predicate ChildrenLater(e: seq<int>, i: nat, n: nat)
    requires i < n <= |e|
  {
    forall k: nat {:trigger e[k]} :: k < n && IsParent(i, k) ==> e[i] <= e[k]
  }

  lemma UpStep(e: seq<int>, i: nat, j: nat, n: nat)
    requires j < n <= |e| && IsParent(i, j) && OrderedAround(e, j, n) && ChildrenLater(e, j, n) && e[j] < e[i]
    ensures OrderedAround(Exchange(e, i, j), i, n) && ChildrenLater(Exchange(e, i, j), i, n)
  {
    var r := Exchange(e, i, j);
    forall p: nat, k: nat {:trigger r[p], r[k]} | k < n && IsParent(p, k) && p != i && k != i
      ensures r[p] <= r[k]
    {
      assert p == j ==> e[i] <= e[k];
      assert p != j && k != j ==> e[p] <= e[k];
    }
  }

  lemma DownStep(e: seq<int>, i: nat, j: nat, n: nat)
    requires j < n <= |e| && IsParent(i, j) && OrderedAround(e, i, n) && e[j] < e[i]
    requires forall k: nat {:trigger e[k]} :: k < n && IsParent(i, k) ==> e[j] <= e[k]
    ensures OrderedAround(Exchange(e, i, j), j, n) && ParentEarlier(Exchange(e, i, j), j)
  {
    var r := Exchange(e, i, j);
    forall p: nat, k: nat {:trigger r[p], r[k]} | k < n && IsParent(p, k) && p != j && k != j
      ensures r[p] <= r[k]
    {
      assert k == i ==> e[p] <= e[j];
      assert p != i && k != i ==> e[p] <= e[k];
    }
  }

  /** With both sides of i in order, the whole is. */
  lemma Settled(e: seq<int>, i: nat, n: nat)
    requires i < n <= |e| && OrderedAround(e, i, n) && ParentEarlier(e, i) && ChildrenLater(e, i, n)
    ensures Ordered(e, n)
  {
  }

  /** Putting the last element at position i breaks order only around i. */
  lemma MoveLast(e: seq<int>, i: nat, n: nat)
    requires Ordered(e, |e|) && i < n == |e| - 1
    ensures OrderedAround(Exchange(e, i, n), i, n)
  {
    var r := Exchange(e, i, n);
    forall p: nat, k: nat {:trigger r[p], r[k]} | k < n && IsParent(p, i) && IsParent(i, k)
      ensures r[p] <= r[k]
    {
      assert e[p] <= e[i] <= e[k];
    }
  }

  lemma AddLast(e: seq<int>, x: int)
    requires Ordered(e, |e|)
    ensures OrderedAround(e + [x], |e|, |e| + 1) && ChildrenLater(e + [x], |e|, |e| + 1)
  {
    var r := e + [x];
    forall p: nat, k: nat {:trigger r[p], r[k]} | k < |r| && IsParent(p, k) && p != |e| && k != |e|
      ensures r[p] <= r[k]
    {
      assert e[p] <= e[k];
    }
  }

  lemma StillOrdered(e: seq<int>, n: nat)
    requires n <= |e| && Ordered(e, |e|)
    ensures Ordered(e, n)
  {
  }

  lemma DropLast(e: seq<int>, n: nat)
    requires n <= |e| && Ordered(e, n)
    ensures Ordered(e[..n], n)
  {
    var r := e[..n];
    forall p: nat, k: nat {:trigger r[p], r[k]} | k < n && IsParent(p, k)
      ensures r[p] <= r[k]
    {
      assert e[p] <= e[k];
    }
  }

  /** The first of an ordered heap is one that expires soonest. */
  lemma {:induction false} RootIsSoonest(e: seq<int>, i: nat)
    requires Ordered(e, |e|) && i < |e|
    ensures e[0] <= e[i]
  {
    if i == 0 {
    } else {
      var p := (i - 1) / 2;
      assert IsParent(p, i);
      RootIsSoonest(e, p);
    }
  }

  class Heap {
    var nodes: seq<Node>

    constructor ()
      ensures nodes == []
    {
      nodes := [];
    }

    /** Every node's index is its true position; in particular no node occurs twice. */
    ghost predicate Indexed()
      reads this, nodes`byExpiryIndex
    {
      forall i :: 0 <= i < |nodes| ==> nodes[i].byExpiryIndex == i
    }

    ghost function Expiries(): seq<int>
      reads this, nodes
    {
      seq(|nodes|, i reads this, nodes requires 0 <= i < |nodes| => nodes[i].expiry)
    }

    ghost function Members(): set<Node>
      reads this
    {
      set n | n in nodes
    }

    ghost predicate Valid()
      reads this, nodes
    {
      Indexed() && Ordered(Expiries(), |nodes|)
    }

    // ------------------------------------------------------ heap.Interface

    predicate Less(i: nat, j: nat)
      requires i < |nodes| && j < |nodes|
      reads this, nodes
    {
      nodes[i].expiry < nodes[j].expiry
    }

    /** The child of i that expires first, the left one when neither does. */
    function EarlierChild(i: nat, n: nat): (j: nat)
      requires 2 * i + 1 < n <= |nodes|
      reads this, nodes
      ensures j < n && IsParent(i, j)
      ensures forall k: nat {:trigger Expiries()[k]} :: k < n && IsParent(i, k) ==> Expiries()[j] <= Expiries()[k]
    {
      var j1 := 2 * i + 1;
      if j1 + 1 < n && Less(j1 + 1, j1) then j1 + 1 else j1
    }

    method Swap(i: nat, j: nat)
      requires Indexed() && i < |nodes| && j < |nodes|
      modifies this, Members()`byExpiryIndex
      ensures Indexed() && Members() == old(Members()) && |nodes| == old(|nodes|)
      ensures Expiries() == Exchange(old(Expiries()), i, j)
      ensures nodes[i] == old(nodes[j]) && nodes[j] == old(nodes[i])
      ensures forall k :: 0 <= k < |nodes| && k != i && k != j ==> nodes[k] == old(nodes[k])
    {
      nodes := nodes[i := nodes[j]][j := nodes[i]];
      nodes[i].byExpiryIndex := i;
      nodes[j].byExpiryIndex := j;
      forall x | x in old(nodes)
        ensures x in nodes
      {
        var k :| 0 <= k < |nodes| && old(nodes)[k] == x;
        assert nodes[if k == i then j else if k == j then i else k] == x;
      }
    }

    method PushLast(n: Node)
      requires Indexed() && n !in nodes
      modifies this, n`byExpiryIndex
      ensures nodes == old(nodes) + [n] && Indexed()
      ensures Expiries() == old(Expiries()) + [n.expiry]
    {
      n.byExpiryIndex := |nodes|;
      nodes := nodes + [n];
    }

    method PopLast() returns (n: Node)
      requires Indexed() && |nodes| > 0
      modifies this, Members()`byExpiryIndex
      ensures n == old(nodes[|nodes| - 1]) && nodes == old(nodes[..|nodes| - 1])
      ensures n !in nodes && n.byExpiryIndex == -1 && Indexed()
      ensures Expiries() == old(Expiries())[..|nodes|]
    {
      var i := |nodes| - 1;
      n := nodes[i];
      assert n !in nodes[..i] by {
        assert n.byExpiryIndex == i;
      }
      n.byExpiryIndex := -1;
      nodes := nodes[..i];
    }

    // ------------------------------------------------------ container/heap

    method Up(start: nat, ghost n: nat)
      requires Indexed() && start < n <= |nodes|
      requires OrderedAround(Expiries(), start, n) && ChildrenLater(Expiries(), start, n)
      modifies this, Members()`byExpiryIndex
      ensures Indexed() && Members() == old(Members()) && |nodes| == old(|nodes|)
      ensures Ordered(Expiries(), n) && forall k :: n <= k < |nodes| ==> nodes[k] == old(nodes[k])
    {
      hide Ordered, OrderedAround, ChildrenLater;
      var j := start;
      ghost var e := Expiries();
      while true
        invariant 0 <= j < n <= |nodes| == old(|nodes|)
        invariant Indexed() && Members() == old(Members()) && Expiries() == e
        invariant OrderedAround(e, j, n) && ChildrenLater(e, j, n)
        invariant forall k :: n <= k < |nodes| ==> nodes[k] == old(nodes[k])
        decreases j
      {
        var i := if j == 0 then 0 else (j - 1) / 2;  // the parent; Go's division truncates
        if i == j || !Less(j, i) {
          break;
        }
        UpStep(e, i, j, n);
        Swap(i, j);
        e, j := Exchange(e, i, j), i;
      }
      Settled(e, j, n);
    }

    method Down(start: nat, n: nat) returns (moved: bool)
      requires Indexed() && start < n <= |nodes| && OrderedAround(Expiries(), start, n)
      modifies this, Members()`byExpiryIndex
      ensures Indexed() && Members() == old(Members()) && |nodes| == old(|nodes|)
      ensures forall k :: n <= k < |nodes| ==> nodes[k] == old(nodes[k])
      ensures moved ==> Ordered(Expiries(), n)
      ensures !moved ==> OrderedAround(Expiries(), start, n) && ChildrenLater(Expiries(), start, n)
    {
      hide Ordered, OrderedAround, ParentEarlier, Exchange;
      var i := start;
      ghost var e := Expiries();
      while true
        invariant start <= i < n <= |nodes| == old(|nodes|)
        invariant Indexed() && Members() == old(Members()) && Expiries() == e
        invariant OrderedAround(e, i, n) && (i > start ==> ParentEarlier(e, i))
        invariant forall k :: n <= k < |nodes| ==> nodes[k] == old(nodes[k])
        decreases n - i
      {
        if 2 * i + 1 >= n {
          break;
        }
        var j := EarlierChild(i, n);
        if !Less(j, i) {
          break;
        }
        DownStep(e, i, j, n);
        Swap(i, j);
        i, e := j, Exchange(e, i, j);
      }
      moved := i > start;
      if moved {
        Settled(e, i, n);
      }
    }

    method Push(n: Node)
      requires Valid() && n !in nodes
      modifies this, Members()`byExpiryIndex, n`byExpiryIndex
      ensures Valid() && n in nodes
      ensures forall y <- nodes :: y in old(nodes) || y == n
      ensures forall y <- old(nodes) :: y in nodes
    {
      AddLast(Expiries(), n.expiry);
      PushLast(n);
      Up(|nodes| - 1, |nodes|);
      assert Members() == old(Members()) + {n};
      assert forall y <- nodes :: y in Members();
      assert forall y <- old(nodes) :: y in old(Members());
    }

    /** Brings the node at position i to the end, and the others in order before it. */
    method MoveToEnd(i: nat)
      requires Valid() && i < |nodes|
      modifies this, Members()`byExpiryIndex
      ensures Indexed() && Members() == old(Members()) && |nodes| == old(|nodes|)
      ensures nodes[|nodes| - 1] == old(nodes[i]) && Ordered(Expiries(), |nodes| - 1)
    {
      hide Ordered, OrderedAround, ChildrenLater, Exchange;
      var n := |nodes| - 1;
      if n != i {
        MoveLast(Expiries(), i, n);
        Swap(i, n);
        var moved := Down(i, n);
        if !moved {
          Up(i, n);
        }
      } else {
        StillOrdered(Expiries(), n);
      }
    }

    /** Removes the node at position i. */
    method Remove(i: nat) returns (x: Node)
      requires Valid() && i < |nodes|
      modifies this, Members()`byExpiryIndex
      ensures x == old(nodes[i]) && x.byExpiryIndex == -1
      ensures Valid() && x !in nodes
      ensures forall y <- nodes :: y in old(nodes)
      ensures forall y <- old(nodes) :: y == x || y in nodes
    {
      hide Ordered;
      MoveToEnd(i);
      DropLast(Expiries(), |nodes| - 1);
      assert Members() == old(Members());
      x := PopLast();
      assert Members() == old(Members()) - {x};
      assert forall y <- nodes :: y in Members();
      assert forall y <- old(nodes) :: y in old(Members());
    }

    /** The heap does not mind changes to other fields of its nodes. */
    twostate lemma StaysValid()
      requires old(Valid()) && nodes == old(nodes)
      requires forall n <- nodes :: n.byExpiryIndex == old(n.byExpiryIndex) && n.expiry == old(n.expiry)
      ensures Valid()
    {
      assert Expiries() == old(Expiries());
    }

    /** The first node is one that expires soonest. */
    lemma FirstIsSoonest(n: Node)
      requires Valid() && n in nodes
      ensures nodes[0].expiry <= n.expiry
    {
      RootIsSoonest(Expiries(), n.byExpiryIndex);
    }
  }
}
