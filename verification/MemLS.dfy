/** The in-memory lock system: a tree of nodes by name, each counting the locks at or below
    it, an index of the locked nodes by token, and the heap of those that may expire. Every
    operation is proved to act on the flat table as LockTable says. */
module MemLS {
  import opened Paths
  import opened Options
  import opened LockTable
  import opened LockTree
  import opened Decimals
  import opened ExpiryHeap

  class LockSystem {
    var byName: map<string, Node>
    var byToken: map<string, Node>
    var gen: nat
    const byExpiry: Heap

    ghost var repr: set<Node>            // every node made so far
    ghost var tree: Tree                 // the fields of the nodes, by name
    ghost var roots: map<string, string> // the names of the locked nodes, by token

    // ---------------------------------------------------------- the representation

    /** The tree says what the nodes hold, and each node is under its own name. */
    ghost predicate NodesOk()
      reads this`tree, this`byName, this`repr, repr
    {
      && tree.Keys == byName.Keys
      && (forall p <- byName :: byName[p] in repr && byName[p].Val() == tree[p])
      && (forall p <- tree :: tree[p].details.root == p)
    }

    /** The nodes there were are still in place, and the others are new and not queued. */
    twostate predicate Grown()
      reads this, repr
    {
      && (forall n <- repr :: n in old(repr) || (fresh(n) && n.byExpiryIndex == -1))
      && (forall p <- old(byName) :: p in byName && byName[p] == old(byName[p]))
      && (forall p <- byName :: p in old(byName) || byName[p] !in old(repr))
    }

    /** The token index leads to the nodes of the locked names. */
    ghost predicate IndexOk()
      reads this`byName, this`byToken, this`roots
    {
      && roots.Keys == byToken.Keys
      && (forall t <- roots :: roots[t] in byName && byToken[t] == byName[roots[t]])
    }

    /** The heap is in order and holds nodes that are in place; the others have index -1. */
    ghost predicate HeapOk()
      reads this`byName, this`repr, repr, byExpiry
    {
      && (forall n <- byExpiry.nodes :: n in repr && n.details.root in byName && byName[n.details.root] == n)
      && byExpiry.Valid()
      && (forall n <- repr :: n in byExpiry.nodes || n.byExpiryIndex == -1)
    }

    /** Locked, not held, and of finite duration. */
    static ghost predicate Queued(n: NodeVal) {
      n.token != "" && n.details.duration >= 0 && !n.held
    }

    /** The heap holds exactly the nodes that may expire. */
    ghost predicate QueueOk()
      reads this`byName, this`tree, byExpiry
    {
      forall p <- byName :: p in tree && (byName[p] in byExpiry.nodes <==> Queued(tree[p]))
    }

    /** The tree and the heap are in order, and tokens lead to nodes that have them. */
    ghost predicate Shaped()
      reads this, repr, byExpiry
    {
      && NodesOk() && IndexOk() && HeapOk() && QueueOk()
      && NamesOk(tree) && TreeOk(tree, {}) && LeadsOk(tree, roots)
    }

    /** Besides, every locked node is where its token leads. */
    ghost predicate Valid()
      reads this, repr, byExpiry
    {
      Shaped() && Indexed(tree, roots)
    }

    /** The flat table the structure stands for: what the token index leads to. */
    ghost function Table(): Table
      reads this`tree, this`roots
    {
      Flat(tree, roots)
    }

    ghost function State(): LockState
      reads this
    {
      LockState(Table(), gen)
    }

    /** The node is a node of the tree, and locked. */
    ghost predicate InPlace(n: Node)
      reads this, n
    {
      n.details.root in byName && byName[n.details.root] == n && n.token != ""
    }

    constructor (gen: nat)
      ensures Valid() && State() == LockState(map[], gen)
      ensures repr == {} && fresh(byExpiry)
    {
      byName, byToken, this.gen := map[], map[], gen;
      byExpiry := new Heap();
      repr, tree, roots := {}, map[], map[];
    }

    // ---------------------------------------------------------- walks to the root

    /** One visit of create's walk: the node of the name, made if it is missing, counts one more. */
    method CountAt(name0: string) returns (n: Node)
      requires NodesOk() && Rooted(name0)
      modifies this`byName, this`repr, this`tree, repr`refCount
      ensures NodesOk() && byName == old(byName)[name0 := n]
      ensures tree == CountUp(old(tree), name0)
      ensures if name0 in old(byName) then n == old(byName[name0]) && repr == old(repr)
              else fresh(n) && n.byExpiryIndex == -1 && repr == old(repr) + {n}
    {
      if name0 in byName {
        n := byName[name0];
      } else {
        n := new Node(name0);
        byName := byName[name0 := n];
        repr := repr + {n};
      }
      n.refCount := n.refCount + 1;
      tree := CountUp(tree, name0);
    }

    /** create: counts one more at name and at each ancestor, making the nodes that are missing. */
    method LinkToRoot(name: string)
      requires NodesOk() && Rooted(name)
      modifies this`byName, this`repr, this`tree, repr`refCount
      ensures NodesOk() && Grown() && old(repr) <= repr
      ensures tree == Link(old(tree), name)
    {
      var name0, done := name, false;
      while !done
        invariant Rooted(name0)
        invariant NodesOk() && Grown() && old(repr) <= repr
        invariant (if done then tree else Link(tree, name0)) == Link(old(tree), name)
        decreases if done then 0 else |name0|
      {
        var _ := CountAt(name0);
        done := name0 == "/";
        if !done {
          name0 := Parent(name0);
        }
      }
    }

    /** One visit of remove's walk: the name's node counts one less, and goes when that is nothing. */
    method DiscountAt(name0: string)
      requires NodesOk() && name0 in byName
      modifies this`byName, this`tree, repr`refCount
      ensures NodesOk() && tree == CountDown(old(tree), name0)
      ensures byName == if name0 in tree then old(byName) else old(byName) - {name0}
    {
      var x := byName[name0];
      x.refCount := x.refCount - 1;
      tree := CountDown(tree, name0);
      if x.refCount == 0 {
        byName := byName - {name0};
      }
    }

    /** remove: counts one less at name and at each ancestor, dropping nodes that count nothing. */
    method UnlinkToRoot(name: string)
      requires NodesOk() && Rooted(name) && Chain(name) <= tree.Keys
      modifies this`byName, this`tree, repr`refCount
      ensures NodesOk() && tree == Unlink(old(tree), name)
      ensures forall p <- byName :: p in old(byName) && byName[p] == old(byName[p])
    {
      hide Chain, CountDown, Unlink;
      var name0, done := name, false;
      while !done
        invariant Rooted(name0) && NodesOk() && (!done ==> Chain(name0) <= tree.Keys)
        invariant (if done then tree else Unlink(tree, name0)) == Unlink(old(tree), name)
        invariant forall p <- byName :: p in old(byName) && byName[p] == old(byName[p])
        decreases if done then 0 else |name0|
      {
        UnlinkStep(tree, name0);
        DiscountAt(name0);
        done := name0 == "/";
        if !done {
          name0 := Parent(name0);
        }
      }
    }

    // ---------------------------------------------------------- the operations

    twostate lemma ForgetKeepsIndex(token: string)
      requires old(IndexOk()) && byName == old(byName)
      requires roots == old(roots) - {token} && byToken == old(byToken) - {token}
      ensures IndexOk()
    {
    }

    method ClearToken(n: Node)
      requires NodesOk() && n.details.root in byName && byName[n.details.root] == n
      modifies this`tree, n`token
      ensures NodesOk() && n.token == ""
      ensures tree == old(tree)[n.details.root := old(n.Val()).(token := "")]
    {
      tree := tree[n.details.root := n.Val().(token := "")];
      n.token := "";
      assert n.Val() == tree[n.details.root];
    }

    method Unlist(n: Node)
      requires NodesOk() && IndexOk() && n.details.root in byName && byName[n.details.root] == n
      modifies this`byToken, this`roots, this`tree, n`token
      ensures NodesOk() && IndexOk() && n.token == ""
      ensures roots == old(roots) - {old(n.token)}
      ensures tree == old(tree)[n.details.root := old(n.Val()).(token := "")]
    {
      hide IndexOk, NodesOk;
      byToken := byToken - {n.token};
      roots := roots - {n.token};
      ForgetKeepsIndex(n.token);
      ClearToken(n);
    }

    /** In order but for n, which is no longer locked and may still be in the heap. */
    ghost predicate DetachedOk(n: Node)
      reads this, repr, byExpiry
    {
      && NodesOk() && IndexOk() && n in repr
      && (forall x <- byExpiry.nodes ::
            x in repr && (x == n || (x.details.root in byName && byName[x.details.root] == x)))
      && byExpiry.Valid()
      && (forall x <- repr :: x in byExpiry.nodes || x.byExpiryIndex == -1)
      && (forall p <- byName :: p in tree && (Queued(tree[p]) <==> byName[p] != n && byName[p] in byExpiry.nodes))
    }

    twostate lemma IndexStays()
      requires old(IndexOk()) && roots == old(roots) && byToken == old(byToken)
      requires forall p <- byName :: p in old(byName) && byName[p] == old(byName[p])
      requires NodesOk() && forall t <- roots :: roots[t] in tree
      ensures IndexOk()
    {
      assert forall t <- roots :: roots[t] in byName;
    }

    method DetachTree(n: Node)
      requires NodesOk() && IndexOk() && n.details.root in byName && byName[n.details.root] == n
      requires var unlocked := tree[n.details.root := n.Val().(token := "")];
        && Rooted(n.details.root) && Chain(n.details.root) <= unlocked.Keys
        && forall t <- roots :: t == n.token || roots[t] in Unlink(unlocked, n.details.root)
      modifies this`byToken, this`roots, this`byName, this`tree, n`token, repr`refCount
      ensures NodesOk() && IndexOk() && n.token == ""
      ensures tree == Unlink(old(tree)[n.details.root := old(n.Val()).(token := "")], n.details.root)
      ensures roots == old(roots) - {old(n.token)}
      ensures forall p <- byName :: p in old(byName) && byName[p] == old(byName[p])
    {
      hide Unlink, Chain, IndexOk, NodesOk;
      var name := n.details.root;
      Unlist(n);
      label Unlisted:
      UnlinkToRoot(name);
      IndexStays@Unlisted();
    }

    /** The other locked nodes are where they were. */
    twostate predicate OthersStay(n: Node)
      reads this, repr
    {
      forall x <- repr :: x in old(repr) && x != n && old(InPlace(x)) ==>
        InPlace(x) && x.token == old(x.token) && x.held == old(x.held)
    }

    /** The nodes that were locked and held, but for a and b, are so still, under the same token. */
    twostate predicate HeldStay(a: Node?, b: Node?)
      reads this, repr
    {
      forall x <- repr :: x in old(repr) && x != a && x != b && old(InPlace(x) && x.held) ==>
        InPlace(x) && x.held && x.token == old(x.token)
    }

    /** The tree part of remove, and what it leaves as it was: the locked nodes but n. */
    method DetachNode(n: Node)
      requires Shaped() && InPlace(n) && !n.held
      modifies this`byToken, this`roots, this`byName, this`tree, n`token, repr`refCount
      ensures NodesOk() && IndexOk() && NamesOk(tree) && TreeOk(tree, {}) && LeadsOk(tree, roots) && n.token == ""
      ensures old(Indexed(tree, roots)) ==> Indexed(tree, roots)
      ensures roots == old(roots) - {old(n.token)}
      ensures Flat(tree, roots) == old(Flat(tree, roots)) - {old(n.token)}
      ensures forall p <- byName :: p in old(byName) && byName[p] == old(byName[p])
      ensures var unlocked := old(tree)[n.details.root := old(n.Val()).(token := "")];
        SameLocks(unlocked, tree) && forall p <- unlocked :: unlocked[p].token != "" ==> p in tree
    {
      hide TreeOk, LeadsOk, Indexed, NamesOk, Flat, Unlink, Chain, HeapOk, QueueOk, SameLocks;
      assert n.Val() == tree[n.details.root];
      RemoveOutcome(tree, roots, n.details.root);
      DetachTree(n);
    }

    /** remove, but for the heap. */
    method Detach(n: Node)
      requires Shaped() && InPlace(n) && !n.held
      modifies this`byToken, this`roots, this`byName, this`tree, n`token, repr`refCount
      ensures OthersStay(n)
      ensures DetachedOk(n) && NamesOk(tree) && TreeOk(tree, {}) && LeadsOk(tree, roots)
      ensures old(Indexed(tree, roots)) ==> Indexed(tree, roots)
      ensures roots == old(roots) - {old(n.token)}
      ensures Flat(tree, roots) == old(Flat(tree, roots)) - {old(n.token)}
    {
      hide TreeOk, LeadsOk, Indexed, NamesOk, Flat, Heap.Valid, IndexOk;
      ghost var name, before := n.details.root, tree;
      DetachNode(n);
      byExpiry.StaysValid();
      forall p | p in byName
        ensures p in tree && (Queued(tree[p]) <==> byName[p] != n && byName[p] in byExpiry.nodes)
      {
        assert byName[p] == old(byName[p]);
        assert p != name ==> byName[p].details.root == p && Queued(tree[p]) == Queued(before[p]);
      }
      forall x | x in byExpiry.nodes && x != n
        ensures x.details.root in byName && byName[x.details.root] == x
      {
        assert old(byName[x.details.root]) == x && Queued(before[x.details.root]);
      }
    }

    method DropFromHeap(n: Node)
      requires DetachedOk(n)
      modifies byExpiry, repr`byExpiryIndex
      ensures NodesOk() && IndexOk() && HeapOk() && QueueOk()
    {
      hide Ordered, IndexOk;
      if n.byExpiryIndex >= 0 {
        var _ := byExpiry.Remove(n.byExpiryIndex);
      }
    }

    /** Takes a lock away: its token, its count at each ancestor, and its place in the heap. The
        token leads nowhere then. If it led to another node, that one stays locked without it. */
    method Remove(n: Node)
      requires Shaped() && InPlace(n) && !n.held
      modifies this, n`token, repr`refCount, byExpiry, repr`byExpiryIndex
      ensures Shaped() && (old(Valid()) ==> Valid()) && repr == old(repr) && gen == old(gen) && OthersStay(n)
      ensures Table() == old(Table()) - {old(n.token)} && old(n.token) !in byToken
    {
      hide TreeOk, LeadsOk, Indexed, NamesOk, Flat, DetachedOk, NodesOk, HeapOk, QueueOk;
      Detach(n);
      DropFromHeap(n);
    }

    // ---------------------------------------------------------- what Valid means for a node

    lemma ValidIsShaped()
      requires Valid()
      ensures Shaped()
    {
    }

    /** A locked node has its entry in the flat table. */
    lemma TableHas(n: Node)
      requires Valid() && InPlace(n)
      ensures n.token in Table() && Table()[n.token] == FlatLock(n.Val())
      ensures n.token in byToken && byToken[n.token] == n
    {
      FlatHas(tree, roots, n.details.root);
    }

    /** And an entry of the flat table is a locked node. */
    lemma TableComesFrom(token: string)
      requires Valid()
      ensures token in Table() <==> token in byToken
      ensures token in roots <==> token in byToken
      ensures token in byToken ==> InPlace(byToken[token]) && byToken[token].token == token && byToken[token] in repr
      ensures token in byToken ==> Table()[token] == FlatLock(byToken[token].Val())
    {
    }

    lemma HeapHas(n: Node)
      requires Valid() && n in byExpiry.nodes
      ensures InPlace(n) && n in repr && !n.held && n.details.duration >= 0
    {
    }

    /** The first node of the heap is the first to expire. */
    lemma NothingExpired(now: int)
      requires Valid() && (byExpiry.nodes == [] || now < byExpiry.nodes[0].expiry)
      ensures forall k <- Table() :: !Expired(Table()[k], now)
    {
      forall k | k in Table()
        ensures !Expired(Table()[k], now)
      {
        TableComesFrom(k);
        var n := byToken[k];
        if n in byExpiry.nodes {
          byExpiry.FirstIsSoonest(n);
        }
      }
    }

    /** Removes the locks that have expired, and no others. */
    method CollectExpired(now: int)
      requires Valid()
      modifies this, repr, byExpiry
      ensures Valid() && repr == old(repr) && gen == old(gen) && HeldStay(null, null)
      ensures Table() == Collect(old(Table()), now)
    {
      hide Valid, Shaped, Table;
      while |byExpiry.nodes| > 0
        invariant Valid() && repr == old(repr) && gen == old(gen) && HeldStay(null, null)
        invariant forall k <- Table() :: k in old(Table()) && Table()[k] == old(Table())[k]
        invariant forall k <- old(Table()) :: k in Table() || Expired(old(Table())[k], now)
        decreases Table().Keys
      {
        if now < byExpiry.nodes[0].expiry {
          break;
        }
        HeapHas(byExpiry.nodes[0]);
        TableHas(byExpiry.nodes[0]);
        ValidIsShaped();
        Remove(byExpiry.nodes[0]);
      }
      NothingExpired(now);
    }

    /** canCreate: looks at name and at each ancestor for a lock in the way. */
    method CanCreateAt(name: string, zeroDepth: bool) returns (ok: bool)
      requires NodesOk() && Rooted(name)
      ensures ok == AdmitsToRoot(tree, name, true, zeroDepth)
    {
      var name0, first := name, true;
      while true
        invariant Rooted(name0)
        invariant AdmitsToRoot(tree, name0, first, zeroDepth) == AdmitsToRoot(tree, name, true, zeroDepth)
        decreases |name0|
      {
        if name0 in byName {
          var n := byName[name0];
          assert n.Val() == tree[name0];
          if first {
            if n.token != "" {
              return false;  // the target itself is locked
            }
            if !zeroDepth {
              return false;  // something below the target is locked
            }
          } else if n.token != "" && !n.details.zeroDepth {
            return false;  // an ancestor is locked with infinite depth
          }
        }
        if name0 == "/" {
          return true;
        }
        name0, first := Parent(name0), false;
      }
    }

    twostate lemma GrownKeepsIndex()
      requires old(IndexOk()) && roots == old(roots) && byToken == old(byToken) && Grown()
      ensures IndexOk()
    {
    }

    twostate lemma GrownKeepsHeap()
      requires old(HeapOk()) && byExpiry.nodes == old(byExpiry.nodes) && Grown() && old(repr) <= repr && NodesOk()
      requires forall n <- old(repr) ::
                 n.byExpiryIndex == old(n.byExpiryIndex) && n.expiry == old(n.expiry) && n.details == old(n.details)
      ensures HeapOk()
    {
      hide Heap.Valid;
      byExpiry.StaysValid();
    }

    twostate lemma GrownKeepsQueue()
      requires old(NodesOk()) && old(HeapOk()) && old(QueueOk()) && byExpiry.nodes == old(byExpiry.nodes)
      requires Grown() && NodesOk()
      requires MoreNodes(old(tree), tree)
      ensures QueueOk()
    {
      forall p | p in byName
        ensures byName[p] in byExpiry.nodes <==> Queued(tree[p])
      {
        if p in old(byName) {
          assert old(byName[p]) == byName[p];
        }
      }
    }

    /** create, as a whole: the walk leaves all in order but for the counts. */
    method MakeNode(name: string) returns (n: Node)
      requires Valid() && Rooted(name) && (name in tree ==> tree[name].token == "")
      modifies this`byName, this`repr, this`tree, repr`refCount
      ensures PendingOk(n) && n !in byExpiry.nodes && name in tree && n.Val() == tree[name] && n.token == ""
      ensures HeldStay(null, null)
      ensures old(repr) <= repr && fresh(repr - old(repr))
      ensures tree == Link(old(tree), name) && n.details.root == name
    {
      hide TreeOk, LeadsOk, Indexed, NamesOk, Link, Heap.Valid, Chain;
      ghost var before := tree;
      LinkToRoot(name);
      LinkSameLocks(before, name);
      GrownKeepsIndex();
      GrownKeepsHeap();
      GrownKeepsQueue();
      n := byName[name];
    }

    /** The heap is right about every node but, perhaps, n. */
    ghost predicate OthersQueued(n: Node)
      reads this`byName, this`tree, byExpiry
    {
      forall p <- byName :: p in tree && (byName[p] == n || (byName[p] in byExpiry.nodes <==> Queued(tree[p])))
    }

    /** All in order but for the heap, which may be wrong about n, and the counts and tokens. */
    ghost predicate PendingOk(n: Node)
      reads this, repr, byExpiry
    {
      && NodesOk() && IndexOk() && HeapOk()
      && n in repr && n.details.root in byName && byName[n.details.root] == n
      && OthersQueued(n)
    }

    /** Sets the fields of a node's lock. */
    method Write(n: Node, details: LockDetails, token: string, expiry: int, held: bool)
      requires NodesOk() && n.details.root in byName && byName[n.details.root] == n && details.root == n.details.root
      modifies this`tree, n`details, n`token, n`expiry, n`held
      ensures NodesOk() && n.Val() == NodeVal(details, token, n.refCount, expiry, held)
      ensures tree == old(tree)[details.root := n.Val()]
    {
      n.details, n.token, n.expiry, n.held := details, token, expiry, held;
      tree := tree[details.root := n.Val()];
    }

    twostate lemma WriteKeepsHeap(n: Node)
      requires old(HeapOk()) && byExpiry.nodes == old(byExpiry.nodes) && byName == old(byName) && repr == old(repr)
      requires forall x <- repr :: x.byExpiryIndex == old(x.byExpiryIndex) && x.details.root == old(x.details.root)
      requires forall x <- byExpiry.nodes :: x in repr ==> x.expiry == old(x.expiry)
      ensures HeapOk()
    {
      hide Heap.Valid;
      byExpiry.StaysValid();
    }

    lemma RightlyOutOfHeap(n: Node)
      requires PendingOk(n) && n !in byExpiry.nodes && !Queued(n.Val())
      ensures QueueOk()
    {
    }

    /** heap.Push of a node that may now expire. */
    method Enqueue(n: Node)
      requires PendingOk(n) && n !in byExpiry.nodes && Queued(n.Val())
      modifies byExpiry, repr`byExpiryIndex
      ensures NodesOk() && IndexOk() && HeapOk() && QueueOk()
    {
      hide Ordered, IndexOk;
      byExpiry.Push(n);
    }

    method Index(n: Node, token: string, ghost name: string)
      requires IndexOk() && name in byName && byName[name] == n
      modifies this`byToken, this`roots
      ensures IndexOk() && roots == old(roots)[token := name]
    {
      byToken := byToken[token := n];
      roots := roots[token := name];
    }

    /** The rest of create, once the name has its node: the lock data and the token go in. */
    method Enlist(n: Node, token: string, details: LockDetails, expiry: int)
      requires PendingOk(n) && n !in byExpiry.nodes && details.root == n.details.root
      modifies this`byToken, this`roots, this`tree, n`details, n`token, n`expiry, n`held
      ensures PendingOk(n) && n !in byExpiry.nodes
      ensures n.Val() == NodeVal(details, token, old(n.refCount), expiry, false)
      ensures roots == old(roots)[token := details.root]
      ensures tree == old(tree)[details.root := n.Val()]
    {
      hide Heap.Valid;
      Index(n, token, details.root);
      Write(n, details, token, expiry, false);
      WriteKeepsHeap(n);
    }

    lemma PlacedTakesOver(v: Tree, roots0: map<string, string>, n: Node)
      requires NodesOk() && IndexOk() && TreeOk(tree, {}) && NamesOk(tree) && InPlace(n)
      requires NamesOk(v) && TokensOk(v, roots0) && OnlyNameAdded(v, tree, n.details.root)
      requires n.details.root in v ==> v[n.details.root].token == ""
      requires n.token in roots && roots[n.token] == n.details.root
      ensures TakesOver(Flat(v, roots0), n.token, FlatLock(n.Val()))
    {
      hide TreeOk, NamesOk, TokensOk, OnlyNameAdded, Flat, FlatLock, WalkKnows, IsShadowed;
      WalkKnowsAll(v, roots0, n.details.root);
      if n.token in Flat(v, roots0) {
        OtherIsShadowed(v, roots0, n, n.token);
      }
    }

    /** create and what follows it in Create, up to the queue: the node is made and locked. */
    method MakeLocked(now: int, details: LockDetails) returns (n: Node)
      requires Valid() && Rooted(details.root)
      requires details.root in tree ==> tree[details.root].token == ""
      modifies this, repr`refCount, repr`details, repr`token, repr`expiry, repr`held
      ensures PendingOk(n) && n !in byExpiry.nodes
      ensures old(repr) <= repr && fresh(repr - old(repr)) && HeldStay(null, null)
      ensures gen == NextGen(old(gen)) && n.token == Decimal(gen) && n.details == details && !n.held
      ensures FlatLock(n.Val()) == NewLock(details, now)
      ensures roots == old(roots)[n.token := details.root] && details.root in Link(old(tree), details.root)
      ensures tree == Link(old(tree), details.root)[details.root := n.Val()]
      ensures n.refCount == Link(old(tree), details.root)[details.root].refCount
    {
      hide TreeOk, LeadsOk, Indexed, NamesOk, Link, Ordered, IndexOk, NodesOk, HeapOk, QueueOk, OthersQueued;
      n := MakeNode(details.root);
      assert HeldStay(null, null);
      gen := NextGen(gen);
      Enlist(n, Decimal(gen), details, if details.duration >= 0 then now + details.duration else n.expiry);
    }

    /** What that does to the flat table. */
    method Place(now: int, details: LockDetails) returns (n: Node)
      requires Valid() && Rooted(details.root)
      requires details.root in tree ==> tree[details.root].token == ""
      modifies this, repr`refCount, repr`details, repr`token, repr`expiry, repr`held
      ensures PendingOk(n) && n !in byExpiry.nodes && NamesOk(tree) && TreeOk(tree, {}) && LeadsOk(tree, roots)
      ensures Indexed(tree, roots) <==> Decimal(gen) !in old(Table())
      ensures TakesOver(old(Table()), n.token, NewLock(details, now))
      ensures old(repr) <= repr && fresh(repr - old(repr)) && HeldStay(null, null)
      ensures gen == NextGen(old(gen)) && n.token == Decimal(gen) && n.details == details && !n.held
      ensures Table() == old(Table())[n.token := NewLock(details, now)]
    {
      hide TreeOk, LeadsOk, Indexed, NamesOk, Flat, Link, Ordered, IndexOk, HeapOk, QueueOk, OthersQueued, HeldStay;
      hide OnlyNameAdded, TakesOver, FlatLock, NewLock;
      ghost var before, roots0 := tree, roots;
      TableComesFrom(Decimal(NextGen(gen)));
      n := MakeLocked(now, details);
      CreateOutcome(before, roots0, details.root, n.Val());
      PlacedTakesOver(before, roots0, n);
    }

    /** The rest of Create, once it is known that the lock may be made. */
    method Insert(now: int, details: LockDetails) returns (token: string)
      requires Valid() && Rooted(details.root)
      requires details.root in tree ==> tree[details.root].token == ""
      modifies this, repr, byExpiry
      ensures Shaped() && old(repr) <= repr && fresh(repr - old(repr)) && HeldStay(null, null)
      ensures Valid() <==> token !in old(Table())
      ensures gen == NextGen(old(gen)) && token == Decimal(gen)
      ensures Table() == old(Table())[token := NewLock(details, now)]
      ensures TakesOver(old(Table()), token, NewLock(details, now))
    {
      hide TreeOk, LeadsOk, Indexed, NamesOk, Table, Ordered, IndexOk, NodesOk, HeapOk, QueueOk, OthersQueued;
      hide TakesOver;
      var n := Place(now, details);
      token := n.token;
      if n.details.duration >= 0 {
        Enqueue(n);
      } else {
        RightlyOutOfHeap(n);
      }
    }

    /** After a lock was put in where the flat table was t, the walk refuses what conflicts with it
        or with any lock of t. If its token was in t, the lock that had it is still on its name,
        with that token, but the token leads to the new one. */
    ghost predicate TakesOver(t: Table, token: string, lock: Lock)
      reads this`byName, this`byToken, this`tree, byName.Values`token
    {
      WalkKnows(t, lock) && (token in t ==> IsShadowed(t[token], token))
    }

    ghost predicate WalkKnows(t: Table, lock: Lock)
      reads this`tree
    {
      forall name, zeroDepth :: Rooted(name) ==>
        (AdmitsToRoot(tree, name, true, zeroDepth) <==>
         CanCreate(t, name, zeroDepth) && !Conflicts(lock, name, zeroDepth))
    }

    /** The lock is on its name, but its token leads to another node. */
    ghost predicate IsShadowed(lock: Lock, token: string)
      reads this`byName, this`byToken, this`tree, byName.Values`token
    {
      var name := lock.details.root;
      && name in byName && name in tree && FlatLock(tree[name]) == lock && byName[name].token == token
      && token in byToken && byToken[token] != byName[name]
    }

    lemma WalkKnowsAll(v: Tree, roots0: map<string, string>, added: string)
      requires TreeOk(tree, {}) && NamesOk(tree)
      requires TokensOk(v, roots0) && OnlyNameAdded(v, tree, added) && added in tree && added !in Locked(v)
      ensures WalkKnows(Flat(v, roots0), FlatLock(tree[added]))
    {
      hide TreeOk, NamesOk, TokensOk, OnlyNameAdded, Locked, Flat, FlatLock;
      forall name, zeroDepth | Rooted(name)
        ensures AdmitsToRoot(tree, name, true, zeroDepth) <==>
                CanCreate(Flat(v, roots0), name, zeroDepth) && !Conflicts(FlatLock(tree[added]), name, zeroDepth)
      {
        AdmitsAfterCreate(v, tree, roots0, added, name, zeroDepth);
      }
    }

    lemma OtherIsShadowed(v: Tree, roots0: map<string, string>, n: Node, token: string)
      requires NodesOk() && NamesOk(v) && TokensOk(v, roots0) && token in Flat(v, roots0)
      requires OnlyNameAdded(v, tree, n.details.root) && n.details.root !in Locked(v)
      requires InPlace(n) && token in byToken && byToken[token] == n
      ensures IsShadowed(Flat(v, roots0)[token], token)
    {
      FlatComesFrom(v, roots0, token);
      assert roots0[token] in Locked(v);
    }

    /** Create. If the generator has wrapped onto the token of a live lock, the token is taken over:
        the flat table has the new lock under it, and the other lock is only found by its name. */
    method Create(now: int, details: LockDetails) returns (r: Result<string>)
      requires Valid()
      modifies this, repr, byExpiry
      ensures Shaped() && old(repr) <= repr && fresh(repr - old(repr)) && HeldStay(null, null)
      ensures (State(), r) == LockTable.Create(old(State()), now, details)
      ensures Valid() <==> r.Err? || r.value !in Collect(old(Table()), now)
      ensures r.Ok? ==>
        TakesOver(Collect(old(Table()), now), r.value, NewLock(details.(root := SlashClean(details.root)), now))
    {
      hide Valid, Shaped, Table, TakesOver;
      CollectExpired(now);
      var clean := details.(root := SlashClean(details.root));
      SlashCleanIsClean(details.root);
      var ok := MayCreate(clean.root, clean.zeroDepth);
      if !ok {
        ValidIsShaped();
        return Err(ErrLocked);
      }
      var token := Insert(now, clean);
      r := Ok(token);
    }

    method MayCreate(name: string, zeroDepth: bool) returns (ok: bool)
      requires Valid() && Rooted(name)
      ensures ok == CanCreate(Table(), name, zeroDepth)
      ensures ok ==> name in tree ==> tree[name].token == ""
    {
      hide LeadsOk, Indexed, TreeOk, NamesOk, CanCreate, HeapOk, QueueOk;
      ok := CanCreateAt(name, zeroDepth);
      AdmitsIsCanCreate(tree, roots, name, zeroDepth);
    }

    // ---------------------------------------------------------- hold and unhold

    lemma ValidIsPending(n: Node)
      requires Valid() && InPlace(n)
      ensures PendingOk(n) && n.Val() == tree[n.details.root]
      ensures n in byExpiry.nodes <==> Queued(n.Val())
      ensures n in byExpiry.nodes <==> n.byExpiryIndex >= 0
    {
    }

    /** heap.Remove of a node that may no longer expire. */
    method Dequeue(n: Node)
      requires PendingOk(n) && n in byExpiry.nodes
      modifies byExpiry, repr`byExpiryIndex
      ensures PendingOk(n) && n !in byExpiry.nodes && n.byExpiryIndex == -1
    {
      hide Ordered, IndexOk;
      var _ := byExpiry.Remove(n.byExpiryIndex);
    }

    /** Sets the fields of a locked node's lock, all but its token and root. */
    method Rewrite(n: Node, duration: int, expiry: int, held: bool)
      requires PendingOk(n) && n.token != "" && (n in byExpiry.nodes ==> expiry == n.expiry)
      modifies this`tree, n`details, n`token, n`expiry, n`held
      ensures PendingOk(n)
      ensures n.Val() == old(n.Val()).(details := old(n.details).(duration := duration), expiry := expiry, held := held)
      ensures tree == old(tree)[n.details.root := n.Val()]
    {
      hide Heap.Valid, IndexOk;
      Write(n, n.details.(duration := duration), n.token, expiry, held);
      WriteKeepsHeap(n);
    }

    /** hold: the lock is held, and may not expire while it is. */
    method Hold(n: Node)
      requires Valid() && InPlace(n) && !n.held
      modifies this`tree, n`details, n`token, n`expiry, n`held, byExpiry, repr`byExpiryIndex
      ensures Valid() && InPlace(n) && n.token == old(n.token) && n.held == true
      ensures Table() == old(SetHeld(Table(), {n.token}, true))
    {
      hide TreeOk, LeadsOk, Indexed, NamesOk, Flat, Ordered, IndexOk, NodesOk, HeapOk, QueueOk;
      ghost var before := tree;
      ValidIsPending(n);
      TableHas(n);
      Rewrite(n, n.details.duration, n.expiry, true);
      ChangeOutcome(before, roots, n.details.root, n.Val());
      if n.details.duration >= 0 && n.byExpiryIndex >= 0 {
        Dequeue(n);
      }
      RightlyOutOfHeap(n);
    }

    /** unhold: the lock is no longer held, and may expire again if it is of finite duration. */
    method Unhold(n: Node)
      requires Valid() && InPlace(n) && n.held
      modifies this`tree, n`details, n`token, n`expiry, n`held, byExpiry, repr`byExpiryIndex
      ensures Valid() && InPlace(n) && n.token == old(n.token) && n.held == false
      ensures Table() == old(SetHeld(Table(), {n.token}, false))
    {
      hide TreeOk, LeadsOk, Indexed, NamesOk, Flat, Ordered, IndexOk, NodesOk, HeapOk, QueueOk;
      ghost var before := tree;
      ValidIsPending(n);
      TableHas(n);
      Rewrite(n, n.details.duration, n.expiry, false);
      ChangeOutcome(before, roots, n.details.root, n.Val());
      if n.details.duration >= 0 {
        Enqueue(n);
      } else {
        RightlyOutOfHeap(n);
      }
    }

    /** The part of Refresh that acts on the lock found: it is dequeued, renewed, queued again. */
    method Renew(n: Node, now: int, duration: int)
      requires Valid() && InPlace(n) && !n.held
      modifies this`tree, n`details, n`token, n`expiry, n`held, byExpiry, repr`byExpiryIndex
      ensures Valid() && InPlace(n)
      ensures n.details == old(n.details).(duration := duration)
      ensures Table() == old(Table())[old(n.token) := NewLock(n.details, now)]
    {
      hide TreeOk, LeadsOk, Indexed, NamesOk, Flat, Ordered, IndexOk, NodesOk, HeapOk, QueueOk;
      ghost var before := tree;
      ValidIsPending(n);
      TableHas(n);
      if n.byExpiryIndex >= 0 {
        Dequeue(n);
      }
      Rewrite(n, duration, if duration >= 0 then now + duration else n.expiry, false);
      ChangeOutcome(before, roots, n.details.root, n.Val());
      if n.details.duration >= 0 {
        Enqueue(n);
      } else {
        RightlyOutOfHeap(n);
      }
    }

    // ---------------------------------------------------------- the rest of the interface

    lemma RootsAreRooted(n: Node)
      requires Valid() && InPlace(n)
      ensures Rooted(n.details.root)
    {
    }

    /** The locked node that covers the name, is not held, and matches one of the conditions. */
    method Lookup(name: string, conditions: seq<Condition>) returns (n: Node?)
      requires Valid() && Rooted(name)
      ensures match LockTable.Lookup(Table(), name, conditions)
        case Some(k) => n != null && n.token == k
        case None => n == null
      ensures n != null ==> InPlace(n) && !n.held && n in repr
    {
      hide Valid, Shaped, Table;
      for i := 0 to |conditions|
        invariant LockTable.Lookup(Table(), name, conditions) == LockTable.Lookup(Table(), name, conditions[i..])
      {
        var token := conditions[i].token;
        TableComesFrom(token);
        assert conditions[i..][0] == conditions[i] && conditions[i..][1..] == conditions[i + 1..];
        if token in byToken {
          n := byToken[token];
          if !n.held {
            RootsAreRooted(n);
            PrefixTestIsChain(n.details.root, name);
            if name == n.details.root {
              return n;
            }
            if !n.details.zeroDepth && (n.details.root == "/" || n.details.root + "/" <= name) {
              return n;
            }
          }
        }
      }
      n := null;
    }

    /** The nodes a confirmation holds, as its release function remembers them. */
    ghost function ClaimOf(n0: Node?, n1: Node?): set<string>
      reads n0, n1
    {
      (if n0 != null then {n0.token} else {}) + (if n1 != null then {n1.token} else {})
    }

    /** The nodes are locked and held, and are not one node twice. */
    ghost predicate Claims(n0: Node?, n1: Node?)
      reads this, n0, n1
    {
      && (n0 != null ==> InPlace(n0) && n0.held && n0 in repr)
      && (n1 != null ==> InPlace(n1) && n1.held && n1 in repr && n1 != n0)
    }

    /** The node that a confirmation needs for one name; none for an empty name. */
    method Find(name: string, conditions: seq<Condition>) returns (found: bool, n: Node?)
      requires Valid()
      ensures (if found then Some(ClaimOf(n, null)) else None) == Claim(Table(), name, conditions)
      ensures n != null ==> InPlace(n) && !n.held && n in repr
      ensures !found ==> n == null
    {
      hide Valid, Shaped, Table;
      if name == "" {
        n := null;
        assert ClaimOf(n, null) == {};
        return true, n;
      }
      SlashCleanIsClean(name);
      n := Lookup(SlashClean(name), conditions);
      found := n != null;
      assert found ==> ClaimOf(n, null) == {n.token};
    }

    method HoldBoth(n0: Node?, n1: Node?)
      requires Valid() && (n0 != null ==> InPlace(n0) && !n0.held && n0 in repr)
      requires n1 != null ==> InPlace(n1) && !n1.held && n1 in repr && n1 != n0
      modifies this, repr, byExpiry
      ensures Valid() && Claims(n0, n1) && repr == old(repr) && gen == old(gen) && HeldStay(null, null)
      ensures ClaimOf(n0, n1) == old(ClaimOf(n0, n1))
      ensures Table() == old(SetHeld(Table(), ClaimOf(n0, n1), true))
    {
      hide Valid, Shaped, Table;
      if n0 != null {
        Hold(n0);
      }
      if n1 != null {
        Hold(n1);
      }
    }

    /** Confirm. On success the nodes returned are to be given to Release, once. */
    method Confirm(now: int, name0: string, name1: string, conditions: seq<Condition>)
      returns (ok: bool, n0: Node?, n1: Node?)
      requires Valid()
      modifies this, repr, byExpiry
      ensures Valid() && repr == old(repr) && HeldStay(null, null)
      ensures (State(), if ok then Ok(ClaimOf(n0, n1)) else Err(ErrConfirmationFailed)) ==
              LockTable.Confirm(old(State()), now, name0, name1, conditions)
      ensures ok ==> Claims(n0, n1)
    {
      hide Valid, Shaped, Table, Claim;
      CollectExpired(now);
      n1 := null;
      ok, n0 := Find(name0, conditions);
      if !ok {
        return;
      }
      ok, n1 := Find(name1, conditions);
      if !ok {
        return;
      }
      ghost var claimed := ClaimOf(n0, null) + ClaimOf(n1, null);
      // one lock may cover both names
      if n1 == n0 {
        n1 := null;
      }
      assert claimed == ClaimOf(n0, n1);
      HoldBoth(n0, n1);
    }

    /** The release function of a confirmation. */
    method Release(n0: Node?, n1: Node?)
      requires Valid() && Claims(n0, n1)
      modifies this, repr, byExpiry
      ensures Valid() && repr == old(repr) && HeldStay(n0, n1)
      ensures State() == LockTable.Release(old(State()), old(ClaimOf(n0, n1)))
    {
      hide Valid, Shaped, Table;
      if n1 != null {
        Unhold(n1);
      }
      if n0 != null {
        Unhold(n0);
      }
    }

    method Refresh(now: int, token: string, duration: int) returns (r: Result<LockDetails>)
      requires Valid()
      modifies this, repr, byExpiry
      ensures Valid() && repr == old(repr) && HeldStay(null, null)
      ensures (State(), r) == LockTable.Refresh(old(State()), now, token, duration)
    {
      hide Valid, Shaped, Table;
      CollectExpired(now);
      TableComesFrom(token);
      if token !in byToken {
        return Err(ErrNoSuchLock);
      }
      var n := byToken[token];
      if n.held {
        return Err(ErrLocked);
      }
      Renew(n, now, duration);
      r := Ok(n.details);
    }

    method Unlock(now: int, token: string) returns (r: Result<()>)
      requires Valid()
      modifies this, repr, byExpiry
      ensures Valid() && repr == old(repr) && HeldStay(null, null)
      ensures (State(), r) == LockTable.Unlock(old(State()), now, token)
      ensures Unlocked(old(Table()), now, token, Table(), r)
    {
      hide Valid, Shaped, Table, Unlocked;
      UnlockLaw(State(), now, token);
      CollectExpired(now);
      TableComesFrom(token);
      if token !in byToken {
        return Err(ErrNoSuchLock);
      }
      var n := byToken[token];
      if n.held {
        return Err(ErrLocked);
      }
      ValidIsShaped();
      Remove(n);
      r := Ok(());
    }
  }
}
