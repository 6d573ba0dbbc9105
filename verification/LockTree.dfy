/** The path tree of the lock system on values: which names have nodes, what each node counts,
    and which flat table the locked nodes stand for. */
module LockTree {
  import opened Paths
  import opened Options
  import opened LockTable

  datatype NodeVal = NodeVal(details: LockDetails, token: string, refCount: int, expiry: int, held: bool)

  type Tree = map<string, NodeVal>

  /** A named node that is not locked, before anything is counted at it. */
  function Interior(name: string): NodeVal {
    NodeVal(LockDetails(name, 0, "", false), "", 0, 0, false)
  }

  function Locked(v: Tree): set<string> {
    set p | p in v && v[p].token != ""
  }

  /** The locked names at or below p. */
  ghost function Below(p: string, locked: set<string>): set<string> {
    set q | q in locked && p in Chain(q)
  }

  // ---------------------------------------------------------------- the representation

  predicate HasNode(v: Tree, p: string) {
    p in v
  }

  /** A node counts the locks at or below it, and one more if it is in extra. */
  ghost predicate CountsOk(v: Tree, locked: set<string>, extra: set<string>) {
    forall p {:trigger HasNode(v, p)} :: HasNode(v, p) ==>
      v[p].refCount == |Below(p, locked)| + (if p in extra then 1 else 0) && v[p].refCount > 0
  }

  /** The names are the locked ones with their ancestors, and those in extra. */
  ghost predicate TreeOk(v: Tree, extra: set<string>) {
    && CountsOk(v, Locked(v), extra)
    && (forall q {:trigger Chain(q)} :: q in Locked(v) ==> Chain(q) <= v.Keys)
    && extra <= v.Keys
  }

  /** Each node is under its own name, and an unlocked node is not held. */
  ghost predicate NamesOk(v: Tree) {
    && (forall p <- v :: v[p].details.root == p && Rooted(p))
    && (forall p <- v :: v[p].token == "" ==> !v[p].held)
  }

  /** The token index leads to nodes with these tokens; no token is empty. */
  ghost predicate LeadsOk(v: Tree, roots: map<string, string>) {
    forall t <- roots :: t != "" && roots[t] in v && v[roots[t]].token == t
  }

  /** Every locked node is where its token leads. */
  ghost predicate Indexed(v: Tree, roots: map<string, string>) {
    forall p <- v :: v[p].token != "" ==> v[p].token in roots && roots[v[p].token] == p
  }

  /** The token index leads to exactly the locked nodes. */
  ghost predicate TokensOk(v: Tree, roots: map<string, string>) {
    Indexed(v, roots) && LeadsOk(v, roots)
  }

  /** The lock a locked node stands for. The expiry of an infinite lock means nothing. */
  function FlatLock(n: NodeVal): Lock {
    Lock(n.details, if n.details.duration >= 0 then Some(n.expiry) else None, n.held)
  }

  function Flat(v: Tree, roots: map<string, string>): Table {
    map t | t in roots && roots[t] in v :: FlatLock(v[roots[t]])
  }

  // ---------------------------------------------------------------- the walks

  /** The node of p, fresh if there is none, counting some more. */
  function Counted(v: Tree, p: string, more: int): NodeVal {
    var n := if p in v then v[p] else Interior(p);
    n.(refCount := n.refCount + more)
  }

  function CountUp(v: Tree, name: string): Tree {
    v[name := Counted(v, name, 1)]
  }

  function CountDown(v: Tree, name: string): Tree
    requires name in v
  {
    if v[name].refCount == 1 then v - {name} else v[name := v[name].(refCount := v[name].refCount - 1)]
  }

  /** Counting one more at name and at each ancestor, as create's walk does. */
  function Link(v: Tree, name: string): Tree
    requires Rooted(name)
    decreases |name|
  {
    var w := CountUp(v, name);
    if name == "/" then w else Link(w, Parent(name))
  }

  /** Counting one less at name and at each ancestor, as remove's walk does. */
  function Unlink(v: Tree, name: string): Tree
    requires Rooted(name) && Chain(name) <= v.Keys
    decreases |name|
  {
    var w := CountDown(v, name);
    if name == "/" then w else Unlink(w, Parent(name))
  }

  lemma {:induction false} LinkKeys(v: Tree, name: string)
    requires Rooted(name)
    ensures Link(v, name).Keys == v.Keys + Chain(name)
    decreases |name|
  {
    if name == "/" {
    } else {
      LinkKeys(CountUp(v, name), Parent(name));
    }
  }

  lemma UnlinkStep(v: Tree, name: string)
    requires Rooted(name) && Chain(name) <= v.Keys
    ensures name in v && (name != "/" ==> Chain(Parent(name)) <= CountDown(v, name).Keys)
    ensures Unlink(v, name) == if name == "/" then CountDown(v, name) else Unlink(CountDown(v, name), Parent(name))
  {
  }

  /** What linking does to each node. */
  lemma {:induction false} LinkCounts(v: Tree, name: string, p: string)
    requires Rooted(name)
    ensures p in Link(v, name) <==> p in v || p in Chain(name)
    ensures p in Link(v, name) ==> Link(v, name)[p] == Counted(v, p, if p in Chain(name) then 1 else 0)
    decreases |name|
  {
    if name == "/" {
    } else {
      LinkCounts(CountUp(v, name), Parent(name), p);
      assert name !in Chain(Parent(name));
    }
  }

  /** What unlinking does: it is the reverse, and a node that counts nothing any more goes. */
  lemma {:induction false} UnlinkCounts(v: Tree, name: string)
    requires Rooted(name) && Chain(name) <= v.Keys
    ensures Unlink(v, name).Keys == v.Keys - set p | p in Chain(name) && v[p].refCount == 1
    ensures forall p <- Unlink(v, name) ::
              Unlink(v, name)[p] == v[p].(refCount := v[p].refCount - if p in Chain(name) then 1 else 0)
    decreases |name|
  {
    if name == "/" {
    } else {
      var w := CountDown(v, name);
      UnlinkCounts(w, Parent(name));
      assert name !in Chain(Parent(name)) && Unlink(v, name) == Unlink(w, Parent(name));
    }
  }

  // ---------------------------------------------------------------- what the walks keep

  lemma BelowWithMore(p: string, locked: set<string>, name: string)
    requires name !in locked
    ensures Below(p, locked + {name}) == Below(p, locked) + (if p in Chain(name) then {name} else {})
    ensures |Below(p, locked + {name})| == |Below(p, locked)| + (if p in Chain(name) then 1 else 0)
  {
  }

  lemma LinkKeepsCounts(v: Tree, name: string, locked: set<string>)
    requires Rooted(name) && CountsOk(v, locked, {}) && forall q <- locked :: Chain(q) <= v.Keys
    ensures CountsOk(Link(v, name), locked, Chain(name))
  {
    forall p | HasNode(Link(v, name), p)
      ensures Link(v, name)[p].refCount == |Below(p, locked)| + (if p in Chain(name) then 1 else 0)
      ensures Link(v, name)[p].refCount > 0
    {
      LinkCounts(v, name, p);
      assert HasNode(v, p) || Below(p, locked) == {};
    }
  }

  lemma LinkKeepsTree(v: Tree, name: string)
    requires Rooted(name) && TreeOk(v, {}) && NamesOk(v)
    ensures TreeOk(Link(v, name), Chain(name)) && NamesOk(Link(v, name))
    ensures Locked(Link(v, name)) == Locked(v)
  {
    LinkKeepsCounts(v, name, Locked(v));
    LinkKeys(v, name);
    forall p | p in Link(v, name)
      ensures Link(v, name)[p] == Counted(v, p, if p in Chain(name) then 1 else 0)
    {
      LinkCounts(v, name, p);
    }
    assert Locked(Link(v, name)) == Locked(v);
  }

  /** A node whose count unlinking brings to nothing has no lock below it. */
  lemma UnlinkKeepsNeeded(v: Tree, name: string, q: string, p: string)
    requires Rooted(name) && Chain(name) <= v.Keys && CountsOk(v, Locked(v), Chain(name))
    requires q in Locked(v) && p in Chain(q) && p in v
    ensures p in Unlink(v, name)
  {
    UnlinkCounts(v, name);
    assert HasNode(v, p);
    assert q in Below(p, Locked(v));
  }

  lemma UnlinkKeepsCounts(v: Tree, name: string, locked: set<string>)
    requires Rooted(name) && Chain(name) <= v.Keys && CountsOk(v, locked, Chain(name))
    ensures CountsOk(Unlink(v, name), locked, {})
  {
    UnlinkCounts(v, name);
    forall p | HasNode(Unlink(v, name), p)
      ensures Unlink(v, name)[p].refCount == |Below(p, locked)| && Unlink(v, name)[p].refCount > 0
    {
      assert HasNode(v, p);
    }
  }

  lemma UnlinkKeepsChains(v: Tree, name: string)
    requires Rooted(name) && TreeOk(v, Chain(name))
    ensures forall q <- Locked(v) :: Chain(q) <= Unlink(v, name).Keys
  {
    forall q, p | q in Locked(v) && p in Chain(q)
      ensures p in Unlink(v, name)
    {
      UnlinkKeepsNeeded(v, name, q, p);
    }
  }

  lemma UnlinkKeepsLocked(v: Tree, name: string)
    requires Rooted(name) && Chain(name) <= v.Keys
    requires forall q <- Locked(v) :: q in Unlink(v, name)
    ensures Locked(Unlink(v, name)) == Locked(v)
  {
    UnlinkCounts(v, name);
  }

  lemma UnlinkKeepsTree(v: Tree, name: string)
    requires Rooted(name) && TreeOk(v, Chain(name)) && NamesOk(v)
    ensures TreeOk(Unlink(v, name), {}) && NamesOk(Unlink(v, name))
    ensures Locked(Unlink(v, name)) == Locked(v)
  {
    UnlinkKeepsCounts(v, name, Locked(v));
    UnlinkKeepsChains(v, name);
    UnlinkKeepsLocked(v, name);
    UnlinkCounts(v, name);
  }

  /** The count one lock makes at its chain can stand as extra or be due to the lock. */
  lemma CountsShift(v: Tree, w: Tree, locked: set<string>, name: string)
    requires name !in locked && w.Keys == v.Keys && forall p <- v :: w[p].refCount == v[p].refCount
    ensures CountsOk(v, locked, Chain(name)) <==> CountsOk(w, locked + {name}, {})
  {
    forall p | p in v
      ensures |Below(p, locked + {name})| == |Below(p, locked)| + (if p in Chain(name) then 1 else 0)
    {
      BelowWithMore(p, locked, name);
    }
    if CountsOk(v, locked, Chain(name)) {
      forall p | HasNode(w, p)
        ensures w[p].refCount == |Below(p, locked + {name})| && w[p].refCount > 0
      {
        assert HasNode(v, p);
      }
    }
    if CountsOk(w, locked + {name}, {}) {
      forall p | HasNode(v, p)
        ensures v[p].refCount == |Below(p, locked)| + (if p in Chain(name) then 1 else 0) && v[p].refCount > 0
      {
        assert HasNode(w, p);
      }
    }
  }

  lemma LockedAfter(v: Tree, name: string, n: NodeVal)
    requires name in v
    ensures Locked(v[name := n]) == if n.token != "" then Locked(v) + {name} else Locked(v) - {name}
  {
  }

  /** A linked node becomes locked: the count made for it is now due to it. */
  lemma LockNode(v: Tree, name: string, n: NodeVal)
    requires TreeOk(v, Chain(name)) && name in v && v[name].token == ""
    requires n.token != "" && n.refCount == v[name].refCount
    ensures TreeOk(v[name := n], {})
  {
    LockedAfter(v, name, n);
    CountsShift(v, v[name := n], Locked(v), name);
  }

  /** A locked node stops being locked: what it and its ancestors count for it is now extra. */
  lemma UnlockNode(v: Tree, name: string, n: NodeVal)
    requires TreeOk(v, {}) && name in v && v[name].token != ""
    requires n.token == "" && n.refCount == v[name].refCount
    ensures TreeOk(v[name := n], Chain(name))
  {
    LockedAfter(v, name, n);
    assert name in Locked(v) && Locked(v) - {name} + {name} == Locked(v);
    CountsShift(v[name := n], v, Locked(v) - {name}, name);
  }

  /** Replacing a node's lock data without locking or unlocking it keeps the tree in order. */
  lemma ChangeNode(v: Tree, name: string, n: NodeVal)
    requires TreeOk(v, {}) && name in v
    requires n.refCount == v[name].refCount && (n.token == "" <==> v[name].token == "")
    ensures TreeOk(v[name := n], {})
  {
    var w := v[name := n];
    LockedAfter(v, name, n);
    assert Locked(w) == Locked(v);
    forall p | HasNode(w, p)
      ensures w[p].refCount == |Below(p, Locked(w))| && w[p].refCount > 0
    {
      assert HasNode(v, p);
    }
  }

  /** The same lock data under the names of w, which v has too; only counts may differ. */
  ghost predicate SameLocks(v: Tree, w: Tree) {
    forall p <- w :: p in v && w[p] == v[p].(refCount := w[p].refCount)
  }

  /** All that remove does to the tree and the index: the lock leaves the table, the others
      stay, and so do the nodes of all locked names. */
  lemma RemoveOutcome(v: Tree, roots: map<string, string>, name: string)
    requires TreeOk(v, {}) && NamesOk(v) && LeadsOk(v, roots)
    requires name in v && v[name].token != "" && !v[name].held
    ensures var token := v[name].token;
      var unlocked := v[name := v[name].(token := "")];
      && Rooted(name) && Chain(name) <= unlocked.Keys
      && var w := Unlink(unlocked, name);
      && TreeOk(w, {}) && NamesOk(w) && LeadsOk(w, roots - {token})
      && (Indexed(v, roots) ==> Indexed(w, roots - {token}))
      && SameLocks(unlocked, w) && (forall p <- unlocked :: unlocked[p].token != "" ==> p in w)
      && (forall t <- roots :: t == token || roots[t] in w)
      && Flat(w, roots - {token}) == Flat(v, roots) - {token}
  {
    var token := v[name].token;
    var unlocked := v[name := v[name].(token := "")];
    UnlockNode(v, name, unlocked[name]);
    UnlinkKeepsTree(unlocked, name);
    var w := Unlink(unlocked, name);
    UnlinkSameLocks(unlocked, name);
    forall p | p in unlocked && unlocked[p].token != ""
      ensures p in w
    {
      assert p in Locked(unlocked);
    }
    RemoveKeepsTokens(v, roots, name, unlocked, w);
  }

  lemma UnlinkSameLocks(v: Tree, name: string)
    requires Rooted(name) && Chain(name) <= v.Keys
    ensures SameLocks(v, Unlink(v, name))
  {
    UnlinkCounts(v, name);
  }

  lemma RemoveKeepsTokens(v: Tree, roots: map<string, string>, name: string, unlocked: Tree, w: Tree)
    requires LeadsOk(v, roots) && name in v && v[name].token != ""
    requires unlocked == v[name := v[name].(token := "")]
    requires SameLocks(unlocked, w) && forall p <- unlocked :: unlocked[p].token != "" ==> p in w
    ensures LeadsOk(w, roots - {v[name].token})
    ensures Indexed(v, roots) ==> Indexed(w, roots - {v[name].token})
    ensures Flat(w, roots - {v[name].token}) == Flat(v, roots) - {v[name].token}
  {
  }

  /** A locked node is in the flat table under its token. */
  lemma FlatHas(v: Tree, roots: map<string, string>, name: string)
    requires TokensOk(v, roots) && name in v && v[name].token != ""
    ensures v[name].token in Flat(v, roots) && Flat(v, roots)[v[name].token] == FlatLock(v[name])
  {
  }

  /** And every entry of the flat table is a locked node. */
  lemma FlatComesFrom(v: Tree, roots: map<string, string>, token: string)
    requires TokensOk(v, roots) && token in Flat(v, roots)
    ensures token in roots && roots[token] in v && v[roots[token]].token == token && token != ""
    ensures Flat(v, roots)[token] == FlatLock(v[roots[token]])
  {
  }

  /** Changing the lock data of a locked node changes its entry of the flat table. */
  lemma ChangeOutcome(v: Tree, roots: map<string, string>, name: string, n: NodeVal)
    requires TreeOk(v, {}) && NamesOk(v) && TokensOk(v, roots)
    requires name in v && v[name].token != "" && n.token == v[name].token
    requires n.details.root == name && n.refCount == v[name].refCount
    ensures TreeOk(v[name := n], {}) && NamesOk(v[name := n]) && TokensOk(v[name := n], roots)
    ensures Flat(v[name := n], roots) == Flat(v, roots)[n.token := FlatLock(n)]
  {
    ChangeNode(v, name, n);
    ChangeKeepsTokens(v, roots, name, n);
  }

  lemma ChangeKeepsTokens(v: Tree, roots: map<string, string>, name: string, n: NodeVal)
    requires TokensOk(v, roots) && name in v && v[name].token != "" && n.token == v[name].token
    ensures TokensOk(v[name := n], roots)
    ensures Flat(v[name := n], roots) == Flat(v, roots)[n.token := FlatLock(n)]
  {
  }

  /** All that create does: a lock on a name that was not locked. The index leads to exactly the
      locked nodes again if the token was not in use; if it was, the lock that had it stays on
      its name, where no token leads any more. */
  lemma CreateOutcome(v: Tree, roots: map<string, string>, name: string, n: NodeVal)
    requires Rooted(name) && TreeOk(v, {}) && NamesOk(v) && TokensOk(v, roots)
    requires name !in v || v[name].token == ""
    requires n.token != "" && n.details.root == name
    requires name in Link(v, name) && n.refCount == Link(v, name)[name].refCount
    ensures var w := Link(v, name)[name := n];
      && TreeOk(w, {}) && NamesOk(w) && LeadsOk(w, roots[n.token := name])
      && (Indexed(w, roots[n.token := name]) <==> n.token !in roots)
      && Flat(w, roots[n.token := name]) == Flat(v, roots)[n.token := FlatLock(n)]
      && OnlyNameAdded(v, w, name)
  {
    hide Link, Chain, TreeOk, NamesOk, MoreNodes, Locked, OnlyNameAdded, FlatLock, Flat, TokensOk, LeadsOk, Indexed;
    LinkKeepsTree(v, name);
    LinkSameLocks(v, name);
    var u := Link(v, name);
    UnlockedAfterLink(v, name, u);
    LockNode(u, name, n);
    LockAdded(v, name, n, u);
    CreateKeepsTokens(v, roots, name, n, u);
    LocksLinked(v, roots, name, u);
    CreateAddsToFlat(v, roots, name, n, u[name := n]);
  }

  lemma UnlockedAfterLink(v: Tree, name: string, u: Tree)
    requires MoreNodes(v, u) && name in u && (name !in v || v[name].token == "")
    ensures u[name].token == ""
  {
  }

  lemma LocksLinked(v: Tree, roots: map<string, string>, name: string, u: Tree)
    requires TokensOk(v, roots) && MoreNodes(v, u) && (name !in v || v[name].token == "")
    ensures forall t <- roots ::
              roots[t] in v && roots[t] in u && roots[t] != name && FlatLock(u[roots[t]]) == FlatLock(v[roots[t]])
  {
  }

  lemma LockAdded(v: Tree, name: string, n: NodeVal, u: Tree)
    requires MoreNodes(v, u) && NamesOk(u) && name in u && u[name].token == ""
    requires n.token != "" && n.details.root == name && Locked(u) == Locked(v)
    ensures NamesOk(u[name := n]) && OnlyNameAdded(v, u[name := n], name)
  {
    LockedAfter(u, name, n);
  }

  /** The locks of v are in w under their names and tokens, and besides them only one on name. */
  ghost predicate OnlyNameAdded(v: Tree, w: Tree, name: string) {
    && (forall p <- v :: p != name ==> p in w && w[p] == v[p].(refCount := w[p].refCount))
    && Locked(w) == Locked(v) + {name}
  }

  /** Linking keeps the nodes there are, but for their counts, and adds unlocked ones. */
  ghost predicate MoreNodes(v: Tree, u: Tree) {
    && (forall p <- v :: p in u && u[p] == v[p].(refCount := u[p].refCount))
    && (forall p <- u :: p in v || u[p] == Interior(p).(refCount := u[p].refCount))
  }

  lemma LinkSameLocks(v: Tree, name: string)
    requires Rooted(name)
    ensures MoreNodes(v, Link(v, name))
    ensures name in Link(v, name)
  {
    forall p | p in Link(v, name) || p in v
      ensures p in Link(v, name) && Link(v, name)[p] == Counted(v, p, if p in Chain(name) then 1 else 0)
    {
      LinkCounts(v, name, p);
    }
    LinkCounts(v, name, name);
  }

  lemma CreateKeepsTokens(v: Tree, roots: map<string, string>, name: string, n: NodeVal, u: Tree)
    requires TokensOk(v, roots) && MoreNodes(v, u) && name in u && u[name].token == ""
    requires n.token != ""
    ensures LeadsOk(u[name := n], roots[n.token := name])
    ensures Indexed(u[name := n], roots[n.token := name]) <==> n.token !in roots
  {
    var w := u[name := n];
    forall p | p in w && p != name && w[p].token != ""
      ensures w[p].token in roots && roots[w[p].token] == p
    {
      assert p in v;
    }
    if n.token in roots {
      assert roots[n.token] != name && w[roots[n.token]].token == n.token;
    }
  }

  lemma CreateAddsToFlat(v: Tree, roots: map<string, string>, name: string, n: NodeVal, w: Tree)
    requires name in w && w[name] == n
    requires forall t <- roots :: roots[t] in v && roots[t] in w && FlatLock(w[roots[t]]) == FlatLock(v[roots[t]])
    ensures Flat(w, roots[n.token := name]) == Flat(v, roots)[n.token := FlatLock(n)]
  {
    assert Flat(w, roots[n.token := name]).Keys == Flat(v, roots).Keys + {n.token};
  }

  // ---------------------------------------------------------------- the test before creating

  /** What canCreate's walk asks at each name. */
  predicate Admits(v: Tree, name0: string, first: bool, zeroDepth: bool) {
    name0 in v ==>
      if first then v[name0].token == "" && zeroDepth
      else v[name0].token == "" || v[name0].details.zeroDepth
  }

  /** The answer of canCreate's walk from name0 on. */
  predicate AdmitsToRoot(v: Tree, name0: string, first: bool, zeroDepth: bool)
    requires Rooted(name0)
    decreases |name0|
  {
    Admits(v, name0, first, zeroDepth) && (name0 == "/" || AdmitsToRoot(v, Parent(name0), false, zeroDepth))
  }

  lemma {:induction false} AdmitsAncestors(v: Tree, name0: string, zeroDepth: bool)
    requires Rooted(name0)
    ensures AdmitsToRoot(v, name0, false, zeroDepth) <==> forall p <- Chain(name0) :: Admits(v, p, false, zeroDepth)
    decreases |name0|
  {
    if name0 == "/" {
    } else {
      AdmitsAncestors(v, Parent(name0), zeroDepth);
    }
  }

  /** A name has a node exactly when it or something below it is locked. */
  lemma NodeMeansLockBelow(v: Tree, name: string)
    requires TreeOk(v, {})
    ensures name in v <==> exists q <- Locked(v) :: name in Chain(q)
  {
    if name in v {
      assert HasNode(v, name);
      assert Below(name, Locked(v)) != {};
      var q :| q in Below(name, Locked(v));
    }
  }

  /** No locked node is in conflict with a lock on the name. */
  ghost predicate NoConflict(v: Tree, name: string, zeroDepth: bool) {
    forall q <- Locked(v) :: !Conflicts(FlatLock(v[q]), name, zeroDepth)
  }

  /** The walk's answer: no locked node is in conflict. */
  lemma AdmitsIsNoConflict(v: Tree, name: string, zeroDepth: bool)
    requires Rooted(name) && TreeOk(v, {}) && NamesOk(v)
    ensures AdmitsToRoot(v, name, true, zeroDepth) <==> NoConflict(v, name, zeroDepth)
  {
    if name != "/" {
      AdmitsAncestors(v, Parent(name), zeroDepth);
    }
    assert Chain(name) == {name} + if name == "/" then {} else Chain(Parent(name));
    if !AdmitsToRoot(v, name, true, zeroDepth) {
      RefusalIsConflict(v, name, zeroDepth);
    } else {
      forall q | q in Locked(v)
        ensures !Conflicts(FlatLock(v[q]), name, zeroDepth)
      {
        AdmittedIsFree(v, name, zeroDepth, q);
      }
    }
  }

  /** Where every locked node has its token, it is the flat table's: no live lock is in conflict. */
  lemma AdmitsIsCanCreate(v: Tree, roots: map<string, string>, name: string, zeroDepth: bool)
    requires Rooted(name) && TreeOk(v, {}) && NamesOk(v) && TokensOk(v, roots)
    ensures AdmitsToRoot(v, name, true, zeroDepth) <==> CanCreate(Flat(v, roots), name, zeroDepth)
  {
    AdmitsIsNoConflict(v, name, zeroDepth);
    NoConflictIsCanCreate(v, roots, name, zeroDepth);
  }

  lemma NoConflictIsCanCreate(v: Tree, roots: map<string, string>, name: string, zeroDepth: bool)
    requires TokensOk(v, roots)
    ensures NoConflict(v, name, zeroDepth) <==> CanCreate(Flat(v, roots), name, zeroDepth)
  {
    forall q | q in Locked(v)
      ensures v[q].token in Flat(v, roots) && Flat(v, roots)[v[q].token] == FlatLock(v[q])
    {
      FlatHas(v, roots, q);
    }
    forall k | k in Flat(v, roots)
      ensures roots[k] in Locked(v) && Flat(v, roots)[k] == FlatLock(v[roots[k]])
    {
      FlatComesFrom(v, roots, k);
    }
  }

  /** After create the walk refuses what conflicts with the new lock or with any there was, the
      one whose token was taken over included. */
  lemma AdmitsAfterCreate(v: Tree, w: Tree, roots: map<string, string>, added: string, name: string, zeroDepth: bool)
    requires TreeOk(w, {}) && NamesOk(w) && Rooted(name)
    requires TokensOk(v, roots) && OnlyNameAdded(v, w, added) && added in w && added !in Locked(v)
    ensures AdmitsToRoot(w, name, true, zeroDepth) <==>
            CanCreate(Flat(v, roots), name, zeroDepth) && !Conflicts(FlatLock(w[added]), name, zeroDepth)
  {
    AdmitsIsNoConflict(w, name, zeroDepth);
    NoConflictIsCanCreate(v, roots, name, zeroDepth);
    forall q | q in Locked(v)
      ensures q in Locked(w) && FlatLock(w[q]) == FlatLock(v[q])
    {
    }
    assert NoConflict(w, name, zeroDepth) <==>
           NoConflict(v, name, zeroDepth) && !Conflicts(FlatLock(w[added]), name, zeroDepth);
  }

  lemma RefusalIsConflict(v: Tree, name: string, zeroDepth: bool)
    requires Rooted(name) && TreeOk(v, {}) && NamesOk(v)
    requires !Admits(v, name, true, zeroDepth)
             || (name != "/" && exists p <- Chain(Parent(name)) :: !Admits(v, p, false, zeroDepth))
    ensures !NoConflict(v, name, zeroDepth)
  {
    if !Admits(v, name, true, zeroDepth) {
      NodeMeansLockBelow(v, name);
      var q := name;
      if v[name].token == "" {
        q :| q in Locked(v) && name in Chain(q);
      }
      assert q in Locked(v) && Conflicts(FlatLock(v[q]), name, zeroDepth);
    } else {
      var p :| p in Chain(Parent(name)) && !Admits(v, p, false, zeroDepth);
      assert p in Locked(v) && Conflicts(FlatLock(v[p]), name, zeroDepth);
    }
  }

  lemma AdmittedIsFree(v: Tree, name: string, zeroDepth: bool, q: string)
    requires Rooted(name) && TreeOk(v, {}) && NamesOk(v)
    requires Admits(v, name, true, zeroDepth)
    requires name == "/" || forall p <- Chain(Parent(name)) :: Admits(v, p, false, zeroDepth)
    requires q in v && v[q].token != ""
    ensures !Conflicts(FlatLock(v[q]), name, zeroDepth)
  {
    NodeMeansLockBelow(v, name);
    assert q in Locked(v);
    assert v[q].details.root == q;
    assert Chain(name) == {name} + if name == "/" then {} else Chain(Parent(name));
    hide Chain;
    if q in Chain(name) && q != name {
      assert name != "/" && q in Chain(Parent(name));
      assert Admits(v, q, false, zeroDepth);
    }
    if name in Chain(q) {
      assert name in v;
    }
  }
}
