/** Whole runs: a client makes any calls on a fresh lock system, in any order, and releases
    each confirmation at most once. The structure goes through exactly the states the flat
    table goes through, so what LockTable proves of every run holds of it, and no call of hold
    or unhold ever meets a node in the wrong state. */
module LockRuns {
  import opened LockTable
  import opened ExpiryHeap
  import opened MemLS

  /** What a client keeps of a successful Confirm until it calls release. */
  datatype Receipt = Receipt(n0: Node?, n1: Node?)

  class Client {
    const ls: LockSystem
    var receipts: seq<Receipt>
    ghost var world: World

    /** The receipt is for exactly these locks, and they are still held. */
    ghost predicate ReceiptFor(r: Receipt, claim: set<string>)
      reads ls, ls.repr
    {
      && (r.n0 != null ==> r.n0 in ls.repr) && (r.n1 != null ==> r.n1 in ls.repr)
      && ls.Claims(r.n0, r.n1) && ls.ClaimOf(r.n0, r.n1) == claim
    }

    ghost predicate ReceiptsOk(claims: seq<set<string>>)
      reads this`receipts, ls, ls.repr
    {
      && |receipts| == |claims|
      && forall i :: 0 <= i < |receipts| ==> ReceiptFor(receipts[i], claims[i])
    }

    /** The client is at a state of the flat run, and everything is in order there. */
    ghost predicate Follows()
      reads this, ls, ls.repr, ls.byExpiry
    {
      ls.Valid() && world.locks == ls.State() && Invariant(world) && ReceiptsOk(world.claims)
    }

    constructor (gen: nat)
      ensures Follows() && world == LockTable.Fresh(gen)
      ensures fresh(ls) && fresh(ls.byExpiry) && ls.repr == {}
    {
      hide LockSystem.Valid, LockSystem.State, Invariant;
      FreshIsInOrder(gen);
      ls := new LockSystem(gen);
      receipts := [];
      world := LockTable.Fresh(gen);
    }

    twostate lemma ReceiptsStay(claims: seq<set<string>>)
      requires old(ReceiptsOk(claims)) && receipts == old(receipts)
      requires old(ls.repr) <= ls.repr && ls.HeldStay(null, null)
      ensures ReceiptsOk(claims)
    {
      forall i | 0 <= i < |receipts|
        ensures ReceiptFor(receipts[i], claims[i])
      {
        assert old(ReceiptFor(receipts[i], claims[i]));
      }
    }

    method Create(now: int, details: LockDetails) returns (r: Result<string>)
      requires Follows() && world.locks.gen < MAX_UINT64
      modifies this, ls, ls.repr, ls.byExpiry
      ensures Follows() && fresh(ls.repr - old(ls.repr)) && world == Step(old(world), CallCreate(now, details))
      ensures r == LockTable.Create(old(world.locks), now, details).1
    {
      hide LockSystem.Valid, LockSystem.Shaped, LockSystem.TakesOver, LockSystem.Table;
      hide Invariant, LockTable.Create, Collect;
      NextTokenUnused(world, now);
      StepKeepsInvariant(world, CallCreate(now, details));
      NewTokenIsNext(world.locks, now, details);
      r := ls.Create(now, details);
      ReceiptsStay(world.claims);
      world := Step(world, CallCreate(now, details));
    }

    method Refresh(now: int, token: string, duration: int) returns (r: Result<LockDetails>)
      requires Follows() && world.locks.gen < MAX_UINT64
      modifies this, ls, ls.repr, ls.byExpiry
      ensures Follows() && ls.repr == old(ls.repr) && world == Step(old(world), CallRefresh(now, token, duration))
      ensures r == LockTable.Refresh(old(world.locks), now, token, duration).1
    {
      hide LockSystem.Valid, Invariant, LockSystem.Table, LockTable.Refresh;
      StepKeepsInvariant(world, CallRefresh(now, token, duration));
      r := ls.Refresh(now, token, duration);
      ReceiptsStay(world.claims);
      world := Step(world, CallRefresh(now, token, duration));
    }

    method Unlock(now: int, token: string) returns (r: Result<()>)
      requires Follows() && world.locks.gen < MAX_UINT64
      modifies this, ls, ls.repr, ls.byExpiry
      ensures Follows() && ls.repr == old(ls.repr) && world == Step(old(world), CallUnlock(now, token))
      ensures r == LockTable.Unlock(old(world.locks), now, token).1
    {
      hide LockSystem.Valid, Invariant, LockSystem.Table, LockTable.Unlock;
      StepKeepsInvariant(world, CallUnlock(now, token));
      r := ls.Unlock(now, token);
      ReceiptsStay(world.claims);
      world := Step(world, CallUnlock(now, token));
    }

    method Confirm(now: int, name0: string, name1: string, conditions: seq<Condition>) returns (ok: bool)
      requires Follows() && world.locks.gen < MAX_UINT64
      modifies this, ls, ls.repr, ls.byExpiry
      ensures Follows() && ls.repr == old(ls.repr)
      ensures world == Step(old(world), CallConfirm(now, name0, name1, conditions))
      ensures ok == LockTable.Confirm(old(world.locks), now, name0, name1, conditions).1.Ok?
    {
      hide LockSystem.Valid, Invariant, LockSystem.Table, LockTable.Confirm;
      StepKeepsInvariant(world, CallConfirm(now, name0, name1, conditions));
      var n0, n1;
      ok, n0, n1 := ls.Confirm(now, name0, name1, conditions);
      ReceiptsStay(world.claims);
      world := Step(world, CallConfirm(now, name0, name1, conditions));
      if ok {
        receipts := receipts + [Receipt(n0, n1)];
      }
    }

    /** A release touches no other receipt's nodes. */
    twostate lemma OtherReceiptsStay(i: nat)
      requires old(ReceiptsOk(world.claims)) && receipts == old(receipts) && world == old(world) && i < |receipts|
      requires old(ls.repr) <= ls.repr && ls.HeldStay(receipts[i].n0, receipts[i].n1)
      requires forall j :: 0 <= j < |world.claims| && j != i ==> world.claims[i] !! world.claims[j]
      ensures forall j :: 0 <= j < |receipts| && j != i ==> ReceiptFor(receipts[j], world.claims[j])
    {
      forall j | 0 <= j < |receipts| && j != i
        ensures ReceiptFor(receipts[j], world.claims[j])
      {
        assert old(ReceiptFor(receipts[i], world.claims[i])) && old(ReceiptFor(receipts[j], world.claims[j]));
        assert world.claims[i] !! world.claims[j];
      }
    }

    method Release(i: nat)
      requires Follows() && world.locks.gen < MAX_UINT64 && i < |receipts|
      modifies this, ls, ls.repr, ls.byExpiry
      ensures Follows() && ls.repr == old(ls.repr) && world == Step(old(world), CallRelease(i))
    {
      hide LockSystem.Valid, Invariant, LockSystem.Table, LockTable.Release;
      StepKeepsInvariant(world, CallRelease(i));
      forall j | 0 <= j < |world.claims| && j != i
        ensures world.claims[i] !! world.claims[j]
      {
        ClaimsDisjoint(world, i, j);
      }
      assert ReceiptFor(receipts[i], world.claims[i]);
      ls.Release(receipts[i].n0, receipts[i].n1);
      OtherReceiptsStay(i);
      world := Step(world, CallRelease(i));
      receipts := receipts[i := Receipt(null, null)];
    }

    /** One call of the client's choice. A release that is not due is not made. */
    method Make(call: Call)
      requires Follows() && world.locks.gen < MAX_UINT64
      modifies this, ls, ls.repr, ls.byExpiry
      ensures Follows() && fresh(ls.repr - old(ls.repr)) && world == Step(old(world), call)
    {
      match call
      case CallCreate(now, details) =>
        var _ := Create(now, details);
      case CallConfirm(now, name0, name1, conditions) =>
        var _ := Confirm(now, name0, name1, conditions);
      case CallRelease(i) =>
        if i < |receipts| {
          Release(i);
        }
      case CallRefresh(now, token, duration) =>
        var _ := Refresh(now, token, duration);
      case CallUnlock(now, token) =>
        var _ := Unlock(now, token);
    }
  }

  /** Any run on a fresh lock system ends where the flat run ends. */
  method RunAll(gen: nat, calls: seq<Call>) returns (client: Client)
    requires gen + |calls| <= MAX_UINT64
    ensures client.Follows() && client.world == Run(LockTable.Fresh(gen), calls)
  {
    hide LockSystem.Valid, Invariant, LockSystem.State;
    FreshIsInOrder(gen);
    client := new Client(gen);
    for i := 0 to |calls|
      invariant client.Follows() && client.world == Run(LockTable.Fresh(gen), calls[..i])
      invariant fresh(client) && fresh(client.ls) && fresh(client.ls.byExpiry) && fresh(client.ls.repr)
    {
      RunKeepsInvariant(LockTable.Fresh(gen), calls[..i]);
      assert calls[..i + 1][..i] == calls[..i];
      client.Make(calls[i]);
    }
    assert calls[..|calls|] == calls;
  }
}
