/** The lock system as its documentation describes it: a table from token to lock. A lock is
    on a root, with zero or infinite depth, expires or not, and may be held by a confirmation.
    The data structure in MemLS is proved to act on this table. */
module LockTable {
  import opened Decimals
  import opened Options
  import opened Paths

  datatype LockError = ErrConfirmationFailed | ErrLocked | ErrNoSuchLock

  datatype Result<+T> = Ok(value: T) | Err(error: LockError)

  /** A negative duration is infinite. Without zero depth a lock has infinite depth. */
  datatype LockDetails = LockDetails(root: string, duration: int, owner: string, zeroDepth: bool)

  datatype Lock = Lock(details: LockDetails, expiry: Option<int>, held: bool)

  datatype Condition = Condition(negated: bool, token: string, etag: string)

  type Table = map<string, Lock>

  /** The generator is a 64-bit counter; the last token handed out is its decimal form. */
  datatype LockState = LockState(table: Table, gen: nat)

  const MAX_UINT64: nat := 0xFFFF_FFFF_FFFF_FFFF

  function NextGen(gen: nat): nat {
    if gen >= MAX_UINT64 then 0 else gen + 1
  }

  // ---------------------------------------------------------------- the operations

  /** A held lock never expires, nor does one with infinite duration. */
  predicate Expired(lock: Lock, now: int) {
    !lock.held && lock.expiry.Some? && lock.expiry.value <= now
  }

  function Collect(t: Table, now: int): Table {
    map k | k in t && !Expired(t[k], now) :: t[k]
  }

  /** The lock is on this very name, or is of infinite depth on an ancestor of it. */
  predicate Covers(lock: Lock, name: string) {
    name == lock.details.root || (!lock.details.zeroDepth && lock.details.root in Chain(name))
  }

  /** A lock wanted on root would have to share a resource with this one. */
  predicate Conflicts(lock: Lock, root: string, zeroDepth: bool) {
    Covers(lock, root) || (!zeroDepth && root in Chain(lock.details.root))
  }

  predicate CanCreate(t: Table, root: string, zeroDepth: bool) {
    forall k <- t :: !Conflicts(t[k], root, zeroDepth)
  }

  function NewLock(details: LockDetails, now: int): Lock {
    Lock(details, if details.duration >= 0 then Some(now + details.duration) else None, false)
  }

  function Create(s: LockState, now: int, details: LockDetails): (LockState, Result<string>) {
    var t := Collect(s.table, now);
    var clean := details.(root := SlashClean(details.root));
    if !CanCreate(t, clean.root, clean.zeroDepth) then (LockState(t, s.gen), Err(ErrLocked))
    else
      var gen := NextGen(s.gen);
      (LockState(t[Decimal(gen) := NewLock(clean, now)], gen), Ok(Decimal(gen)))
  }

  /** The first condition whose token names an unheld lock that covers the name. Negation and
      entity tags are not looked at. */
  function Lookup(t: Table, name: string, conditions: seq<Condition>): Option<string> {
    if conditions == [] then None
    else
      var k := conditions[0].token;
      if k in t && !t[k].held && Covers(t[k], name) then Some(k)
      else Lookup(t, name, conditions[1..])
  }

  /** The tokens to hold for one name; an empty name claims nothing. */
  function Claim(t: Table, name: string, conditions: seq<Condition>): Option<set<string>> {
    if name == "" then Some({})
    else
      match Lookup(t, SlashClean(name), conditions)
      case Some(k) => Some({k})
      case None => None
  }

  function SetHeld(t: Table, tokens: set<string>, held: bool): Table {
    map k | k in t :: if k in tokens then t[k].(held := held) else t[k]
  }

  function Confirm(s: LockState, now: int, name0: string, name1: string, conditions: seq<Condition>)
    : (LockState, Result<set<string>>)
  {
    var t := Collect(s.table, now);
    match (Claim(t, name0, conditions), Claim(t, name1, conditions))
    case (Some(c0), Some(c1)) => (LockState(SetHeld(t, c0 + c1, true), s.gen), Ok(c0 + c1))
    case _ => (LockState(t, s.gen), Err(ErrConfirmationFailed))
  }

  function Release(s: LockState, tokens: set<string>): LockState {
    s.(table := SetHeld(s.table, tokens, false))
  }

  function Refresh(s: LockState, now: int, token: string, duration: int): (LockState, Result<LockDetails>) {
    var t := Collect(s.table, now);
    if token !in t then (LockState(t, s.gen), Err(ErrNoSuchLock))
    else if t[token].held then (LockState(t, s.gen), Err(ErrLocked))
    else
      var details := t[token].details.(duration := duration);
      (LockState(t[token := NewLock(details, now)], s.gen), Ok(details))
  }

  function Unlock(s: LockState, now: int, token: string): (LockState, Result<()>) {
    var t := Collect(s.table, now);
    if token !in t then (LockState(t, s.gen), Err(ErrNoSuchLock))
    else if t[token].held then (LockState(t, s.gen), Err(ErrLocked))
    else (LockState(t - {token}, s.gen), Ok(()))
  }

  // ---------------------------------------------------------------- what the operations come to

  /** The lock is there and has not expired: it is held, or infinite, or its time is still to come. */
  ghost predicate Live(t: Table, now: int, token: string) {
    token in t && (t[token].held || t[token].expiry.None? || now < t[token].expiry.value)
  }

  /** Nothing has changed but that locks have expired, and, perhaps, for one token. */
  ghost predicate OthersKept(t: Table, now: int, t': Table, token: string) {
    forall k :: k != token ==> (k in t' <==> Live(t, now, k)) && (k in t' ==> t'[k] == t[k])
  }

  ghost predicate AllKept(t: Table, now: int, t': Table) {
    forall k :: (k in t' <==> Live(t, now, k)) && (k in t' ==> t'[k] == t[k])
  }

  /** A lock is on its root, and without zero depth on all names below it. */
  lemma CoversIff(lock: Lock, name: string)
    requires Rooted(lock.details.root) && Rooted(name)
    ensures Covers(lock, name) <==>
      || name == lock.details.root
      || (!lock.details.zeroDepth && (lock.details.root == "/" || lock.details.root + "/" <= name))
  {
    PrefixTestIsChain(lock.details.root, name);
  }

  /** Two locks are in conflict exactly if there is a resource that both are on. */
  lemma ConflictIff(a: Lock, b: Lock)
    requires Rooted(a.details.root) && Rooted(b.details.root)
    ensures Conflicts(a, b.details.root, b.details.zeroDepth) <==>
            exists name :: Rooted(name) && Covers(a, name) && Covers(b, name)
  {
    var ra, rb := a.details.root, b.details.root;
    if Conflicts(a, rb, b.details.zeroDepth) {
      var name := if Covers(a, rb) then rb else ra;
      assert Covers(a, name) && Covers(b, name);
    }
    if name :| Rooted(name) && Covers(a, name) && Covers(b, name) {
      ChainLinear(ra, rb, name);
    }
  }

  lemma CollectKeepsLive(t: Table, now: int)
    ensures AllKept(t, now, Collect(t, now))
  {
  }

  /** Create succeeds exactly if no live lock is in conflict with the one wanted. That is then under
      the next token, on the cleaned root, not held, and expires when its duration has passed, or
      never. */
  lemma CreateLaw(s: LockState, now: int, details: LockDetails)
    ensures var (s', r) := Create(s, now, details);
      var root := SlashClean(details.root);
      && (r.Ok? <==> forall k :: Live(s.table, now, k) ==> !Conflicts(s.table[k], root, details.zeroDepth))
      && (r.Err? ==> r.error == ErrLocked && s'.gen == s.gen && AllKept(s.table, now, s'.table))
      && (r.Ok? ==>
            && s'.gen == (if s.gen >= 0xFFFF_FFFF_FFFF_FFFF then 0 else s.gen + 1) && r.value == Decimal(s'.gen)
            && OthersKept(s.table, now, s'.table, r.value) && r.value in s'.table
            && s'.table[r.value].details == LockDetails(root, details.duration, details.owner, details.zeroDepth)
            && !s'.table[r.value].held
            && s'.table[r.value].expiry == if details.duration < 0 then None else Some(now + details.duration))
  {
    CollectKeepsLive(s.table, now);
  }

  /** A new lock is live until its duration has passed, if it has one and is not held. */
  lemma LockLives(s: LockState, now: int, details: LockDetails, later: int)
    ensures var (s', r) := Create(s, now, details);
      r.Ok? ==> (r.value in Collect(s'.table, later) <==> details.duration < 0 || later < now + details.duration)
  {
  }

  /** Refresh succeeds exactly if the lock is live and not held. It then has the new duration, and
      expires when that has passed from now on, or never. */
  lemma RefreshLaw(s: LockState, now: int, token: string, duration: int)
    ensures var (s', r) := Refresh(s, now, token, duration);
      && (r.Ok? <==> Live(s.table, now, token) && !s.table[token].held)
      && (r == Err(ErrNoSuchLock) <==> !Live(s.table, now, token))
      && (r == Err(ErrLocked) <==> Live(s.table, now, token) && s.table[token].held)
      && s'.gen == s.gen && OthersKept(s.table, now, s'.table, token)
      && (r.Err? ==> AllKept(s.table, now, s'.table))
      && (r.Ok? ==>
            var was := s.table[token].details;
            && r.value == LockDetails(was.root, duration, was.owner, was.zeroDepth)
            && token in s'.table && s'.table[token].details == r.value && !s'.table[token].held
            && s'.table[token].expiry == if duration < 0 then None else Some(now + duration))
  {
    CollectKeepsLive(s.table, now);
  }

  /** The outcome of an unlocking: it succeeds exactly if the lock is live and not held, and then the
      token is gone. */
  ghost predicate Unlocked(t: Table, now: int, token: string, t': Table, r: Result<()>) {
    && (r.Ok? <==> Live(t, now, token) && !t[token].held)
    && (r == Err(ErrNoSuchLock) <==> !Live(t, now, token))
    && (r == Err(ErrLocked) <==> Live(t, now, token) && t[token].held)
    && (r.Ok? ==> token !in t') && (r.Err? ==> AllKept(t, now, t')) && OthersKept(t, now, t', token)
  }

  lemma UnlockLaw(s: LockState, now: int, token: string)
    ensures var (s', r) := Unlock(s, now, token); s'.gen == s.gen && Unlocked(s.table, now, token, s'.table, r)
  {
    CollectKeepsLive(s.table, now);
  }

  /** After it, a lock can be made that only this one was in the way of. */
  lemma UnlockFrees(s: LockState, now: int, token: string, details: LockDetails)
    requires Unlock(s, now, token).1.Ok?
    requires forall k :: Live(s.table, now, k) && k != token ==>
      !Conflicts(s.table[k], SlashClean(details.root), details.zeroDepth)
    ensures Create(Unlock(s, now, token).0, now, details).1.Ok?
  {
    UnlockLaw(s, now, token);
    CreateLaw(Unlock(s, now, token).0, now, details);
    hide Unlock, Create, Conflicts;
  }

  /** The lock named by one of the conditions that covers a name, if the name is given. */
  ghost predicate Taken(t: Table, now: int, name: string, conditions: seq<Condition>, token: string) {
    && name != "" && Live(t, now, token) && !t[token].held && Covers(t[token], SlashClean(name))
    && exists c <- conditions :: c.token == token
  }

  /** If Confirm succeeds, for each name given a live lock that covers it is now held that was not;
      and there are no others. If not, nothing is held, and for one of the names there is no lock. */
  lemma ConfirmLaw(s: LockState, now: int, name0: string, name1: string, conditions: seq<Condition>)
    ensures var (s', r) := Confirm(s, now, name0, name1, conditions);
      && s'.gen == s.gen
      && (r.Err? ==> r.error == ErrConfirmationFailed && AllKept(s.table, now, s'.table))
      && (r.Err? <==> exists name <- [name0, name1] ::
            name != "" && forall k :: !Taken(s.table, now, name, conditions, k))
      && (r.Ok? ==>
            && (forall name <- [name0, name1] :: name != "" ==>
                  exists k <- r.value :: Taken(s.table, now, name, conditions, k))
            && (forall k <- r.value ::
                  Taken(s.table, now, name0, conditions, k) || Taken(s.table, now, name1, conditions, k))
            && (forall k :: k in s'.table <==> Live(s.table, now, k))
            && (forall k <- s'.table :: s'.table[k].details == s.table[k].details)
            && (forall k <- s'.table :: s'.table[k].expiry == s.table[k].expiry)
            && (forall k <- s'.table :: s'.table[k].held <==> s.table[k].held || k in r.value))
  {
    CollectKeepsLive(s.table, now);
    ClaimLaw(s.table, now, name0, conditions);
    ClaimLaw(s.table, now, name1, conditions);
    assert name0 in [name0, name1] && name1 in [name0, name1];
    hide Claim, Collect, Taken, Covers;
  }

  lemma ClaimLaw(t: Table, now: int, name: string, conditions: seq<Condition>)
    ensures var r := Claim(Collect(t, now), name, conditions);
      && (r.None? <==> name != "" && forall k :: !Taken(t, now, name, conditions, k))
      && (r.Some? && name == "" ==> r.value == {})
      && (r.Some? && name != "" ==> exists k :: r.value == {k} && Taken(t, now, name, conditions, k))
  {
    CollectKeepsLive(t, now);
    LookupFinds(Collect(t, now), SlashClean(name), conditions);
    var r := Claim(Collect(t, now), name, conditions);
    if r.Some? && name != "" {
      var k :| r.value == {k};
      assert Taken(t, now, name, conditions, k);
    }
    hide Collect, Covers, Lookup;
  }

  /** Release frees these locks, and nothing else changes. */
  lemma ReleaseLaw(s: LockState, tokens: set<string>)
    ensures var s' := Release(s, tokens);
      && s'.gen == s.gen && s'.table.Keys == s.table.Keys
      && forall k <- s.table ::
           s'.table[k] == Lock(s.table[k].details, s.table[k].expiry, s.table[k].held && k !in tokens)
  {
  }

  // ---------------------------------------------------------------- runs

  /** One call on the lock system. Release names an earlier successful Confirm by its position. */
  datatype Call =
    | CallCreate(now: int, details: LockDetails)
    | CallConfirm(now: int, name0: string, name1: string, conditions: seq<Condition>)
    | CallRelease(claim: nat)
    | CallRefresh(now: int, token: string, duration: int)
    | CallUnlock(now: int, token: string)

  /** claims[i] are the tokens the i-th successful Confirm still holds; {} once released. */
  datatype World = World(locks: LockState, claims: seq<set<string>>)

  function Step(w: World, call: Call): World {
    match call
    case CallCreate(now, details) => w.(locks := Create(w.locks, now, details).0)
    case CallConfirm(now, name0, name1, conditions) =>
      var (locks, r) := Confirm(w.locks, now, name0, name1, conditions);
      World(locks, if r.Ok? then w.claims + [r.value] else w.claims)
    case CallRelease(i) =>
      if i < |w.claims| then World(Release(w.locks, w.claims[i]), w.claims[i := {}]) else w
    case CallRefresh(now, token, duration) => w.(locks := Refresh(w.locks, now, token, duration).0)
    case CallUnlock(now, token) => w.(locks := Unlock(w.locks, now, token).0)
  }

  function Run(w: World, calls: seq<Call>): World {
    if calls == [] then w else Step(Run(w, calls[..|calls| - 1]), calls[|calls| - 1])
  }

  function Fresh(gen: nat): World {
    World(LockState(map[], gen), [])
  }

  // ---------------------------------------------------------------- what every run keeps

  /** No two locks of the table want the same resource. */
  ghost predicate Exclusive(t: Table) {
    forall a, b :: a in t && b in t && a != b ==>
      !Conflicts(t[a], t[b].details.root, t[b].details.zeroDepth)
  }

  ghost predicate Issued(token: string, gen: nat) {
    exists n: nat :: n <= gen && token == Decimal(n)
  }

  ghost predicate Claimed(claims: seq<set<string>>, token: string) {
    exists i :: 0 <= i < |claims| && token in claims[i]
  }

  ghost predicate HeldIn(t: Table, token: string) {
    token in t && t[token].held
  }

  /** The held locks are those of the outstanding confirmations, and each belongs to one. */
  ghost predicate ClaimsMatch(t: Table, claims: seq<set<string>>) {
    && (forall k :: HeldIn(t, k) <==> Claimed(claims, k))
    && (forall i, j, k :: 0 <= i < j < |claims| && k in claims[i] ==> k !in claims[j])
  }

  ghost predicate Invariant(w: World) {
    && Exclusive(w.locks.table)
    && ClaimsMatch(w.locks.table, w.claims)
    && forall k <- w.locks.table :: Issued(k, w.locks.gen)
  }

  lemma FreshIsInOrder(gen: nat)
    ensures Invariant(Fresh(gen))
  {
  }

  lemma ConflictsSymmetric(a: Lock, b: Lock)
    ensures Conflicts(a, b.details.root, b.details.zeroDepth) == Conflicts(b, a.details.root, a.details.zeroDepth)
  {
  }

  /** A table whose locks all stood in an exclusive table, on the same resources. */
  lemma PartStaysExclusive(t: Table, part: Table)
    requires Exclusive(t)
    requires forall k <- part :: k in t && part[k].details.root == t[k].details.root
                                 && part[k].details.zeroDepth == t[k].details.zeroDepth
    ensures Exclusive(part)
  {
    forall a, b | a in part && b in part && a != b
      ensures !Conflicts(part[a], part[b].details.root, part[b].details.zeroDepth)
    {
      assert !Conflicts(t[a], t[b].details.root, t[b].details.zeroDepth);
    }
  }

  lemma CollectKeepsInvariant(w: World, now: int)
    requires Invariant(w)
    ensures Invariant(w.(locks := w.locks.(table := Collect(w.locks.table, now))))
  {
    var t := Collect(w.locks.table, now);
    PartStaysExclusive(w.locks.table, t);
    assert forall k :: HeldIn(t, k) <==> HeldIn(w.locks.table, k);
  }

  lemma AddKeepsExclusive(t: Table, token: string, lock: Lock)
    requires Exclusive(t) && CanCreate(t, lock.details.root, lock.details.zeroDepth)
    ensures Exclusive(t[token := lock])
  {
    var t' := t[token := lock];
    forall a, b | a in t' && b in t' && a != b
      ensures !Conflicts(t'[a], t'[b].details.root, t'[b].details.zeroDepth)
    {
      if a == token {
        ConflictsSymmetric(t'[a], t'[b]);
      }
    }
  }

  lemma ReplaceKeepsExclusive(t: Table, token: string, lock: Lock)
    requires Exclusive(t) && token in t
    requires lock.details.root == t[token].details.root && lock.details.zeroDepth == t[token].details.zeroDepth
    ensures Exclusive(t[token := lock])
  {
    PartStaysExclusive(t, t[token := lock]);
  }

  lemma AddKeepsClaims(t: Table, claims: seq<set<string>>, token: string, lock: Lock)
    requires ClaimsMatch(t, claims) && !HeldIn(t, token) && !lock.held
    ensures ClaimsMatch(t[token := lock], claims)
  {
    assert forall k :: HeldIn(t[token := lock], k) <==> HeldIn(t, k);
  }

  lemma IssuedMore(token: string, gen: nat, more: nat)
    requires Issued(token, gen) && gen <= more
    ensures Issued(token, more)
  {
    var n: nat :| n <= gen && token == Decimal(n);
  }

  lemma CreateKeepsInvariant(w: World, now: int, details: LockDetails)
    requires Invariant(w) && w.locks.gen < MAX_UINT64
    ensures Invariant(w.(locks := Create(w.locks, now, details).0))
  {
    CollectKeepsInvariant(w, now);
    var t := Collect(w.locks.table, now);
    var (s, r) := Create(w.locks, now, details);
    if r.Ok? {
      var token := Decimal(w.locks.gen + 1);
      var lock := NewLock(details.(root := SlashClean(details.root)), now);
      TokenNotIssued(w.locks.gen);
      AddKeepsExclusive(t, token, lock);
      AddKeepsClaims(t, w.claims, token, lock);
      assert Issued(token, s.gen);
      forall k | k in t
        ensures Issued(k, s.gen)
      {
        IssuedMore(k, w.locks.gen, s.gen);
      }
    }
  }

  lemma TokenNotIssued(gen: nat)
    ensures !Issued(Decimal(gen + 1), gen)
  {
    if Issued(Decimal(gen + 1), gen) {
      var n: nat :| n <= gen && Decimal(gen + 1) == Decimal(n);
      DecimalInjective(gen + 1, n);
    }
  }

  lemma {:induction false} LookupFinds(t: Table, name: string, conditions: seq<Condition>)
    ensures var r := Lookup(t, name, conditions);
      && (r.Some? ==> r.value in t && !t[r.value].held && Covers(t[r.value], name) &&
                      exists c <- conditions :: c.token == r.value)
      && (r.None? ==> forall c <- conditions :: c.token !in t || t[c.token].held || !Covers(t[c.token], name))
  {
    if conditions == [] {
    } else {
      LookupFinds(t, name, conditions[1..]);
      assert conditions == [conditions[0]] + conditions[1..];
    }
  }

  /** What a confirmation takes hold of: live, unheld locks. */
  lemma ConfirmOutcome(s: LockState, now: int, name0: string, name1: string, conditions: seq<Condition>)
    ensures var t := Collect(s.table, now);
      var (s', r) := Confirm(s, now, name0, name1, conditions);
      && s'.gen == s.gen
      && (r.Ok? ==> s'.table == SetHeld(t, r.value, true) && forall k <- r.value :: k in t && !t[k].held)
      && (r.Err? ==> s'.table == t)
  {
    var t := Collect(s.table, now);
    LookupFinds(t, SlashClean(name0), conditions);
    LookupFinds(t, SlashClean(name1), conditions);
  }

  lemma HoldKeepsInvariant(w: World, tokens: set<string>)
    requires Invariant(w) && forall k <- tokens :: k in w.locks.table && !w.locks.table[k].held
    ensures Invariant(World(w.locks.(table := SetHeld(w.locks.table, tokens, true)), w.claims + [tokens]))
  {
    var t, claims := SetHeld(w.locks.table, tokens, true), w.claims + [tokens];
    PartStaysExclusive(w.locks.table, t);
    forall k
      ensures HeldIn(t, k) <==> Claimed(claims, k)
    {
      assert HeldIn(t, k) <==> HeldIn(w.locks.table, k) || k in tokens;
      if Claimed(w.claims, k) {
        var i :| 0 <= i < |w.claims| && k in w.claims[i];
        assert k in claims[i];
      }
      if k in tokens {
        assert k in claims[|w.claims|];
      }
    }
    forall i, j, k | 0 <= i < j < |claims| && k in claims[i]
      ensures k !in claims[j]
    {
      assert Claimed(w.claims, k) && HeldIn(w.locks.table, k);
    }
  }

  lemma ConfirmKeepsInvariant(w: World, now: int, name0: string, name1: string, conditions: seq<Condition>)
    requires Invariant(w)
    ensures Invariant(Step(w, CallConfirm(now, name0, name1, conditions)))
  {
    CollectKeepsInvariant(w, now);
    ConfirmOutcome(w.locks, now, name0, name1, conditions);
    var r := Confirm(w.locks, now, name0, name1, conditions).1;
    if r.Ok? {
      HoldKeepsInvariant(w.(locks := w.locks.(table := Collect(w.locks.table, now))), r.value);
    }
  }

  lemma ReleaseKeepsInvariant(w: World, i: nat)
    requires Invariant(w)
    ensures Invariant(Step(w, CallRelease(i)))
  {
    if i < |w.claims| {
      var claims := w.claims[i := {}];
      var t := SetHeld(w.locks.table, w.claims[i], false);
      PartStaysExclusive(w.locks.table, t);
      forall k
        ensures HeldIn(t, k) <==> Claimed(claims, k)
      {
        assert HeldIn(t, k) <==> HeldIn(w.locks.table, k) && k !in w.claims[i];
        if Claimed(w.claims, k) && k !in w.claims[i] {
          var j :| 0 <= j < |w.claims| && k in w.claims[j];
          assert k in claims[j];
        }
        if Claimed(claims, k) {
          var j :| 0 <= j < |claims| && k in claims[j];
          assert k in w.claims[j];
        }
      }
    }
  }

  lemma RefreshKeepsInvariant(w: World, now: int, token: string, duration: int)
    requires Invariant(w)
    ensures Invariant(w.(locks := Refresh(w.locks, now, token, duration).0))
  {
    CollectKeepsInvariant(w, now);
    var t := Collect(w.locks.table, now);
    if token in t && !t[token].held {
      var lock := NewLock(t[token].details.(duration := duration), now);
      ReplaceKeepsExclusive(t, token, lock);
      AddKeepsClaims(t, w.claims, token, lock);
    }
  }

  lemma UnlockKeepsInvariant(w: World, now: int, token: string)
    requires Invariant(w)
    ensures Invariant(w.(locks := Unlock(w.locks, now, token).0))
  {
    CollectKeepsInvariant(w, now);
    var t, t' := Collect(w.locks.table, now), Unlock(w.locks, now, token).0.table;
    PartStaysExclusive(t, t');
    assert forall k :: HeldIn(t', k) <==> HeldIn(t, k);
  }

  lemma StepKeepsInvariant(w: World, call: Call)
    requires Invariant(w) && w.locks.gen < MAX_UINT64
    ensures Invariant(Step(w, call))
  {
    match call
    case CallCreate(now, details) => CreateKeepsInvariant(w, now, details);
    case CallConfirm(now, name0, name1, conditions) => ConfirmKeepsInvariant(w, now, name0, name1, conditions);
    case CallRelease(i) => ReleaseKeepsInvariant(w, i);
    case CallRefresh(now, token, duration) => RefreshKeepsInvariant(w, now, token, duration);
    case CallUnlock(now, token) => UnlockKeepsInvariant(w, now, token);
  }

  lemma StepAdvancesGen(w: World, call: Call)
    requires w.locks.gen < MAX_UINT64
    ensures w.locks.gen <= Step(w, call).locks.gen <= w.locks.gen + 1
  {
  }

  /** Every state a run can reach, from any starting state in order, is in order. */
  lemma {:induction false} RunKeepsInvariant(w: World, calls: seq<Call>)
    requires Invariant(w) && w.locks.gen + |calls| <= MAX_UINT64
    ensures Invariant(Run(w, calls)) && w.locks.gen <= Run(w, calls).locks.gen <= w.locks.gen + |calls|
  {
    if calls == [] {
    } else {
      var before := calls[..|calls| - 1];
      RunKeepsInvariant(w, before);
      StepKeepsInvariant(Run(w, before), calls[|calls| - 1]);
      StepAdvancesGen(Run(w, before), calls[|calls| - 1]);
    }
  }

  // ---------------------------------------------------------------- what follows from it

  /** At most one live lock covers any resource. */
  lemma OneLockPerResource(w: World, name: string, a: string, b: string)
    requires Invariant(w) && a in w.locks.table && b in w.locks.table
    requires Covers(w.locks.table[a], name) && Covers(w.locks.table[b], name)
    ensures a == b
  {
    var ra, rb := w.locks.table[a].details.root, w.locks.table[b].details.root;
    ChainLinear(ra, rb, name);
  }

  /** No resource is covered by two outstanding confirmations, nor twice by one. */
  lemma OneConfirmationPerResource(w: World, name: string, i: nat, j: nat, a: string, b: string)
    requires Invariant(w) && i < |w.claims| && j < |w.claims| && a in w.claims[i] && b in w.claims[j]
    requires a in w.locks.table && Covers(w.locks.table[a], name)
    requires b in w.locks.table && Covers(w.locks.table[b], name)
    ensures i == j && a == b
  {
    ClaimedIsHeld(w, i, a);
    ClaimedIsHeld(w, j, b);
    OneLockPerResource(w, name, a, b);
  }

  lemma ClaimedIsHeld(w: World, i: nat, k: string)
    requires ClaimsMatch(w.locks.table, w.claims) && i < |w.claims| && k in w.claims[i]
    ensures HeldIn(w.locks.table, k)
  {
    assert Claimed(w.claims, k);
  }

  /** In every reachable state the next token is not in use. */
  lemma NextTokenUnused(w: World, now: int)
    requires Invariant(w) && w.locks.gen < MAX_UINT64
    ensures Decimal(NextGen(w.locks.gen)) !in Collect(w.locks.table, now)
  {
    TokenNotIssued(w.locks.gen);
  }

  lemma ClaimsDisjoint(w: World, i: nat, j: nat)
    requires Invariant(w) && i < |w.claims| && j < |w.claims| && i != j
    ensures w.claims[i] !! w.claims[j]
  {
  }

  /** No call but a release touches a held lock, and a release only the ones it names. */
  lemma HeldLockStays(w: World, call: Call, k: string)
    requires HeldIn(w.locks.table, k) && k != Decimal(NextGen(w.locks.gen))
    requires call.CallRelease? ==> call.claim < |w.claims| ==> k !in w.claims[call.claim]
    ensures k in Step(w, call).locks.table && Step(w, call).locks.table[k] == w.locks.table[k]
  {
    if call.CallConfirm? {
      ConfirmOutcome(w.locks, call.now, call.name0, call.name1, call.conditions);
    }
  }

  /** A confirmation's locks stay as they are, whatever is called, until its own release: held
      locks do not expire, and are neither unlocked nor refreshed nor confirmed again. */
  lemma HeldLocksStay(w: World, call: Call, i: nat, k: string)
    requires Invariant(w) && w.locks.gen < MAX_UINT64 && i < |w.claims| && k in w.claims[i]
    requires call != CallRelease(i)
    ensures i < |Step(w, call).claims| && Step(w, call).claims[i] == w.claims[i]
    ensures k in w.locks.table && k in Step(w, call).locks.table
    ensures Step(w, call).locks.table[k] == w.locks.table[k]
  {
    ClaimedIsHeld(w, i, k);
    assert Issued(k, w.locks.gen);
    TokenNotIssued(w.locks.gen);
    HeldLockStays(w, call, k);
  }

  lemma NoNewTokenButNext(w: World, call: Call, token: string)
    requires token !in w.locks.table && token != Decimal(NextGen(w.locks.gen))
    ensures token !in Step(w, call).locks.table
  {
    if call.CallConfirm? {
      ConfirmOutcome(w.locks, call.now, call.name0, call.name1, call.conditions);
    }
  }

  /** A token that was handed out and is no longer live never becomes live again. */
  lemma {:induction false} TokensNeverReused(w: World, calls: seq<Call>, token: string)
    requires Invariant(w) && w.locks.gen + |calls| <= MAX_UINT64
    requires Issued(token, w.locks.gen) && token !in w.locks.table
    ensures token !in Run(w, calls).locks.table
  {
    if calls == [] {
    } else {
      var before := calls[..|calls| - 1];
      TokensNeverReused(w, before, token);
      RunKeepsInvariant(w, before);
      var v := Run(w, before);
      var n: nat :| n <= w.locks.gen && token == Decimal(n);
      if token == Decimal(v.locks.gen + 1) {
        DecimalInjective(n, v.locks.gen + 1);
      }
      NoNewTokenButNext(v, calls[|calls| - 1], token);
    }
  }

  /** Confirm succeeds exactly when each name given is covered by an unheld live lock whose
      token is among the conditions; there is only one such lock for each. */
  lemma ConfirmSucceedsIff(w: World, now: int, name0: string, name1: string, conditions: seq<Condition>)
    requires Invariant(w)
    ensures var t := Collect(w.locks.table, now);
      Confirm(w.locks, now, name0, name1, conditions).1.Ok? <==>
        && (name0 != "" ==> Claimable(t, SlashClean(name0), conditions))
        && (name1 != "" ==> Claimable(t, SlashClean(name1), conditions))
  {
    var t := Collect(w.locks.table, now);
    LookupFinds(t, SlashClean(name0), conditions);
    LookupFinds(t, SlashClean(name1), conditions);
  }

  ghost predicate Claimable(t: Table, name: string, conditions: seq<Condition>) {
    exists c <- conditions :: c.token in t && !t[c.token].held && Covers(t[c.token], name)
  }

  lemma NewTokenIsNext(s: LockState, now: int, details: LockDetails)
    ensures var r := Create(s, now, details).1; r.Ok? ==> r.value == Decimal(NextGen(s.gen))
  {
  }

  /** When the generator wraps, its next token may be a live one. Then, and only then, Create
      takes the token from a lock that has neither expired nor been unlocked: the token leads to
      the new lock. MemLS.Create says where the other lock is then. */
  lemma CreateKeepsOtherLocksIff(s: LockState, now: int, details: LockDetails)
    requires Create(s, now, details).1.Ok?
    ensures (forall k <- Collect(s.table, now) ::
               k in Create(s, now, details).0.table && Create(s, now, details).0.table[k] == s.table[k])
            <==> Decimal(NextGen(s.gen)) !in Collect(s.table, now)
  {
    var t := Collect(s.table, now);
    var token := Decimal(NextGen(s.gen));
    var clean := details.(root := SlashClean(details.root));
    if token in t {
      assert !Conflicts(t[token], clean.root, clean.zeroDepth);
      assert t[token].details.root != clean.root;
    }
  }

  /** A generator about to wrap hands out the live token "0" a second time. */
  lemma WrapReusesAToken()
    ensures var s := LockState(map["0" := Lock(LockDetails("/a", -1, "", true), None, false)], MAX_UINT64);
      var (s', r) := Create(s, 0, LockDetails("/b", -1, "", true));
      r == Ok("0") && s'.table["0"].details.root == "/b"
  {
    var a := Lock(LockDetails("/a", -1, "", true), None, false);
    var t := map["0" := a];
    assert Collect(t, 0) == t;
    var b := "/b";
    assert Join(["b"]) == "/b";
    assert PlainSegment("b");
    assert Clean(b) by {
      var segs := ["b"];
      assert segs != [] && (forall s <- segs :: PlainSegment(s)) && b == Join(segs);
    }
    SlashCleanIsClean(b);
    assert !Conflicts(a, b, true);
    assert Decimal(0) == "0";
  }
}
