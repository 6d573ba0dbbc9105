/** The folders below a folder, found level by level. */
module FolderTree {
  import opened Options
  import opened Tables

  const MAX_ROUNDS: nat := 65535

  // ---------------------------------------------------------------- levels and descent

  /** The user's rows among these. */
  function OwnedBy(t: Folders, uid: nat, ids: set<nat>): set<nat> {
    set id | id in ids && id in t && t[id].owner == uid
  }

  function ChildrenOf(t: Folders, uid: nat, parents: set<nat>): set<nat> {
    set id | id in t && t[id].owner == uid && t[id].parent.Some? && t[id].parent.value in parents
  }

  function Level(t: Folders, uid: nat, start: set<nat>, k: nat): set<nat> {
    if k == 0 then OwnedBy(t, uid, start) else ChildrenOf(t, uid, Level(t, uid, start, k - 1))
  }

  /** Going up k times from the folder leads to the root, and all on the way are the user's. */
  predicate Descends(t: Folders, uid: nat, root: nat, id: nat, k: nat)
    decreases k
  {
    && id in t && t[id].owner == uid
    && if k == 0 then id == root else t[id].parent.Some? && Descends(t, uid, root, t[id].parent.value, k - 1)
  }

  ghost predicate Within(t: Folders, uid: nat, root: nat, id: nat, from: nat) {
    exists k: nat :: from <= k <= MAX_ROUNDS && Descends(t, uid, root, id, k)
  }

  /** The root is met again on the way down from it. */
  ghost predicate Cyclic(t: Folders, uid: nat, root: nat) {
    Within(t, uid, root, root, 1)
  }

  lemma {:induction false} LevelIsDescent(t: Folders, uid: nat, root: nat, id: nat, k: nat)
    ensures id in Level(t, uid, {root}, k) <==> Descends(t, uid, root, id, k)
    decreases k
  {
    if k > 0 && id in t && t[id].parent.Some? {
      LevelIsDescent(t, uid, root, t[id].parent.value, k - 1);
    }
  }

  /** Two different ways down to one folder mean that the root is below itself. */
  lemma {:induction false} TwoWaysDown(t: Folders, uid: nat, root: nat, id: nat, j: nat, k: nat)
    requires j < k && Descends(t, uid, root, id, j) && Descends(t, uid, root, id, k)
    ensures Descends(t, uid, root, root, k - j)
    decreases j
  {
    if j == 0 {
    } else {
      TwoWaysDown(t, uid, root, t[id].parent.value, j - 1, k - 1);
    }
  }

  // ---------------------------------------------------------------- the levels as they are found

  function Flat(levels: seq<seq<nat>>): seq<nat> {
    if levels == [] then [] else Flat(levels[..|levels| - 1]) + levels[|levels| - 1]
  }

  ghost predicate Walks(t: Folders, uid: nat, start: set<nat>, levels: seq<seq<nat>>) {
    forall k :: 0 <= k < |levels| ==> Lists(levels[k], Level(t, uid, start, k))
  }

  /** The answer is complete: the levels found are all there are, within the rounds allowed. */
  ghost predicate Complete(t: Folders, uid: nat, start: set<nat>, levels: seq<seq<nat>>) {
    && levels != [] && |levels| <= MAX_ROUNDS + 1 && Walks(t, uid, start, levels)
    && (|levels| == MAX_ROUNDS + 1 || Level(t, uid, start, |levels|) == {})
  }

  /** With or without the folders to start from. */
  function Found(levels: seq<seq<nat>>, includeSelf: bool): seq<nat>
    requires levels != []
  {
    Flat(if includeSelf then levels else [[]] + levels[1..])
  }

  function SetOf(ids: seq<nat>): set<nat> {
    set id | id in ids
  }

  /** The answer to so many queries: one for each level, and one more that found nothing or
      failed, unless the last round allowed was made. No level below the first is empty. */
  ghost predicate Rounds(levels: seq<seq<nat>>, queries: int) {
    && queries == |levels| + (if |levels| == MAX_ROUNDS + 1 then 0 else 1) && |levels| <= MAX_ROUNDS + 1
    && forall k :: 0 < k < |levels| ==> levels[k] != []
  }

  /** GetRecursiveChildFolder, for ids given as a set. After the last round there is nothing
      left to find, unless that was the last round allowed. It succeeds exactly if none of its
      queries fails. */
  method GetRecursiveChildFolder(db: Database, dirs: set<nat>, uid: nat, includeSelf: bool)
    returns (ok: bool, ids: seq<nat>, ghost levels: seq<seq<nat>>)
    modifies db`queries
    ensures Walks(db.folders, uid, dirs, levels) && Rounds(levels, db.queries - old(db.queries))
    ensures ok <==> db.NoneFails(old(db.queries), db.queries)
    ensures ok ==> Complete(db.folders, uid, dirs, levels) && ids == Found(levels, includeSelf)
  {
    hide Level, OwnedBy, ChildrenOf, Lists, Found, SetOf, Walks;
    ids, levels := [], [];
    var parents: seq<nat>;
    assert Walks(db.folders, uid, dirs, levels) by { NothingWalked(db.folders, uid, dirs); }
    ok, parents := db.Find(OwnedBy(db.folders, uid, dirs));
    if !ok {
      return;
    }
    levels := [parents];
    FirstLevel(db.folders, uid, dirs, parents);
    if includeSelf {
      ids := parents;
    }
    var i := 0;
    while i < MAX_ROUNDS
      invariant |levels| == i + 1 <= MAX_ROUNDS + 1 && Walks(db.folders, uid, dirs, levels) && parents == levels[i]
      invariant ids == Found(levels, includeSelf)
      invariant ok && db.NoneFails(old(db.queries), db.queries) && db.queries == old(db.queries) + i + 1
      invariant forall k :: 0 < k < |levels| ==> levels[k] != []
      decreases MAX_ROUNDS - i
    {
      var children;
      ok, children := db.Find(ChildrenOf(db.folders, uid, SetOf(parents)));
      if children == [] {
        if ok {
          NextLevel(db.folders, uid, dirs, levels, children, includeSelf);
        }
        return;
      }
      NextLevel(db.folders, uid, dirs, levels, children, includeSelf);
      levels := levels + [children];
      ids := ids + children;
      parents := children;
      i := i + 1;
    }
  }

  lemma NothingWalked(t: Folders, uid: nat, start: set<nat>)
    ensures Walks(t, uid, start, [])
  {
  }

  lemma FirstLevel(t: Folders, uid: nat, start: set<nat>, ids: seq<nat>)
    requires Lists(ids, OwnedBy(t, uid, start))
    ensures Walks(t, uid, start, [ids]) && Found([ids], true) == ids && Found([ids], false) == []
  {
    var none: seq<nat> := [];
    var nothing: seq<seq<nat>> := [];
    FlatMore(nothing, ids);
    FlatMore(nothing, none);
    assert nothing + [ids] == [ids] && nothing + [none] == [none] && [none] + [ids][1..] == [none] && none + ids == ids;
  }

  lemma NextLevel(t: Folders, uid: nat, start: set<nat>, levels: seq<seq<nat>>, more: seq<nat>, includeSelf: bool)
    requires levels != [] && Walks(t, uid, start, levels)
    requires Lists(more, ChildrenOf(t, uid, SetOf(levels[|levels| - 1])))
    ensures Walks(t, uid, start, levels + [more]) && (more == [] ==> Level(t, uid, start, |levels|) == {})
    ensures Found(levels + [more], includeSelf) == Found(levels, includeSelf) + more
  {
    hide Level, ChildrenOf, Found;
    Levels(t, uid, start, |levels|);
    SetOfListed(levels[|levels| - 1], Level(t, uid, start, |levels| - 1));
    ListedEmpty(more, Level(t, uid, start, |levels|));
    hide SetOf, Lists;
    FoundMore(levels, more, includeSelf);
  }

  lemma SetOfListed(ids: seq<nat>, wanted: set<nat>)
    requires Lists(ids, wanted)
    ensures SetOf(ids) == wanted
  {
  }

  lemma ListedEmpty(ids: seq<nat>, wanted: set<nat>)
    requires Lists(ids, wanted)
    ensures ids == [] ==> wanted == {}
  {
    if id :| id in wanted {
      assert id in ids;
    }
  }

  lemma Levels(t: Folders, uid: nat, start: set<nat>, k: nat)
    ensures Level(t, uid, start, k)
         == if k == 0 then OwnedBy(t, uid, start) else ChildrenOf(t, uid, Level(t, uid, start, k - 1))
  {
  }

  lemma FoundMore(levels: seq<seq<nat>>, more: seq<nat>, includeSelf: bool)
    requires levels != []
    ensures Found(levels + [more], includeSelf) == Found(levels, includeSelf) + more
  {
    FlatMore(if includeSelf then levels else [[]] + levels[1..], more);
    assert (levels + [more])[1..] == levels[1..] + [more];
    assert ([[]] + levels[1..]) + [more] == [[]] + (levels + [more])[1..];
  }

  lemma FlatMore(levels: seq<seq<nat>>, more: seq<nat>)
    ensures Flat(levels + [more]) == Flat(levels) + more
  {
    assert (levels + [more])[..|levels|] == levels;
  }

  // ---------------------------------------------------------------- what is found

  lemma {:induction false} InFlat(levels: seq<seq<nat>>, id: nat)
    ensures id in Flat(levels) <==> exists k :: 0 <= k < |levels| && id in levels[k]
  {
    if levels == [] {
    } else {
      var last := |levels| - 1;
      InFlat(levels[..last], id);
      if k :| 0 <= k < |levels| && id in levels[k] {
        assert k < last ==> levels[..last][k] == levels[k];
      }
      if id in Flat(levels[..last]) {
        var k :| 0 <= k < last && id in levels[..last][k];
        assert id in levels[k];
      }
    }
  }

  lemma {:induction false} EmptyStaysEmpty(t: Folders, uid: nat, start: set<nat>, j: nat, k: nat)
    requires j <= k && Level(t, uid, start, j) == {}
    ensures Level(t, uid, start, k) == {}
  {
    if j >= k {
    } else {
      EmptyStaysEmpty(t, uid, start, j, k - 1);
    }
  }

  /** The folders found are exactly those that lead up to the root in at most 65535 steps, the
      root included if that is asked for; on every table, whether it has cycles or not. */
  lemma FoundIffWithin(t: Folders, uid: nat, root: nat, levels: seq<seq<nat>>, includeSelf: bool, id: nat)
    requires Complete(t, uid, {root}, levels)
    ensures id in Found(levels, includeSelf) <==> Within(t, uid, root, id, if includeSelf then 0 else 1)
  {
    var from := if includeSelf then 0 else 1;
    var none: seq<nat> := [];
    var all := if includeSelf then levels else [none] + levels[1..];
    InFlat(all, id);
    if k :| 0 <= k < |all| && id in all[k] {
      LevelIsDescent(t, uid, root, id, k);
      assert from <= k <= MAX_ROUNDS && Descends(t, uid, root, id, k);
    }
    if Within(t, uid, root, id, from) {
      var k: nat :| from <= k <= MAX_ROUNDS && Descends(t, uid, root, id, k);
      LevelIsDescent(t, uid, root, id, k);
      if k >= |levels| {
        EmptyStaysEmpty(t, uid, {root}, |levels|, k);
      }
      assert id in all[k];
    }
  }

  ghost predicate ParentsFirst(t: Folders, root: nat, ids: seq<nat>) {
    forall i :: 0 <= i < |ids| && ids[i] != root ==>
      ids[i] in t && t[ids[i]].parent.Some? && t[ids[i]].parent.value in ids[..i]
  }

  /** With the root included, every other folder comes after its parent. */
  lemma {:induction false} FoundParentsFirst(t: Folders, uid: nat, root: nat, levels: seq<seq<nat>>)
    requires Walks(t, uid, {root}, levels)
    ensures ParentsFirst(t, root, Flat(levels))
  {
    if levels == [] {
    } else {
      var last := |levels| - 1;
      var before, ids := Flat(levels[..last]), Flat(levels);
      FoundParentsFirst(t, uid, root, levels[..last]);
      forall i | 0 <= i < |ids| && ids[i] != root
        ensures ids[i] in t && t[ids[i]].parent.Some? && t[ids[i]].parent.value in ids[..i]
      {
        if i < |before| {
          assert ids[i] == before[i] && ids[..i] == before[..i];
        } else {
          assert ids[i] == levels[last][i - |before|];
          ParentIsAbove(t, uid, root, levels, ids[i]);
          var p := t[ids[i]].parent.value;
          InFlat(levels[..last], p);
          assert levels[..last][last - 1] == levels[last - 1];
          assert ids[..i][..|before|] == before;
          assert p in ids[..i];
        }
      }
    }
  }

  lemma ParentIsAbove(t: Folders, uid: nat, root: nat, levels: seq<seq<nat>>, id: nat)
    requires levels != [] && Walks(t, uid, {root}, levels)
    requires id in levels[|levels| - 1] && id != root
    ensures |levels| > 1 && id in t && t[id].parent.Some? && t[id].parent.value in levels[|levels| - 2]
  {
    assert id in Level(t, uid, {root}, |levels| - 1);
  }

  /** Every folder is found once exactly if the root is not met again below itself. */
  lemma FoundOnceIff(t: Folders, uid: nat, root: nat, levels: seq<seq<nat>>)
    requires Complete(t, uid, {root}, levels)
    ensures Distinct(Found(levels, true)) <==> !Cyclic(t, uid, root)
  {
    if Cyclic(t, uid, root) {
      var k: nat :| 1 <= k <= MAX_ROUNDS && Descends(t, uid, root, root, k);
      LevelIsDescent(t, uid, root, root, k);
      LevelIsDescent(t, uid, root, root, 0);
      if k >= |levels| {
        EmptyStaysEmpty(t, uid, {root}, |levels|, k);
      }
      assert root in levels[0] && root in levels[k];
      NotDistinct(levels, 0, k, root);
    } else {
      FlatIsDistinct(t, uid, root, levels);
    }
  }

  lemma {:induction false} NotDistinct(levels: seq<seq<nat>>, j: nat, k: nat, id: nat)
    requires j < k < |levels| && id in levels[j] && id in levels[k]
    ensures !Distinct(Flat(levels))
  {
    var last := |levels| - 1;
    var before, ids := Flat(levels[..last]), Flat(levels);
    if k < last {
      NotDistinct(levels[..last], j, k, id);
      var x, y :| 0 <= x < y < |before| && before[x] == before[y];
      assert ids[x] == ids[y];
    } else {
      InFlat(levels[..last], id);
      assert id in levels[..last][j];
      var x :| 0 <= x < |before| && before[x] == id;
      var y :| 0 <= y < |levels[last]| && levels[last][y] == id;
      assert ids[x] == ids[|before| + y];
    }
  }

  lemma {:induction false} FlatIsDistinct(t: Folders, uid: nat, root: nat, levels: seq<seq<nat>>)
    requires Walks(t, uid, {root}, levels) && |levels| <= MAX_ROUNDS + 1 && !Cyclic(t, uid, root)
    ensures Distinct(Flat(levels))
  {
    if levels == [] {
    } else {
      var last := |levels| - 1;
      var before, ids := Flat(levels[..last]), Flat(levels);
      FlatIsDistinct(t, uid, root, levels[..last]);
      forall i, j | 0 <= i < j < |ids|
        ensures ids[i] != ids[j]
      {
        if i < |before| <= j && ids[i] == ids[j] {
          InFlat(levels[..last], ids[i]);
          assert ids[i] in before;
          var k :| 0 <= k < last && ids[i] in levels[..last][k];
          assert ids[j] in levels[last];
          LevelIsDescent(t, uid, root, ids[i], k);
          LevelIsDescent(t, uid, root, ids[i], last);
          TwoWaysDown(t, uid, root, ids[i], k, last);
          assert false;
        }
      }
    }
  }
}
