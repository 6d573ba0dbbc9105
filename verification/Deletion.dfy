/** Deleting files whose stored objects may be shared: an object is removed only when no other
    row refers to it. */
module Deletion {
  import opened FolderTree
  import opened Options
  import opened Storage
  import opened Tables

  /** A stored object: a name in the place a policy stands for. */
  datatype Blob = Blob(policy: nat, source: string)

  /** A file chosen for deletion, as it was read. */
  datatype Target = Target(id: nat, row: File)

  function BlobOf(row: File): Blob {
    Blob(row.policy, row.source)
  }

  // ---------------------------------------------------------------- shared objects

  /** Rows that refer to the object of a chosen file and are not that file. */
  function SoftLinks(files: Files, targets: seq<Target>): set<nat> {
    set id | id in files && exists t <- targets :: BlobOf(t.row) == BlobOf(files[id]) && t.id != id
  }

  predicate Shared(files: Files, links: set<nat>, t: Target) {
    exists id <- links :: id in files && BlobOf(files[id]) == BlobOf(t.row)
  }

  function Unshared(files: Files, links: set<nat>, targets: seq<Target>): seq<Target> {
    if targets == [] then []
    else
      var last := |targets| - 1;
      Unshared(files, links, targets[..last]) + if Shared(files, links, targets[last]) then [] else [targets[last]]
  }

  /** RemoveFilesWithSoftLinks, its two loops one in the other. Without any file the query has
      no condition and finds every row, which makes no difference. */
  method RemoveFilesWithSoftLinks(db: Database, targets: seq<Target>) returns (ok: bool, filtered: seq<Target>)
    modifies db`queries
    ensures ok == !db.fails(old(db.queries)) && db.queries == old(db.queries) + 1
    ensures ok <==> db.NoneFails(old(db.queries), db.queries)
    ensures ok ==> filtered == Unshared(db.files, SoftLinks(db.files, targets), targets)
  {
    var links;
    var wanted := if targets == [] then db.files.Keys else SoftLinks(db.files, targets);
    ok, links := db.Find(wanted);
    if !ok {
      return ok, [];
    }
    filtered := [];
    if |links| == 0 {
      NothingShared(db.files, targets, wanted);
      return ok, targets;
    }
    for i := 0 to |targets|
      invariant filtered == Unshared(db.files, wanted, targets[..i])
    {
      assert targets[..i + 1][..i] == targets[..i];
      var found := false;
      assert forall k :: 0 <= k < |links| ==> links[k] in links;
      for j := 0 to |links|
        invariant forall k :: 0 <= k < |links| ==> links[k] in db.files
        invariant found <==> exists k :: 0 <= k < j && BlobOf(db.files[links[k]]) == BlobOf(targets[i].row)
        invariant !found
      {
        if BlobOf(db.files[links[j]]) == BlobOf(targets[i].row) {
          found := true;
          break;
        }
      }
      assert found <==> Shared(db.files, wanted, targets[i]) by {
        if id :| id in wanted && BlobOf(db.files[id]) == BlobOf(targets[i].row) {
          assert id in links;
        }
      }
      if !found {
        filtered := filtered + [targets[i]];
      }
    }
    assert targets[..|targets|] == targets;
  }

  lemma {:induction false} NothingShared(files: Files, targets: seq<Target>, links: set<nat>)
    requires forall id <- links :: id !in files
    ensures Unshared(files, links, targets) == targets
  {
    if targets == [] {
    } else {
      NothingShared(files, targets[..|targets| - 1], links);
    }
  }

  /** The targets are rows of the table. */
  predicate Current(files: Files, targets: seq<Target>) {
    forall i :: 0 <= i < |targets| ==> targets[i].id in files && files[targets[i].id] == targets[i].row
  }

  /** No other row refers to the row's object. */
  predicate Alone(files: Files, id: nat)
    requires id in files
  {
    forall other <- files ::
      files[other].policy == files[id].policy && files[other].source == files[id].source ==> other == id
  }

  /** The objects of exactly those files are to be removed that no other row refers to, be it a
      row that is deleted along with the file or not. */
  lemma {:induction false} UnsharedIff(files: Files, targets: seq<Target>, all: seq<Target>, t: Target)
    requires Current(files, all) && |targets| <= |all| && targets == all[..|targets|]
    ensures t in Unshared(files, SoftLinks(files, all), targets) <==> t in targets && Alone(files, t.id)
  {
    if targets == [] {
    } else {
      var last := |targets| - 1;
      var u := targets[last];
      assert targets[..last] == all[..last] && u == all[last];
      UnsharedIff(files, targets[..last], all, t);
      SharedIff(files, all, last);
    }
  }

  lemma SharedIff(files: Files, all: seq<Target>, i: nat)
    requires Current(files, all) && i < |all|
    ensures Shared(files, SoftLinks(files, all), all[i]) <==> !Alone(files, all[i].id)
  {
    var u := all[i];
    if other :| other in files && BlobOf(files[other]) == BlobOf(u.row) && other != u.id {
      assert u in all;
      assert other in SoftLinks(files, all);
    }
    if id :| id in SoftLinks(files, all) && BlobOf(files[id]) == BlobOf(u.row) {
      var t :| t in all && BlobOf(t.row) == BlobOf(files[id]) && t.id != id;
      assert t.id in files && files[t.id] == t.row;
    }
  }

  // ---------------------------------------------------------------- removing objects

  /** Which policies have no working handler, and which objects cannot be removed. */
  datatype Fate = Fate(noHandler: set<nat>, stuck: set<Blob>)

  function BlobsOf(targets: seq<Target>): set<Blob> {
    set t | t in targets :: BlobOf(t.row)
  }

  predicate Fails(b: Blob, fate: Fate) {
    b.policy in fate.noHandler || b in fate.stuck
  }

  function Failing(bs: set<Blob>, fate: Fate): set<Blob> {
    set b | b in bs && Fails(b, fate)
  }

  class Store {
    var blobs: set<Blob>

    constructor (blobs: set<Blob>)
      ensures this.blobs == blobs
    {
      this.blobs := blobs;
    }
  }

  /** GroupFileByPolicy. */
  method GroupFileByPolicy(targets: seq<Target>) returns (groups: map<nat, seq<Target>>)
    ensures forall p <- groups :: forall t <- groups[p] :: t in targets && t.row.policy == p
    ensures forall t <- targets :: t.row.policy in groups && t in groups[t.row.policy]
  {
    groups := map[];
    for i := 0 to |targets|
      invariant forall p <- groups :: forall t <- groups[p] :: t in targets && t.row.policy == p
      invariant forall k :: 0 <= k < i ==>
        targets[k].row.policy in groups && targets[k] in groups[targets[k].row.policy]
    {
      var p := targets[i].row.policy;
      var group := if p in groups then groups[p] else [];
      groups := groups[p := group + [targets[i]]];
    }
  }

  /** Handler.Delete for the objects of one policy: those that cannot be removed are returned. */
  method DeleteObjects(store: Store, group: seq<Target>, fate: Fate) returns (failed: set<Blob>)
    modifies store
    ensures failed == BlobsOf(group) * fate.stuck && store.blobs == old(store.blobs) - (BlobsOf(group) - fate.stuck)
  {
    failed := {};
    for i := 0 to |group|
      invariant failed == BlobsOf(group[..i]) * fate.stuck
      invariant store.blobs == old(store.blobs) - (BlobsOf(group[..i]) - fate.stuck)
    {
      OneBlobMore(group, i);
      var b := BlobOf(group[i].row);
      if b in fate.stuck {
        failed := failed + {b};
      } else {
        store.blobs := store.blobs - {b};
      }
    }
    assert group[..|group|] == group;
  }

  lemma OneBlobMore(targets: seq<Target>, i: nat)
    requires i < |targets|
    ensures BlobsOf(targets[..i + 1]) == BlobsOf(targets[..i]) + {BlobOf(targets[i].row)}
  {
    assert targets[..i + 1] == targets[..i] + [targets[i]];
  }

  /** deleteGroupedFile: policy by policy, in any order. */
  method DeleteGroupedFile(store: Store, groups: map<nat, seq<Target>>, ghost targets: seq<Target>, fate: Fate)
    returns (failed: set<Blob>)
    requires forall p <- groups :: forall t <- groups[p] :: t in targets && t.row.policy == p
    requires forall t <- targets :: t.row.policy in groups && t in groups[t.row.policy]
    modifies store
    ensures failed == Failing(BlobsOf(targets), fate)
    ensures store.blobs == old(store.blobs) - (BlobsOf(targets) - Failing(BlobsOf(targets), fate))
  {
    failed := {};
    var left := groups.Keys;
    ghost var done: set<Blob> := {};
    while left != {}
      invariant left <= groups.Keys
      invariant done == set b | b in BlobsOf(targets) && b.policy !in left
      invariant failed == Failing(done, fate) && store.blobs == old(store.blobs) - (done - Failing(done, fate))
      decreases |left|
    {
      var p :| p in left;
      left := left - {p};
      ghost var now := BlobsOf(groups[p]);
      GroupBlobs(groups, targets, p);
      if p in fate.noHandler {
        failed := failed + BlobsOf(groups[p]);
      } else {
        var stuck := DeleteObjects(store, groups[p], fate);
        failed := failed + stuck;
      }
      done := done + now;
    }
    assert done == BlobsOf(targets) by {
      forall b <- BlobsOf(targets)
        ensures b in done
      {
        var t :| t in targets && BlobOf(t.row) == b;
      }
    }
  }

  lemma GroupBlobs(groups: map<nat, seq<Target>>, targets: seq<Target>, p: nat)
    requires p in groups
    requires forall q <- groups :: forall t <- groups[q] :: t in targets && t.row.policy == q
    requires forall t <- targets :: t.row.policy in groups && t in groups[t.row.policy]
    ensures BlobsOf(groups[p]) == set b | b in BlobsOf(targets) && b.policy == p
  {
    forall b | b in BlobsOf(targets) && b.policy == p
      ensures b in BlobsOf(groups[p])
    {
      var t :| t in targets && BlobOf(t.row) == b;
      assert t in groups[p];
    }
  }

  // ---------------------------------------------------------------- deleting files

  function HandleOf(t: Target): Handle {
    Handle(t.id, t.row.user, t.row.size)
  }

  function HandlesOf(targets: seq<Target>): (hs: seq<Handle>)
    ensures |hs| == |targets| && forall i :: 0 <= i < |hs| ==> hs[i] == HandleOf(targets[i])
  {
    seq(|targets|, i requires 0 <= i < |targets| => HandleOf(targets[i]))
  }

  function Keep(targets: seq<Target>, failed: set<Blob>): seq<Target> {
    if targets == [] then []
    else
      var last := |targets| - 1;
      Keep(targets[..last], failed) + if BlobOf(targets[last].row) in failed then [] else [targets[last]]
  }

  lemma {:induction false} InKeep(targets: seq<Target>, failed: set<Blob>, t: Target)
    ensures t in Keep(targets, failed) <==> t in targets && BlobOf(t.row) !in failed
  {
    if targets == [] {
    } else {
      InKeep(targets[..|targets| - 1], failed, t);
      assert targets == targets[..|targets| - 1] + [targets[|targets| - 1]];
    }
  }

  /** The objects whose removal is attempted and works. */
  function Removed(files: Files, targets: seq<Target>, fate: Fate): set<Blob> {
    var attempted := BlobsOf(Unshared(files, SoftLinks(files, targets), targets));
    attempted - Failing(attempted, fate)
  }

  function Deleted(files: Files, targets: seq<Target>, force: bool, fate: Fate): seq<Target> {
    var attempted := BlobsOf(Unshared(files, SoftLinks(files, targets), targets));
    if force then targets else Keep(targets, Failing(attempted, fate))
  }

  /** The part of Delete that removes objects. */
  method RemoveObjects(db: Database, store: Store, ghost targets: seq<Target>, toBeDeleted: seq<Target>, fate: Fate)
    returns (failed: set<Blob>)
    requires toBeDeleted == Unshared(db.files, SoftLinks(db.files, targets), targets)
    modifies store
    ensures failed == Failing(BlobsOf(toBeDeleted), fate)
    ensures store.blobs == old(store.blobs) - Removed(db.files, targets, fate)
  {
    hide Unshared, SoftLinks, BlobsOf, Failing;
    var groups := GroupFileByPolicy(toBeDeleted);
    failed := DeleteGroupedFile(store, groups, toBeDeleted, fate);
  }

  /** Every row's object is there. */
  ghost predicate Backed(files: Files, blobs: set<Blob>) {
    forall id <- files :: BlobOf(files[id]) in blobs
  }

  /** Rows and folders that cannot be deleted are the same error to the caller. NotFullySuccess is
      told when rows were deleted, but not of all the files. */
  datatype DeleteError = ListFailed | RowsNotDeleted | FoldersNotDeleted | NotFullySuccess

  /** Delete, once files and folders are listed: objects are removed first, then the rows of files,
      then, if none of the files is kept, those of the folders. Rows of files whose objects could
      not be removed are kept, unless their deletion is forced. */
  method Delete(db: Database, store: Store, targets: seq<Target>, dirs: seq<nat>, uid: nat, force: bool, fate: Fate)
    returns (err: Option<DeleteError>)
    requires db.Valid() && Current(db.files, targets)
    modifies db, store
    ensures db.Valid() && old(db.queries) < db.queries && (old(Conserved(db)) ==> Conserved(db))
    ensures err == Some(ListFailed) ==> db.files == old(db.files) && store.blobs == old(store.blobs)
    ensures err != Some(ListFailed) ==> store.blobs == old(store.blobs) - Removed(old(db.files), targets, fate)
    ensures err == Some(RowsNotDeleted) ==> db.files == old(db.files)
    ensures RowsGone(err) ==>
      var gone := Deleted(old(db.files), targets, force, fate);
      && Deletable(old(db.files), HandlesOf(gone), uid) && db.files == Without(old(db.files), HandlesOf(gone))
      && |gone| <= |targets| && (err == Some(NotFullySuccess) <==> |gone| < |targets|)
    ensures db.folders == if err.None? then old(db.folders) - SetOf(dirs) else old(db.folders)
    ensures
      var can := Deletable(old(db.files), HandlesOf(Deleted(old(db.files), targets, force, fate)), uid);
      && (RowsGone(err) && err != Some(FoldersNotDeleted) <==> can && db.NoneFails(old(db.queries), db.queries))
      && (db.NoneFails(old(db.queries), db.queries) && !can ==> err == Some(RowsNotDeleted))
    ensures err == Some(ListFailed) <==> db.fails(old(db.queries))
    ensures old(Backed(db.files, store.blobs)) ==>
      (Backed(db.files, store.blobs) <==>
       err != Some(RowsNotDeleted) || Removed(old(db.files), targets, fate) == {})
  {
    hide Unshared, SoftLinks, Deletable, Without, BlobsOf, Failing, Current, Backed, Tallies, Removed, HandlesOf;
    hide ShortBy, Database.NoneFails;
    ghost var first := db.queries;
    var ok, toBeDeleted := RemoveFilesWithSoftLinks(db, targets);
    if !ok {
      return Some(ListFailed);
    }
    ghost var asked := db.queries;
    var failed := RemoveObjects(db, store, targets, toBeDeleted, fate);
    var deleted := [];
    for i := 0 to |targets|
      invariant deleted == Keep(targets[..i], failed)
    {
      assert targets[..i + 1][..i] == targets[..i];
      if BlobOf(targets[i].row) !in failed {
        deleted := deleted + [targets[i]];
      }
    }
    assert targets[..|targets|] == targets;
    if force {
      deleted := targets;
    }
    HandlesAreGenuine(db.files, targets, failed);
    KeepIsShorter(targets, failed);
    ok := DeleteFiles(db, HandlesOf(deleted), uid);
    db.NoneInParts(first, asked, db.queries);
    if !ok {
      BackedIff(old(db.files), old(store.blobs), targets, fate);
      return Some(RowsNotDeleted);
    }
    StillBacked(old(db.files), old(store.blobs), targets, force, fate);
    if |deleted| == |targets| {
      asked := db.queries;
      ok := DeleteFolderByIDs(db, dirs);
      db.NoneInParts(first, asked, db.queries);
      if !ok {
        return Some(FoldersNotDeleted);
      }
    }
    return if |deleted| < |targets| then Some(NotFullySuccess) else None;
  }

  /** The rows of files were deleted, whatever came then. */
  predicate RowsGone(err: Option<DeleteError>) {
    err.None? || err.value.FoldersNotDeleted? || err.value.NotFullySuccess?
  }

  method DeleteFolderByIDs(db: Database, ids: seq<nat>) returns (ok: bool)
    requires db.Valid()
    modifies db`queries, db`folders
    ensures db.Valid() && (old(Conserved(db)) ==> Conserved(db))
    ensures db.queries == old(db.queries) + 1 && (ok <==> db.NoneFails(old(db.queries), db.queries))
    ensures db.folders == if ok then old(db.folders) - SetOf(ids) else old(db.folders)
  {
    ok := db.Query();
    if ok {
      db.folders := db.folders - SetOf(ids);
    }
  }

  lemma StillBacked(files: Files, blobs: set<Blob>, targets: seq<Target>, force: bool, fate: Fate)
    requires Current(files, targets)
    ensures Backed(files, blobs) ==>
      Backed(Without(files, HandlesOf(Deleted(files, targets, force, fate))), blobs - Removed(files, targets, fate))
  {
    hide Without, HandlesOf, Deleted, Removed;
    var gone := Deleted(files, targets, force, fate);
    forall id <- Without(files, HandlesOf(gone))
      ensures id in files && Without(files, HandlesOf(gone))[id] == files[id]
      ensures BlobOf(files[id]) !in Removed(files, targets, fate)
    {
      IsGone(files, gone, id);
      NothingDangles(files, targets, force, fate, id);
    }
  }

  /** If the rows stay, they all keep their objects exactly if no object was removed. */
  lemma BackedIff(files: Files, blobs: set<Blob>, targets: seq<Target>, fate: Fate)
    requires Current(files, targets)
    ensures Backed(files, blobs) ==>
      (Backed(files, blobs - Removed(files, targets, fate)) <==> Removed(files, targets, fate) == {})
  {
    hide Removed, Fails, Alone;
    if b :| b in Removed(files, targets, fate) {
      RemovedIff(files, targets, fate, b);
      var t :| t in targets && BlobOf(t.row) == b;
      assert t.id in files && BlobOf(files[t.id]) == b;
    }
  }

  lemma HandlesAreGenuine(files: Files, targets: seq<Target>, failed: set<Blob>)
    requires Current(files, targets)
    ensures AllGenuine(files, HandlesOf(targets)) && AllGenuine(files, HandlesOf(Keep(targets, failed)))
  {
    var kept := Keep(targets, failed);
    forall i | 0 <= i < |kept|
      ensures Genuine(files, HandleOf(kept[i]))
    {
      InKeep(targets, failed, kept[i]);
      assert kept[i] in kept;
    }
  }

  // ---------------------------------------------------------------- what deletion keeps

  /** An object is removed exactly if some chosen file is the only row that refers to it, and
      the handler can remove it. */
  lemma RemovedIff(files: Files, targets: seq<Target>, fate: Fate, b: Blob)
    requires Current(files, targets)
    ensures b in Removed(files, targets, fate) <==>
      && b.policy !in fate.noHandler && b !in fate.stuck
      && exists t <- targets ::
           t.row.policy == b.policy && t.row.source == b.source && t.id in files && Alone(files, t.id)
  {
    hide Unshared, SoftLinks, Alone;
    var attempted := Unshared(files, SoftLinks(files, targets), targets);
    assert targets[..|targets|] == targets;
    if t :| t in attempted && BlobOf(t.row) == b {
      UnsharedIff(files, targets, targets, t);
    }
    if t :| t in targets && BlobOf(t.row) == b && t.id in files && Alone(files, t.id) {
      UnsharedIff(files, targets, targets, t);
    }
  }

  /** The rows that are to be deleted: all that were chosen, or those whose objects are shared or
      can be removed. */
  predicate ToDelete(files: Files, force: bool, fate: Fate, t: Target) {
    force || !Fails(BlobOf(t.row), fate) || (t.id in files && !Alone(files, t.id))
  }

  lemma InDeleted(files: Files, targets: seq<Target>, force: bool, fate: Fate, t: Target)
    requires Current(files, targets)
    ensures t in Deleted(files, targets, force, fate) <==> t in targets && ToDelete(files, force, fate, t)
  {
    hide Unshared, SoftLinks;
    var kept := Unshared(files, SoftLinks(files, targets), targets);
    InKeep(targets, Failing(BlobsOf(kept), fate), t);
    assert targets[..|targets|] == targets;
    UnsharedIff(files, targets, targets, t);
    if u :| t in targets && u in kept && BlobOf(u.row) == BlobOf(t.row) {
      UnsharedIff(files, targets, targets, u);
      assert t.id == u.id;
    }
  }

  /** No id stands twice. */
  ghost predicate Once(ts: seq<Target>) {
    forall i, j :: 0 <= i < j < |ts| ==> ts[i].id != ts[j].id
  }

  /** Nothing that is kept for deletion stands twice. */
  ghost predicate OnceUnless(ts: seq<Target>, failed: set<Blob>) {
    forall i, j :: 0 <= i < j < |ts| && BlobOf(ts[i].row) !in failed ==> ts[i].id != ts[j].id
  }

  lemma {:induction false} KeepOnce(files: Files, targets: seq<Target>, failed: set<Blob>)
    requires Current(files, targets)
    ensures Once(Keep(targets, failed)) <==> OnceUnless(targets, failed)
  {
    if targets == [] {
      assert Keep(targets, failed) == [];
    } else {
      var last := |targets| - 1;
      var before, t := targets[..last], targets[last];
      assert Current(files, before) && targets == before + [t];
      hide Once, OnceUnless, Current;
      KeepOnce(files, before, failed);
      forall u
        ensures u in Keep(before, failed) <==> u in before && BlobOf(u.row) !in failed
      {
        InKeep(before, failed, u);
      }
      assert Keep(targets, failed) ==
             if BlobOf(t.row) in failed then Keep(before, failed) else Keep(before, failed) + [t];
      OneMoreOnce(Keep(before, failed), t);
      OneMoreUnless(before, t, failed);
      forall u <- before | u.id == t.id
        ensures u == t
      {
        SameId(files, targets, u, t);
      }
    }
  }

  lemma SameId(files: Files, targets: seq<Target>, t: Target, u: Target)
    requires Current(files, targets) && t in targets && u in targets && t.id == u.id
    ensures t == u
  {
  }

  lemma OneMoreUnless(ts: seq<Target>, t: Target, failed: set<Blob>)
    ensures OnceUnless(ts + [t], failed) <==>
            OnceUnless(ts, failed) && forall u <- ts :: BlobOf(u.row) !in failed ==> u.id != t.id
  {
    var more := ts + [t];
    assert forall i :: 0 <= i < |ts| ==> more[i] == ts[i] && ts[i] in ts;
    if OnceUnless(more, failed) {
      forall u <- ts | BlobOf(u.row) !in failed
        ensures u.id != t.id
      {
        var i :| 0 <= i < |ts| && ts[i] == u;
        assert more[i].id != more[|ts|].id;
      }
    }
  }

  lemma OneMoreOnce(ts: seq<Target>, t: Target)
    ensures Once(ts + [t]) <==> Once(ts) && forall u <- ts :: u.id != t.id
  {
    var more := ts + [t];
    assert forall i :: 0 <= i < |ts| ==> more[i] == ts[i] && ts[i] in ts;
    if Once(more) {
      forall u <- ts
        ensures u.id != t.id
      {
        var i :| 0 <= i < |ts| && ts[i] == u;
        assert more[i].id != more[|ts|].id;
      }
    }
  }

  /** Without a failing query the rows can be deleted exactly if those to be deleted are the
      user's, and none of them was chosen twice. */
  lemma DeletableIffOnce(files: Files, targets: seq<Target>, force: bool, fate: Fate, uid: nat)
    requires Current(files, targets)
    ensures Deletable(files, HandlesOf(Deleted(files, targets, force, fate)), uid) <==>
      && (forall t <- targets :: ToDelete(files, force, fate, t) ==> t.row.user == uid)
      && (forall i, j :: 0 <= i < j < |targets| && ToDelete(files, force, fate, targets[i]) ==>
            targets[i].id != targets[j].id)
  {
    var gone := Deleted(files, targets, force, fate);
    AllCurrent(files, targets, force, fate, uid);
    forall t
      ensures t in gone <==> t in targets && ToDelete(files, force, fate, t)
    {
      InDeleted(files, targets, force, fate, t);
    }
    if !force {
      var failed := Failing(BlobsOf(Unshared(files, SoftLinks(files, targets), targets)), fate);
      KeepOnce(files, targets, failed);
      forall t <- targets
        ensures ToDelete(files, force, fate, t) <==> BlobOf(t.row) !in failed
      {
        InKeep(targets, failed, t);
      }
    }
  }

  lemma AllCurrent(files: Files, targets: seq<Target>, force: bool, fate: Fate, uid: nat)
    requires Current(files, targets)
    ensures var gone := Deleted(files, targets, force, fate);
      Deletable(files, HandlesOf(gone), uid) <==> Once(gone) && forall t <- gone :: t.row.user == uid
  {
    var gone := Deleted(files, targets, force, fate);
    var hs := HandlesOf(gone);
    DeletableIff(files, hs, uid);
    forall i | 0 <= i < |gone|
      ensures gone[i] in gone && UpToDate(files, hs[i]) && hs[i].id == gone[i].id && hs[i].user == gone[i].row.user
    {
      assert gone[i] in gone;
      InDeleted(files, targets, force, fate, gone[i]);
    }
    hide Deletable, Deleted, HandlesOf, Current, UpToDate;
    if t :| t in gone && t.row.user != uid {
      var i :| 0 <= i < |gone| && gone[i] == t;
      assert hs[i].user != uid;
    }
  }

  lemma IsGone(files: Files, ts: seq<Target>, id: nat)
    ensures id in Without(files, HandlesOf(ts)) <==> id in files && forall t <- ts :: t.id != id
    ensures id in Without(files, HandlesOf(ts)) ==> Without(files, HandlesOf(ts))[id] == files[id]
  {
    var hs := HandlesOf(ts);
    InWithout(files, hs);
    if t :| t in ts && t.id == id {
      var i :| 0 <= i < |ts| && ts[i] == t;
      assert hs[i].id == id;
    }
    if i :| 0 <= i < |hs| && hs[i].id == id {
      assert ts[i] in ts;
    }
  }

  /** When the rows are deleted, no row that is left refers to an object that was removed. */
  lemma NothingDangles(files: Files, targets: seq<Target>, force: bool, fate: Fate, id: nat)
    requires Current(files, targets)
    requires id in Without(files, HandlesOf(Deleted(files, targets, force, fate)))
    ensures id in files && BlobOf(files[id]) !in Removed(files, targets, fate)
  {
    hide Without, HandlesOf, Deleted, Removed;
    var gone := Deleted(files, targets, force, fate);
    IsGone(files, gone, id);
    var b := BlobOf(files[id]);
    RemovedIff(files, targets, fate, b);
    if b in Removed(files, targets, fate) {
      var t :| t in targets && t.row.policy == b.policy && t.row.source == b.source
               && t.id in files && Alone(files, t.id);
      assert t.id == id;
      InDeleted(files, targets, force, fate, t);
    }
  }

  predicate Referred(files: Files, b: Blob) {
    exists id <- files :: BlobOf(files[id]) == b
  }

  /** The object of a chosen file is left behind, with no row that refers to it, exactly if every
      row that refers to it was chosen, and these are several, or the handler could not remove it
      and the deletion was forced. */
  lemma LeftBehindIff(files: Files, targets: seq<Target>, force: bool, fate: Fate, t: Target)
    requires Current(files, targets) && t in targets
    ensures var b := BlobOf(t.row);
      var left := Without(files, HandlesOf(Deleted(files, targets, force, fate)));
      b !in Removed(files, targets, fate) && !Referred(left, b) <==>
        && t.id in files && (!Alone(files, t.id) || (force && Fails(b, fate)))
        && forall id <- files :: BlobOf(files[id]) == b ==> exists u <- targets :: u.id == id
  {
    var b := BlobOf(t.row);
    RemovedIff(files, targets, fate, b);
    ReferredIff(files, targets, force, fate, b);
    hide Without, HandlesOf, Deleted, Removed, Fails;
    assert t.id in files && files[t.id] == t.row;
    if Alone(files, t.id) {
      assert forall u <- targets :: BlobOf(u.row) == b && u.id in files ==> u.id == t.id;
    } else {
      assert forall id <- files :: BlobOf(files[id]) == b ==> !Alone(files, id);
    }
  }

  /** A row that refers to the object is left exactly if one was not chosen, or must be kept. */
  lemma ReferredIff(files: Files, targets: seq<Target>, force: bool, fate: Fate, b: Blob)
    requires Current(files, targets)
    ensures Referred(Without(files, HandlesOf(Deleted(files, targets, force, fate))), b) <==>
            exists id <- files ::
              BlobOf(files[id]) == b && !(exists u <- targets :: u.id == id && ToDelete(files, force, fate, u))
  {
    hide Without, HandlesOf, Deleted, ToDelete;
    var left := Without(files, HandlesOf(Deleted(files, targets, force, fate)));
    forall id: nat
      ensures id in left <==> id in files && !(exists u <- targets :: u.id == id && ToDelete(files, force, fate, u))
      ensures id in left ==> left[id] == files[id]
    {
      StaysIff(files, targets, force, fate, id);
    }
    if id :| id in files && BlobOf(files[id]) == b
             && !(exists u <- targets :: u.id == id && ToDelete(files, force, fate, u)) {
      assert id in left && BlobOf(left[id]) == b;
    }
  }

  /** The rows that are left when those to be deleted are. */
  lemma StaysIff(files: Files, targets: seq<Target>, force: bool, fate: Fate, id: nat)
    requires Current(files, targets)
    ensures var left := Without(files, HandlesOf(Deleted(files, targets, force, fate)));
      && (id in left <==> id in files && !(exists u <- targets :: u.id == id && ToDelete(files, force, fate, u)))
      && (id in left ==> left[id] == files[id])
  {
    hide Without, HandlesOf, Deleted, ToDelete;
    var gone := Deleted(files, targets, force, fate);
    IsGone(files, gone, id);
    forall u
      ensures u in gone <==> u in targets && ToDelete(files, force, fate, u)
    {
      InDeleted(files, targets, force, fate, u);
    }
  }

  /** Two rows that share an object, deleted together: both rows are gone, the object is not. */
  lemma SharedPairIsLeftBehind(files: Files, targets: seq<Target>, a: File, fate: Fate)
    requires files == map[1 := a, 2 := a] && targets == [Target(1, a), Target(2, a)]
    ensures Current(files, targets)
    ensures Removed(files, targets, fate) == {}
    ensures Without(files, HandlesOf(Deleted(files, targets, false, fate))) == map[]
  {
    var links := SoftLinks(files, targets);
    PairIsShared(files, targets, a);
    hide Unshared, SoftLinks;
    assert BlobsOf(Unshared(files, links, targets)) == {};
    assert Failing({}, fate) == {};
    var none: set<Blob> := {};
    assert targets[..1] == [targets[0]] && targets[..1][..0] == [];
    assert Keep(targets[..1], none) == [targets[0]] && Keep(targets, none) == targets;
    assert Deleted(files, targets, false, fate) == targets;
    hide Deleted, Keep, Without, HandlesOf;
    forall id: nat
      ensures id !in Without(files, HandlesOf(targets))
    {
      IsGone(files, targets, id);
      assert targets[0] in targets && targets[1] in targets;
    }
  }

  lemma PairIsShared(files: Files, targets: seq<Target>, a: File)
    requires files == map[1 := a, 2 := a] && targets == [Target(1, a), Target(2, a)]
    ensures Unshared(files, SoftLinks(files, targets), targets) == []
  {
    var links := SoftLinks(files, targets);
    assert BlobOf(files[1]) == BlobOf(files[2]);
    SharedIff(files, targets, 0);
    SharedIff(files, targets, 1);
    hide Shared, SoftLinks;
    assert targets[..1] == [targets[0]] && targets[..1][..0] == [];
    assert Unshared(files, links, targets[..1]) == [];
  }

  /** A file chosen twice, by itself and with its folder: its object is removed, but the deletion
      of its row fails. */
  lemma ChosenTwice(a: File, fate: Fate, uid: nat)
    requires !Fails(BlobOf(a), fate)
    ensures var files := map[1 := a];
      var targets := [Target(1, a), Target(1, a)];
      && Current(files, targets) && BlobOf(a) in Removed(files, targets, fate)
      && !Deletable(files, HandlesOf(Deleted(files, targets, false, fate)), uid)
  {
    var files := map[1 := a];
    var t := Target(1, a);
    var targets := [t, t];
    assert targets[0] in targets && Alone(files, 1);
    RemovedIff(files, targets, fate, BlobOf(a));
    hide Removed;
    var attempted := BlobsOf(Unshared(files, SoftLinks(files, targets), targets));
    var failed := Failing(attempted, fate);
    assert BlobOf(a) !in failed;
    assert targets[..1] == [t] && targets[..1][..0] == [];
    assert Keep(targets[..1], failed) == [t] && Keep(targets, failed) == targets;
    DeletableIff(files, HandlesOf(targets), uid);
  }

  // ---------------------------------------------------------------- folders

  /** ListDeleteDirs, the folders: all below the chosen ones and these themselves, without the
      first that has no parent, which is the user's root. */
  method ListDeleteDirs(db: Database, dirs: set<nat>, uid: nat)
    returns (ok: bool, ids: seq<nat>, ghost levels: seq<seq<nat>>)
    modifies db`queries
    ensures Walks(db.folders, uid, dirs, levels) && Rounds(levels, db.queries - old(db.queries))
    ensures ok <==> db.NoneFails(old(db.queries), db.queries)
    ensures ok ==> Complete(db.folders, uid, dirs, levels)
    ensures ok ==> ids == WithoutRoot(db.folders, Found(levels, true))
    ensures ok && OneRoot(db.folders, uid) ==> forall id <- ids :: !IsRoot(db.folders, id)
  {
    ok, ids, levels := GetRecursiveChildFolder(db, dirs, uid, true);
    if !ok {
      return;
    }
    if OneRoot(db.folders, uid) {
      NoRootLeft(db.folders, uid, dirs, levels);
    }
    ids := DropFirstRoot(db.folders, ids);
  }

  method DropFirstRoot(t: Folders, found: seq<nat>) returns (ids: seq<nat>)
    ensures ids == WithoutRoot(t, found)
  {
    ids := found;
    for i := 0 to |ids|
      invariant ids == found && forall k :: 0 <= k < i ==> !IsRoot(t, found[k])
    {
      if ids[i] in t && t[ids[i]].parent.None? {
        ids := ids[..i] + ids[i + 1..];
        FirstRootGoes(t, found, i);
        return;
      }
    }
    FirstRootGoes(t, found, |found|);
  }

  lemma {:induction false} FirstRootGoes(t: Folders, ids: seq<nat>, i: nat)
    requires i <= |ids| && (forall k :: 0 <= k < i ==> !IsRoot(t, ids[k])) && (i < |ids| ==> IsRoot(t, ids[i]))
    ensures WithoutRoot(t, ids) == if i < |ids| then ids[..i] + ids[i + 1..] else ids
  {
    if i == 0 {
      assert |ids| > 0 ==> ids[..0] + ids[1..] == ids[1..];
    } else {
      FirstRootGoes(t, ids[1..], i - 1);
      assert ids == [ids[0]] + ids[1..];
      if i < |ids| {
        assert [ids[0]] + (ids[1..][..i - 1] + ids[1..][i..]) == ids[..i] + ids[i + 1..];
      }
    }
  }

  function WithoutRoot(t: Folders, ids: seq<nat>): seq<nat> {
    if ids == [] then []
    else if ids[0] in t && t[ids[0]].parent.None? then ids[1..]
    else [ids[0]] + WithoutRoot(t, ids[1..])
  }

  /** What is not a root stays, and no root is left exactly if at most one place of the list has
      a root. */
  lemma {:induction false} RootIsKept(t: Folders, ids: seq<nat>)
    ensures forall id :: !IsRoot(t, id) ==> (id in WithoutRoot(t, ids) <==> id in ids)
    ensures (forall id <- WithoutRoot(t, ids) :: !IsRoot(t, id)) <==> RootAtMostOnce(t, ids)
  {
    if ids == [] {
      assert WithoutRoot(t, ids) == [];
    } else {
      var rest := ids[1..];
      assert ids == [ids[0]] + rest;
      if IsRoot(t, ids[0]) {
        forall id <- rest
          ensures exists j :: 0 < j < |ids| && ids[j] == id
        {
          var i :| 0 <= i < |rest| && rest[i] == id;
          assert ids[i + 1] == id;
        }
      } else {
        RootIsKept(t, rest);
        assert forall j :: 0 < j < |ids| ==> ids[j] == rest[j - 1];
        assert forall j :: 0 <= j < |rest| ==> ids[j + 1] == rest[j];
      }
    }
  }

  ghost predicate RootAtMostOnce(t: Folders, ids: seq<nat>) {
    forall i, j :: 0 <= i < j < |ids| && IsRoot(t, ids[i]) ==> !IsRoot(t, ids[j])
  }

  ghost predicate OneRoot(t: Folders, uid: nat) {
    forall a, b :: IsRoot(t, a) && IsRoot(t, b) && t[a].owner == uid && t[b].owner == uid ==> a == b
  }

  /** A user's only root is found at most once, however the chosen folders lie: it is below none. */
  lemma {:induction false} RootFoundOnce(t: Folders, uid: nat, start: set<nat>, levels: seq<seq<nat>>)
    requires Walks(t, uid, start, levels) && OneRoot(t, uid)
    ensures RootAtMostOnce(t, Flat(levels))
  {
    hide Level;
    if levels == [] {
      assert Flat(levels) == [];
    } else {
      var last := |levels| - 1;
      RootFoundOnce(t, uid, start, levels[..last]);
      Levels(t, uid, start, last);
      assert levels[last] == levels[..last + 1][last];
      assert Lists(levels[last], Level(t, uid, start, last));
      assert forall i :: 0 <= i < |levels[last]| ==> levels[last][i] in levels[last];
      if last == 0 {
        assert Flat(levels) == levels[0];
      }
    }
  }

  lemma NoRootLeft(t: Folders, uid: nat, start: set<nat>, levels: seq<seq<nat>>)
    requires Complete(t, uid, start, levels) && OneRoot(t, uid)
    ensures forall id <- WithoutRoot(t, Found(levels, true)) :: !IsRoot(t, id)
  {
    RootFoundOnce(t, uid, start, levels);
    RootIsKept(t, Flat(levels));
    hide RootAtMostOnce, IsRoot, WithoutRoot;
  }

  /** Unless the limit cut the search off, every folder of the user below a folder that is to be
      deleted is to be deleted too. */
  lemma NoFolderLeftBelow(t: Folders, uid: nat, dirs: set<nat>, levels: seq<seq<nat>>, id: nat)
    requires Complete(t, uid, dirs, levels) && |levels| <= MAX_ROUNDS
    requires id in t && t[id].owner == uid && t[id].parent.Some?
    requires t[id].parent.value in WithoutRoot(t, Found(levels, true))
    ensures id in WithoutRoot(t, Found(levels, true))
  {
    var parent := t[id].parent.value;
    InWithoutRoot(t, Flat(levels), parent);
    InFlat(levels, parent);
    var k :| 0 <= k < |levels| && parent in levels[k];
    Levels(t, uid, dirs, k + 1);
    assert id in Level(t, uid, dirs, k + 1);
    InFlat(levels, id);
    RootIsKept(t, Flat(levels));
  }

  lemma {:induction false} InWithoutRoot(t: Folders, ids: seq<nat>, id: nat)
    requires id in WithoutRoot(t, ids)
    ensures id in ids
  {
    if ids != [] && !IsRoot(t, ids[0]) {
      if id != ids[0] {
        InWithoutRoot(t, ids[1..], id);
      }
    }
  }

  /** If all files of the folders were chosen and none is kept, no file is left in them. */
  lemma NoFileLeftIn(files: Files, targets: seq<Target>, force: bool, fate: Fate, dirs: seq<nat>)
    requires Current(files, targets) && |Deleted(files, targets, force, fate)| == |targets|
    requires forall id <- files :: files[id].folder in dirs ==> exists t <- targets :: t.id == id
    ensures var left := Without(files, HandlesOf(Deleted(files, targets, force, fate)));
      forall id <- left :: left[id].folder !in dirs
  {
    hide Without, HandlesOf, Current;
    var failed := Failing(BlobsOf(Unshared(files, SoftLinks(files, targets), targets)), fate);
    KeepIsShorter(targets, failed);
    assert Deleted(files, targets, force, fate) == targets;
    hide Deleted;
    forall id: nat
      ensures var left := Without(files, HandlesOf(targets));
        id in left ==> id in files && left[id] == files[id] && !(exists t <- targets :: t.id == id)
    {
      IsGone(files, targets, id);
    }
  }

  lemma {:induction false} KeepIsShorter(targets: seq<Target>, failed: set<Blob>)
    ensures |Keep(targets, failed)| <= |targets|
    ensures |Keep(targets, failed)| == |targets| ==> Keep(targets, failed) == targets
  {
    if targets == [] {
    } else {
      KeepIsShorter(targets[..|targets| - 1], failed);
    }
  }

  // ---------------------------------------------------------------- a whole deletion

  function TargetsOf(files: Files, ids: seq<nat>): (ts: seq<Target>)
    requires forall id <- ids :: id in files
    ensures |ts| == |ids| && forall i :: 0 <= i < |ids| ==> ts[i] == Target(ids[i], files[ids[i]])
  {
    seq(|ids|, i requires 0 <= i < |ids| => Target(ids[i], files[ids[i]]))
  }

  /** The files in some folders, whoever's they are. */
  function FilesIn(files: Files, folders: seq<nat>): set<nat> {
    set id | id in files && files[id].folder in folders
  }

  /** The user's among some files. User 0 stands for all users. */
  function FilesBy(files: Files, ids: set<nat>, uid: nat): set<nat> {
    set id | id in ids && id in files && (uid == 0 || files[id].user == uid)
  }

  /** What is to be deleted: the files in the folders, each once, and after them those chosen, each
      once. A file chosen with its folder stands twice. */
  ghost predicate Listed(files: Files, inFolders: set<nat>, chosen: set<nat>, targets: seq<Target>) {
    exists a, b ::
      && Lists(a, inFolders) && Lists(b, chosen) && (forall id <- a + b :: id in files)
      && targets == TargetsOf(files, a + b)
  }

  lemma ListedAre(files: Files, inFolders: set<nat>, chosen: set<nat>, targets: seq<Target>)
    requires Listed(files, inFolders, chosen, targets)
    ensures Current(files, targets)
    ensures forall id :: (exists t <- targets :: t.id == id) <==> id in inFolders + chosen
    ensures (forall i, j :: 0 <= i < j < |targets| ==> targets[i].id != targets[j].id) <==> inFolders !! chosen
  {
    var a, b :| Lists(a, inFolders) && Lists(b, chosen) && (forall id <- a + b :: id in files)
                && targets == TargetsOf(files, a + b);
    TargetIds(files, a + b, targets);
    TwiceIff(a, b, inFolders, chosen);
    hide Lists, TargetsOf, Current;
  }

  lemma TargetIds(files: Files, ids: seq<nat>, targets: seq<Target>)
    requires (forall id <- ids :: id in files) && targets == TargetsOf(files, ids)
    ensures Current(files, targets)
    ensures forall id :: (exists t <- targets :: t.id == id) <==> id in ids
    ensures (forall i, j :: 0 <= i < j < |targets| ==> targets[i].id != targets[j].id) <==> Distinct(ids)
  {
    assert forall i :: 0 <= i < |ids| ==> ids[i] in ids && targets[i].id == ids[i];
    hide TargetsOf;
    forall id
      ensures (exists t <- targets :: t.id == id) <==> id in ids
    {
      if id in ids {
        var i :| 0 <= i < |ids| && ids[i] == id;
        assert targets[i] in targets;
      }
    }
  }

  /** No id stands twice in two lists together exactly if they have none in common. */
  lemma TwiceIff(a: seq<nat>, b: seq<nat>, s: set<nat>, t: set<nat>)
    requires Lists(a, s) && Lists(b, t)
    ensures (forall id :: id in a + b <==> id in s + t) && (Distinct(a + b) <==> s !! t)
  {
    var ids := a + b;
    assert forall k :: 0 <= k < |a| ==> ids[k] == a[k] && a[k] in a;
    assert forall k :: |a| <= k < |ids| ==> ids[k] == b[k - |a|] && b[k - |a|] in b;
    if id :| id in s && id in t {
      var i :| 0 <= i < |a| && a[i] == id;
      var j :| 0 <= j < |b| && b[j] == id;
      assert ids[i] == ids[|a| + j];
    }
  }

  /** The listing part: of the folders chosen, with all below them, and their files; and of the
      files chosen. */
  method ListAll(db: Database, dirs: set<nat>, files: set<nat>, uid: nat)
    returns (ok: bool, folders: seq<nat>, targets: seq<Target>, ghost levels: seq<seq<nat>>)
    modifies db`queries
    ensures old(db.queries) <= db.queries && (ok <==> db.NoneFails(old(db.queries), db.queries))
    ensures ok && dirs == {} ==> folders == []
    ensures ok && dirs != {} ==>
      Complete(db.folders, uid, dirs, levels) && folders == WithoutRoot(db.folders, Found(levels, true))
    ensures ok && OneRoot(db.folders, uid) ==> forall id <- folders :: !IsRoot(db.folders, id)
    ensures ok ==> Listed(db.files, FilesIn(db.files, folders), FilesBy(db.files, files, uid), targets)
  {
    hide Database.NoneFails, Complete, Found, OneRoot, IsRoot, Lists, Walks, Rounds;
    ghost var first := db.queries;
    db.NoneYet(first);
    var a, b: seq<nat> := [], [];
    NothingListed(db.files, files, uid);
    ok, folders, targets, levels := true, [], [], [];
    if dirs != {} {
      ok, folders, levels := ListDeleteDirs(db, dirs, uid);
      if !ok {
        return;
      }
      ghost var asked := db.queries;
      ok, a := db.Find(FilesIn(db.files, folders));
      db.NoneInParts(first, asked, db.queries);
      if !ok {
        return;
      }
    }
    if files != {} {
      ghost var asked := db.queries;
      ok, b := db.Find(FilesBy(db.files, files, uid));
      db.NoneInParts(first, asked, db.queries);
      if !ok {
        return;
      }
    }
    ListedInFiles(db.files, a, FilesIn(db.files, folders));
    ListedInFiles(db.files, b, FilesBy(db.files, files, uid));
    targets := TargetsOf(db.files, a + b);
  }

  lemma NothingListed(files: Files, ids: set<nat>, uid: nat)
    ensures Lists([], FilesIn(files, [])) && (ids == {} ==> Lists([], FilesBy(files, ids, uid)))
  {
  }

  lemma ListedInFiles(files: Files, ids: seq<nat>, wanted: set<nat>)
    requires Lists(ids, wanted) && wanted <= files.Keys
    ensures forall id <- ids :: id in files
  {
  }

  /** Delete: folders and files are listed and deleted. If it succeeds, exactly the folders found
      are gone and exactly the files in them and those chosen, and no row lost its object. It
      succeeds exactly if no query fails, all these files are the user's, none was chosen with its
      folder, and none is kept because its object could not be removed. */
  method DeleteChosen(db: Database, store: Store, dirs: set<nat>, files: set<nat>, uid: nat, force: bool, fate: Fate)
    returns (err: Option<DeleteError>, ghost folders: seq<nat>, ghost levels: seq<seq<nat>>)
    requires db.Valid()
    modifies db, store
    ensures db.Valid() && (old(Conserved(db)) ==> Conserved(db))
    ensures err == Some(ListFailed) ==>
      db.files == old(db.files) && db.folders == old(db.folders) && store.blobs == old(store.blobs)
    ensures err != Some(ListFailed) && dirs == {} ==> folders == []
    ensures err != Some(ListFailed) && dirs != {} ==>
      Complete(old(db.folders), uid, dirs, levels) && folders == WithoutRoot(old(db.folders), Found(levels, true))
    ensures err.None? ==>
      var gone := FilesIn(old(db.files), folders) + FilesBy(old(db.files), files, uid);
      && db.folders == old(db.folders) - SetOf(folders) && db.files == old(db.files) - gone
      && (old(Backed(db.files, store.blobs)) ==> Backed(db.files, store.blobs))
    ensures err.None? ==>
      forall id :: id in db.files <==>
        && id in old(db.files) && old(db.files)[id].folder !in folders
        && !(id in files && (uid == 0 || old(db.files)[id].user == uid))
    ensures err == Some(ListFailed) ==> !db.NoneFails(old(db.queries), db.queries)
    ensures err.None? <==>
      && db.NoneFails(old(db.queries), db.queries)
      && CanDelete(old(db.files), FilesIn(old(db.files), folders), FilesBy(old(db.files), files, uid), uid, force, fate)
  {
    hide Database.NoneFails, Complete, Found, OneRoot, IsRoot, Listed, Deletable, Deleted, Without, Removed, Backed;
    hide CanDelete, FilesIn, FilesBy, Current, SetOf, WithoutRoot, HandlesOf, Tallies;
    ghost var first, rows, blobs := db.queries, db.files, store.blobs;
    var ok, ids, targets;
    ok, ids, targets, levels := ListAll(db, dirs, files, uid);
    folders := ids;
    if !ok {
      return Some(ListFailed), folders, levels;
    }
    ghost var asked, inFolders, chosen := db.queries, FilesIn(rows, ids), FilesBy(rows, files, uid);
    ListedAre(rows, inFolders, chosen, targets);
    CanDeleteIff(rows, inFolders, chosen, targets, uid, force, fate);
    err := Delete(db, store, targets, ids, uid, force, fate);
    db.NoneInParts(first, asked, db.queries);
    GoneAre(rows, folders, files, uid);
    if err.None? {
      AllGone(rows, targets, force, fate, inFolders + chosen);
    }
  }

  lemma GoneAre(files: Files, folders: seq<nat>, chosen: set<nat>, uid: nat)
    ensures forall id :: id in files ==>
      (id in FilesIn(files, folders) + FilesBy(files, chosen, uid) <==>
       files[id].folder in folders || (id in chosen && (uid == 0 || files[id].user == uid)))
  {
  }

  /** The files are the user's, none is meant twice, and each may be deleted. */
  ghost predicate CanDelete(files: Files, inFolders: set<nat>, chosen: set<nat>, uid: nat, force: bool, fate: Fate) {
    && inFolders !! chosen
    && forall id <- inFolders + chosen ::
         id in files && files[id].user == uid && ToDelete(files, force, fate, Target(id, files[id]))
  }

  /** All of the files are to be deleted, and can be. */
  lemma CanDeleteIff(files: Files, inFolders: set<nat>, chosen: set<nat>, targets: seq<Target>, uid: nat, force: bool,
                     fate: Fate)
    requires Listed(files, inFolders, chosen, targets)
    ensures CanDelete(files, inFolders, chosen, uid, force, fate) <==>
      && |Deleted(files, targets, force, fate)| == |targets|
      && Deletable(files, HandlesOf(Deleted(files, targets, force, fate)), uid)
  {
    hide Deletable, Deleted, HandlesOf, Listed, ToDelete;
    ListedAre(files, inFolders, chosen, targets);
    DeletableIffOnce(files, targets, force, fate, uid);
    AllDeletedIff(files, targets, force, fate);
    forall id <- inFolders + chosen
      ensures exists t <- targets :: t == Target(id, files[id]) && id in files
    {
      var t :| t in targets && t.id == id;
      IsRow(files, targets, t);
    }
    forall t <- targets
      ensures t.id in inFolders + chosen && t.id in files && t == Target(t.id, files[t.id])
    {
      IsRow(files, targets, t);
    }
    assert forall i :: 0 <= i < |targets| ==> targets[i] in targets;
    hide Current;
  }

  lemma IsRow(files: Files, targets: seq<Target>, t: Target)
    requires Current(files, targets) && t in targets
    ensures t.id in files && files[t.id] == t.row
  {
  }

  lemma AllDeletedIff(files: Files, targets: seq<Target>, force: bool, fate: Fate)
    requires Current(files, targets)
    ensures |Deleted(files, targets, force, fate)| == |targets| <==>
            forall t <- targets :: ToDelete(files, force, fate, t)
  {
    hide Unshared, SoftLinks, ToDelete;
    var failed := Failing(BlobsOf(Unshared(files, SoftLinks(files, targets), targets)), fate);
    KeepIsShorter(targets, failed);
    KeepsAll(targets, failed);
    forall t
      ensures t in Deleted(files, targets, force, fate) <==> t in targets && ToDelete(files, force, fate, t)
    {
      InDeleted(files, targets, force, fate, t);
    }
    forall t
      ensures t in Keep(targets, failed) <==> t in targets && BlobOf(t.row) !in failed
    {
      InKeep(targets, failed, t);
    }
  }

  lemma {:induction false} KeepsAll(targets: seq<Target>, failed: set<Blob>)
    ensures (forall t <- targets :: BlobOf(t.row) !in failed) ==> Keep(targets, failed) == targets
  {
    if targets == [] {
    } else {
      KeepsAll(targets[..|targets| - 1], failed);
    }
  }

  lemma AllGone(files: Files, targets: seq<Target>, force: bool, fate: Fate, gone: set<nat>)
    requires Current(files, targets) && |Deleted(files, targets, force, fate)| == |targets|
    requires forall id :: (exists t <- targets :: t.id == id) <==> id in gone
    ensures Without(files, HandlesOf(Deleted(files, targets, force, fate))) == files - gone
  {
    hide Without, HandlesOf, Current, Unshared, SoftLinks;
    var failed := Failing(BlobsOf(Unshared(files, SoftLinks(files, targets), targets)), fate);
    KeepIsShorter(targets, failed);
    assert Deleted(files, targets, force, fate) == targets;
    hide Deleted;
    forall id: nat
      ensures id in Without(files, HandlesOf(targets)) <==> id in files - gone
      ensures id in files - gone ==> Without(files, HandlesOf(targets))[id] == files[id]
    {
      IsGone(files, targets, id);
    }
  }

  predicate IsRoot(t: Folders, id: nat) {
    id in t && t[id].parent.None?
  }
}
