/** Copying a folder with everything below it. The copy has the shape of the original, nothing
    that was there is changed, and the size reported is the size of what was copied. */
module FolderCopy {
  import opened FileSizes
  import opened FolderTree
  import opened Options
  import opened Tables

  // ---------------------------------------------------------------- what a copy is

  /** The ids there are now are those there were and, for each one copied, a new one of its own. */
  ghost predicate NewIds(was: set<nat>, now: set<nat>, copyOf: map<nat, nat>) {
    && was <= now
    && (forall id <- now :: id in was || exists o <- copyOf :: copyOf[o] == id)
    && (forall o <- copyOf :: o in was && copyOf[o] !in was && copyOf[o] in now)
    && (forall o, p | o in copyOf && p in copyOf && o != p :: copyOf[o] != copyOf[p])
  }

  lemma OneNewId(was: set<nat>, now: set<nat>, copyOf: map<nat, nat>, o: nat, id: nat)
    requires NewIds(was, now, copyOf) && o in was && o !in copyOf && id !in now
    ensures NewIds(was, now + {id}, copyOf[o := id])
  {
    var more := copyOf[o := id];
    forall i <- now + {id}
      ensures i in was || exists p <- more :: more[p] == i
    {
      if i == id {
        assert more[o] == i;
      } else if i !in was {
        var p :| p in copyOf && copyOf[p] == i;
        assert more[p] == i;
      }
    }
  }

  /** The copies of the folders in the map's domain, and nothing else, are new. Each is a copy
      of the original but for its owner and its parent: the copy of the original's parent, and
      for the root the destination. */
  ghost predicate FoldersCopied(was: Folders, now: Folders, root: nat, dst: nat, owner: nat, copyOf: map<nat, nat>) {
    && NewIds(was.Keys, now.Keys, copyOf)
    && (forall id <- was :: now[id] == was[id])
    && (forall o <- copyOf :: o == root || (was[o].parent.Some? && was[o].parent.value in copyOf))
    && (forall o <- copyOf :: now[copyOf[o]]
          == Folder(was[o].name, Some(if o == root then dst else copyOf[was[o].parent.value]), owner))
  }

  ghost predicate FilesCopied(was: Files, now: Files, folderOf: map<nat, nat>, owner: nat, copyOf: map<nat, nat>) {
    && NewIds(was.Keys, now.Keys, copyOf)
    && (forall id <- was :: now[id] == was[id])
    && (forall o <- copyOf :: was[o].folder in folderOf)
    && (forall o <- copyOf :: now[copyOf[o]] == was[o].(folder := folderOf[was[o].folder], user := owner))
  }

  /** The files a copy takes along: the user's own in these folders, but for those still being
      uploaded. */
  function ToCopy(files: Files, uid: nat, folders: set<nat>): set<nat> {
    set id | id in files && files[id].user == uid && files[id].folder in folders && files[id].session.None?
  }

  /** The last of the first n places where the id stands. */
  function LastAt(ids: seq<nat>, n: nat, id: nat): (i: nat)
    requires n <= |ids| && id in ids[..n]
    ensures i < n && ids[i] == id && id !in ids[i + 1..n]
  {
    if ids[n - 1] == id then n - 1
    else
      assert ids[..n] == ids[..n - 1] + [ids[n - 1]];
      var i := LastAt(ids, n - 1, id);
      assert ids[i + 1..n] == ids[i + 1..n - 1] + [ids[n - 1]];
      i
  }

  /** The parent of the copy made of the i-th folder: the copy last made of its own parent. */
  function ParentCopy(was: Folders, ids: seq<nat>, copies: seq<nat>, i: nat, root: nat, dst: nat): Option<nat>
    requires i < |ids| && i <= |copies|
  {
    if ids[i] == root then Some(dst)
    else if ids[i] in was && was[ids[i]].parent.Some? && was[ids[i]].parent.value in ids[..i] then
      Some(copies[LastAt(ids, i, was[ids[i]].parent.value)])
    else None
  }

  /** The new rows are one copy for each of the first of these folders, in their order, whether a
      folder stands among them once or more often. */
  ghost predicate CopiesMade(was: Folders, now: Folders, ids: seq<nat>, copies: seq<nat>, root: nat, dst: nat,
                             owner: nat) {
    && |copies| <= |ids| && Distinct(copies)
    && (forall id :: id in now <==> id in was || id in copies)
    && (forall id <- was :: id !in copies && now[id] == was[id])
    && (forall i :: 0 <= i < |copies| ==> IsCopy(was, now, ids, copies, i, root, dst, owner))
  }

  ghost predicate IsCopy(was: Folders, now: Folders, ids: seq<nat>, copies: seq<nat>, i: nat, root: nat, dst: nat,
                         owner: nat)
    requires i < |copies| <= |ids|
  {
    && copies[i] in now && ids[i] in was && ParentCopy(was, ids, copies, i, root, dst).Some?
    && now[copies[i]] == Folder(was[ids[i]].name, ParentCopy(was, ids, copies, i, root, dst), owner)
  }

  lemma StaysCopy(was: Folders, now: Folders, ids: seq<nat>, copies: seq<nat>, i: nat, root: nat, dst: nat, owner: nat,
                  id: nat, row: Folder)
    requires i < |copies| < |ids| && IsCopy(was, now, ids, copies, i, root, dst, owner) && id !in now
    ensures IsCopy(was, now[id := row], ids, copies + [id], i, root, dst, owner)
  {
  }

  lemma LastIsCopy(was: Folders, now: Folders, ids: seq<nat>, copies: seq<nat>, root: nat, dst: nat, owner: nat,
                   id: nat)
    requires |copies| < |ids| && ids[|copies|] in was && ParentCopy(was, ids, copies, |copies|, root, dst).Some?
    ensures var row := Folder(was[ids[|copies|]].name, ParentCopy(was, ids, copies, |copies|, root, dst), owner);
      IsCopy(was, now[id := row], ids, copies + [id], |copies|, root, dst, owner)
  {
    assert ParentCopy(was, ids, copies + [id], |copies|, root, dst)
        == ParentCopy(was, ids, copies, |copies|, root, dst);
    hide ParentCopy;
  }

  lemma CopyMade(was: Folders, now: Folders, ids: seq<nat>, copies: seq<nat>, root: nat, dst: nat, owner: nat, id: nat)
    requires CopiesMade(was, now, ids, copies, root, dst, owner) && |copies| < |ids| && ids[|copies|] in was
    requires ParentCopy(was, ids, copies, |copies|, root, dst).Some? && id !in now
    ensures var row := Folder(was[ids[|copies|]].name, ParentCopy(was, ids, copies, |copies|, root, dst), owner);
      CopiesMade(was, now[id := row], ids, copies + [id], root, dst, owner)
  {
    hide ParentCopy, IsCopy, Distinct;
    var more := copies + [id];
    var row := Folder(was[ids[|copies|]].name, ParentCopy(was, ids, copies, |copies|, root, dst), owner);
    var later := now[id := row];
    LastIsCopy(was, now, ids, copies, root, dst, owner, id);
    forall i | 0 <= i < |copies|
      ensures more[i] == copies[i] && IsCopy(was, later, ids, more, i, root, dst, owner)
    {
      StaysCopy(was, now, ids, copies, i, root, dst, owner, id, row);
    }
    OneMoreDistinct(copies, id);
  }

  lemma OneMoreDistinct(ids: seq<nat>, id: nat)
    requires Distinct(ids) && id !in ids
    ensures Distinct(ids + [id]) && forall i :: i in ids + [id] <==> i in ids || i == id
  {
  }

  /** The cache leads from a folder to the copy last made of it. */
  ghost predicate CacheOk(ids: seq<nat>, copies: seq<nat>, cache: map<nat, nat>) {
    && |copies| <= |ids| && cache.Keys == SetOf(ids[..|copies|])
    && forall o <- cache :: o in ids[..|copies|] && cache[o] == copies[LastAt(ids, |copies|, o)]
  }

  lemma CacheMore(ids: seq<nat>, copies: seq<nat>, cache: map<nat, nat>, id: nat)
    requires CacheOk(ids, copies, cache) && |copies| < |ids|
    ensures CacheOk(ids, copies + [id], cache[ids[|copies|] := id])
  {
    var k := |copies|;
    assert ids[..k + 1] == ids[..k] + [ids[k]];
  }

  /** Those of some files that are not being uploaded. */
  function Finished(files: Files, ids: set<nat>): set<nat> {
    set id | id in ids && id in files && files[id].session.None?
  }

  lemma FolderCreated(was: Folders, now: Folders, root: nat, dst: nat, owner: nat, copyOf: map<nat, nat>,
                      o: nat, id: nat)
    requires FoldersCopied(was, now, root, dst, owner, copyOf)
    requires o in was && o !in copyOf && id !in now
    requires o == root || (was[o].parent.Some? && was[o].parent.value in copyOf)
    ensures var parent := if o == root then dst else copyOf[was[o].parent.value];
      FoldersCopied(was, now[id := Folder(was[o].name, Some(parent), owner)], root, dst, owner, copyOf[o := id])
  {
    NewIdsApart(was.Keys, now.Keys, copyOf, id);
    OneNewId(was.Keys, now.Keys, copyOf, o, id);
    hide NewIds;
    var parent := if o == root then dst else copyOf[was[o].parent.value];
    var later := now[id := Folder(was[o].name, Some(parent), owner)];
    assert later.Keys == now.Keys + {id};
  }

  lemma NewIdsApart(was: set<nat>, now: set<nat>, copyOf: map<nat, nat>, id: nat)
    requires NewIds(was, now, copyOf) && id !in now
    ensures id !in was && forall o <- copyOf :: o in was && copyOf[o] in now && copyOf[o] != id
  {
  }

  lemma FileCreated(was: Files, now: Files, folderOf: map<nat, nat>, owner: nat, copyOf: map<nat, nat>, o: nat, id: nat)
    requires FilesCopied(was, now, folderOf, owner, copyOf)
    requires o in was && o !in copyOf && id !in now && was[o].folder in folderOf
    ensures var row := was[o].(folder := folderOf[was[o].folder], user := owner);
      FilesCopied(was, now[id := row], folderOf, owner, copyOf[o := id])
  {
    OneNewId(was.Keys, now.Keys, copyOf, o, id);
    var later := now[id := was[o].(folder := folderOf[was[o].folder], user := owner)];
    assert later.Keys == now.Keys + {id};
    assert id !in was && forall p <- copyOf :: copyOf[p] != id;
    hide NewIds;
  }

  // ---------------------------------------------------------------- copying

  datatype CopyError = DatabaseFailed | NoParent

  /** Copies the folders, in the order in which they were found. */
  method CopyFolders(db: Database, ids: seq<nat>, root: nat, dst: nat, owner: nat)
    returns (err: Option<CopyError>, newIDCache: map<nat, nat>, ghost copies: seq<nat>)
    requires db.Valid() && ParentsFirst(db.folders, root, ids) && forall id <- ids :: id in db.folders
    modifies db`queries, db`folders, db`nextFolder
    ensures db.Valid() && (forall id <- old(db.folders) :: id in db.folders && db.folders[id] == old(db.folders)[id])
    ensures Distinct(ids) ==> FoldersCopied(old(db.folders), db.folders, root, dst, owner, newIDCache)
    ensures CopiesMade(old(db.folders), db.folders, ids, copies, root, dst, owner) && CacheOk(ids, copies, newIDCache)
    ensures err.None? ==> |copies| == |ids|
    ensures err.None? <==> db.NoneFails(old(db.queries), db.queries)
    ensures db.queries == old(db.queries) + |copies| + if err.None? then 0 else 1
    ensures err != Some(NoParent) && (err.None? ==> newIDCache.Keys == SetOf(ids))
  {
    hide FoldersCopied, CopiesMade, CacheOk, LastAt, SetOf, Database.NoneFails;
    db.NoneYet(db.queries);
    var rows := db.folders;
    newIDCache, copies := map[], [];
    NoCopiesMade(rows, ids, root, dst, owner);
    NoFoldersCopied(rows, root, dst, owner);
    for i := 0 to |ids|
      invariant db.Valid() && forall id <- rows :: id in db.folders && db.folders[id] == rows[id]
      invariant Distinct(ids) ==> FoldersCopied(rows, db.folders, root, dst, owner, newIDCache)
      invariant CopiesMade(rows, db.folders, ids, copies, root, dst, owner) && CacheOk(ids, copies, newIDCache)
      invariant |copies| == i && db.queries == old(db.queries) + i && db.NoneFails(old(db.queries), db.queries)
    {
      InCache(ids, copies, newIDCache);
      var o := ids[i];
      assert ids[..i + 1] == ids[..i] + [o];
      var newID: nat;
      if o == root {
        newID := dst;
      } else if rows[o].parent.Some? && rows[o].parent.value in newIDCache {
        newID := newIDCache[rows[o].parent.value];
      } else {
        return Some(NoParent), newIDCache, copies;
      }
      ghost var before := db.folders;
      db.NoneInParts(old(db.queries), db.queries, db.queries + 1);
      var ok, id := db.CreateFolder(Folder(rows[o].name, Some(newID), owner));
      if !ok {
        return Some(DatabaseFailed), newIDCache, copies;
      }
      if Distinct(ids) {
        assert o !in ids[..i];
        FolderCreated(rows, before, root, dst, owner, newIDCache, o, id);
      }
      CopyMade(rows, before, ids, copies, root, dst, owner, id);
      CacheMore(ids, copies, newIDCache, id);
      newIDCache, copies := newIDCache[o := id], copies + [id];
    }
    assert ids[..|ids|] == ids;
    InCache(ids, copies, newIDCache);
    err := None;
  }

  lemma NoCopiesMade(rows: Folders, ids: seq<nat>, root: nat, dst: nat, owner: nat)
    ensures CopiesMade(rows, rows, ids, [], root, dst, owner) && CacheOk(ids, [], map[])
  {
  }

  lemma InCache(ids: seq<nat>, copies: seq<nat>, cache: map<nat, nat>)
    requires CacheOk(ids, copies, cache)
    ensures forall o <- cache :: o in ids[..|copies|] && cache[o] == copies[LastAt(ids, |copies|, o)]
    ensures cache.Keys == SetOf(ids[..|copies|]) && forall o <- ids[..|copies|] :: o in cache
  {
  }

  lemma NoFoldersCopied(rows: Folders, root: nat, dst: nat, owner: nat)
    ensures FoldersCopied(rows, rows, root, dst, owner, map[])
  {
  }

  /** Copies one file, when some have been copied. */
  method CopyOne(db: Database, rows: Files, ghost n: nat, o: nat, folderOf: map<nat, nat>, owner: nat,
                 ghost copyOf: map<nat, nat>, ghost size: nat)
    returns (ok: bool, id: nat)
    requires db.Valid() && FilesCopied(rows, db.files, folderOf, owner, copyOf)
    requires o in rows && o !in copyOf && rows[o].folder in folderOf
    requires MoreUsed(rows, n, db.files, db.nextFile, owner, size)
    modifies db`queries, db`files, db`nextFile
    ensures db.Valid() && db.nextFile >= old(db.nextFile) && (ok ==> id >= old(db.nextFile))
    ensures db.queries == old(db.queries) + 1 && (ok <==> db.NoneFails(old(db.queries), db.queries))
    ensures FilesCopied(rows, db.files, folderOf, owner, if ok then copyOf[o := id] else copyOf)
    ensures ok ==> MoreUsed(rows, n, db.files, db.nextFile, owner, size + rows[o].size)
    ensures !ok ==> MoreUsed(rows, n, db.files, db.nextFile, owner, size)
  {
    hide FilesCopied, Used, Database.NoneFails;
    ghost var before, m := db.files, db.nextFile;
    var row := rows[o].(folder := folderOf[rows[o].folder], user := owner);
    ok, id := db.CreateFile(row);
    ghost var now := db.nextFile;
    forall u: nat
      ensures Used(db.files, u, now) == Used(before, u, m) + if ok && u == owner then row.size else 0
    {
      UsedFurther(before, u, m, now);
      if ok {
        assert id in db.files;
        UsedWith(before, id, row, u, now);
      }
    }
    if ok {
      FileCreated(rows, before, folderOf, owner, copyOf, o, id);
    }
    MoreUsedStill(rows, n, before, m, db.files, now, owner, size, if ok then rows[o].size else 0);
  }

  /** Copies the files found, in any order. */
  method CopyFiles(db: Database, ids: seq<nat>, uid: nat, folderOf: map<nat, nat>, owner: nat)
    returns (err: Option<CopyError>, size: nat, ghost copyOf: map<nat, nat>)
    requires db.Valid() && Distinct(ids)
    requires forall id <- ids :: id in db.files && db.files[id].folder in folderOf && db.files[id].user == uid
    modifies db`queries, db`files, db`nextFile
    ensures db.Valid() && FilesCopied(old(db.files), db.files, folderOf, owner, copyOf) && err != Some(NoParent)
    ensures db.nextFile >= old(db.nextFile) && forall o <- copyOf :: copyOf[o] >= old(db.nextFile)
    ensures err.None? <==> db.NoneFails(old(db.queries), db.queries)
    ensures db.queries == old(db.queries) + |copyOf| + if err.None? then 0 else 1
    ensures db.queries <= old(db.queries) + |ids|
    ensures err.None? ==> copyOf.Keys == Finished(old(db.files), SetOf(ids))
    ensures err.None? ==> size == Sum(old(db.files), copyOf.Keys, old(db.nextFile))
    ensures MoreUsed(old(db.files), old(db.nextFile), db.files, db.nextFile, owner,
              Sum(old(db.files), copyOf.Keys, old(db.nextFile)))
  {
    hide FilesCopied, Sum, Used, MoreUsed, Finished, Database.NoneFails;
    db.NoneYet(db.queries);
    NoneMoreUsed(db.files, db.nextFile, owner);
    NoneFinished(db.files);
    var rows := db.files;
    ghost var n := db.nextFile;
    copyOf, size := map[], 0;
    NothingCopied(rows, folderOf, owner, n);
    assert copyOf.Keys == {};
    for i := 0 to |ids|
      invariant db.Valid() && FilesCopied(rows, db.files, folderOf, owner, copyOf)
      invariant db.nextFile >= n && forall o <- copyOf :: copyOf[o] >= n
      invariant db.queries == old(db.queries) + |copyOf| <= old(db.queries) + i
      invariant db.NoneFails(old(db.queries), db.queries)
      invariant copyOf.Keys == Finished(rows, SetOf(ids[..i]))
      invariant size == Sum(rows, copyOf.Keys, n)
      invariant MoreUsed(rows, n, db.files, db.nextFile, owner, size)
    {
      var o := ids[i];
      assert o !in ids[..i];
      OneFinished(rows, ids, i);
      if rows[o].session.Some? {
        continue;
      }
      ghost var asked := db.queries;
      var ok, id := CopyOne(db, rows, n, o, folderOf, owner, copyOf, size);
      db.NoneInParts(old(db.queries), asked, db.queries);
      if !ok {
        return Some(DatabaseFailed), size, copyOf;
      }
      size := size + rows[o].size;
      SumAdd(rows, copyOf.Keys, o, n);
      assert copyOf[o := id].Keys == copyOf.Keys + {o};
      copyOf := copyOf[o := id];
    }
    assert ids[..|ids|] == ids;
    err := None;
  }

  lemma {:induction false} NotMore(a: set<nat>, b: set<nat>)
    requires a <= b
    ensures |a| <= |b|
  {
    if x :| x in a {
      NotMore(a - {x}, b - {x});
    }
  }

  lemma NoneFinished(files: Files)
    ensures Finished(files, SetOf([])) == {}
  {
  }

  lemma OneFinished(files: Files, ids: seq<nat>, i: nat)
    requires i < |ids| && ids[i] in files
    ensures ids[i] !in ids[..i] ==> ids[i] !in Finished(files, SetOf(ids[..i]))
    ensures Finished(files, SetOf(ids[..i + 1]))
         == Finished(files, SetOf(ids[..i])) + if files[ids[i]].session.None? then {ids[i]} else {}
  {
    assert ids[..i + 1] == ids[..i] + [ids[i]];
  }

  /** Asks for files and copies them. */
  method CopyFound(db: Database, wanted: set<nat>, uid: nat, folderOf: map<nat, nat>, owner: nat)
    returns (err: Option<CopyError>, size: nat, ghost fileOf: map<nat, nat>)
    requires db.Valid()
    requires forall id <- wanted :: id in db.files && db.files[id].folder in folderOf && db.files[id].user == uid
    modifies db`queries, db`files, db`nextFile
    ensures db.Valid() && db.nextFile >= old(db.nextFile) && err != Some(NoParent)
    ensures FilesCopied(old(db.files), db.files, folderOf, owner, fileOf)
    ensures forall o <- fileOf :: fileOf[o] >= old(db.nextFile)
    ensures err.None? <==> db.NoneFails(old(db.queries), db.queries)
    ensures old(db.queries) < db.queries <= old(db.queries) + |fileOf| + 2
    ensures db.queries <= old(db.queries) + |wanted| + 1
    ensures err.None? ==> db.queries == old(db.queries) + |fileOf| + 1
    ensures err.None? ==> fileOf.Keys == Finished(old(db.files), wanted)
    ensures err.None? ==> size == Sum(old(db.files), fileOf.Keys, old(db.nextFile))
    ensures MoreUsed(old(db.files), old(db.nextFile), db.files, db.nextFile, owner,
              Sum(old(db.files), fileOf.Keys, old(db.nextFile)))
  {
    hide FilesCopied, Sum, Used, MoreUsed, Finished, Database.NoneFails;
    fileOf, size := map[], 0;
    NoneMoreUsed(db.files, db.nextFile, owner);
    NothingCopied(db.files, folderOf, owner, db.nextFile);
    assert fileOf.Keys == {};
    var ok, ids := db.Find(wanted);
    if !ok {
      return Some(DatabaseFailed), 0, fileOf;
    }
    SetOfListed(ids, wanted);
    err, size, fileOf := CopyFiles(db, ids, uid, folderOf, owner);
    db.NoneInParts(old(db.queries), old(db.queries) + 1, db.queries);
  }

  lemma {:induction false} NothingCopied(files: Files, folderOf: map<nat, nat>, owner: nat, n: nat)
    ensures FilesCopied(files, files, folderOf, owner, map[]) && Sum(files, {}, n) == 0
  {
    if n == 0 {
    } else {
      NothingCopied(files, folderOf, owner, n - 1);
    }
  }

  /** CopyFolderTo. If one of the queries that list the folders fails, nothing is copied, and no
      error is reported; after the listing an error is reported exactly if a query fails. When it
      succeeds then, there is a copy of each folder found below it, in the copy last made of its
      parent, and a copy of each file in them that can be copied, in the copy last made of its
      folder, whether the destination is among those folders or not; and if the folder is not below
      itself, each folder is found and copied once. A copy that breaks off has made the first of
      these. In any case nothing that was there is changed. */
  method CopyFolderTo(db: Database, uid: nat, folderID: nat, dst: nat, owner: nat)
    returns (err: Option<CopyError>, size: nat,
             ghost listed: bool, ghost folderOf: map<nat, nat>, ghost fileOf: map<nat, nat>,
             ghost found: seq<nat>, ghost copies: seq<nat>, ghost listing: nat)
    requires db.Valid()
    modifies db`queries, db`folders, db`files, db`nextFolder, db`nextFile
    ensures db.Valid() && db.nextFile >= old(db.nextFile) && err != Some(NoParent)
    ensures forall id <- old(db.folders) :: id in db.folders && db.folders[id] == old(db.folders)[id]
    ensures FilesCopied(old(db.files), db.files, folderOf, owner, fileOf)
    ensures forall o <- fileOf :: fileOf[o] >= old(db.nextFile)
    ensures old(db.queries) < listing <= old(db.queries) + MAX_ROUNDS + 1
    ensures listed <==> db.NoneFails(old(db.queries), listing)
    ensures listed && err.None? <==> db.NoneFails(old(db.queries), db.queries)
    ensures listing <= db.queries <= listing + |copies| + |fileOf| + 2 && (!listed ==> db.queries == listing)
    ensures !listed ==> err.None? && size == 0 && fileOf == map[]
    ensures !listed ==> db.folders == old(db.folders) && db.files == old(db.files)
    ensures listed && !Cyclic(old(db.folders), uid, folderID) ==>
      FoldersCopied(old(db.folders), db.folders, folderID, dst, owner, folderOf)
    ensures listed ==>
      && CopiesMade(old(db.folders), db.folders, found, copies, folderID, dst, owner)
      && CacheOk(found, copies, folderOf)
      && ParentsFirst(old(db.folders), folderID, found)
      && (forall id :: id in found <==> Within(old(db.folders), uid, folderID, id, 0))
      && (Distinct(found) <==> !Cyclic(old(db.folders), uid, folderID))
    ensures listed && err.None? ==> |copies| == |found|
    ensures listed && err.None? ==> forall id :: id in folderOf <==> Within(old(db.folders), uid, folderID, id, 0)
    ensures err.None? ==> fileOf.Keys == (if listed then ToCopy(old(db.files), uid, folderOf.Keys) else {})
    ensures listed && err.None? ==> forall id ::
      id in fileOf <==>
        && id in old(db.files) && old(db.files)[id].user == uid && old(db.files)[id].folder in folderOf
        && old(db.files)[id].session.None?
    ensures err.None? ==> size == Sum(old(db.files), fileOf.Keys, old(db.nextFile))
    ensures MoreUsed(old(db.files), old(db.nextFile), db.files, db.nextFile, owner,
              Sum(old(db.files), fileOf.Keys, old(db.nextFile)))
  {
    hide FoldersCopied, FilesCopied, Sum, Within, Cyclic, CopiesMade, CacheOk, ParentsFirst, Database.NoneFails;
    found, copies := [], [];
    var ok, ids;
    ghost var levels;
    ok, ids, levels := GetRecursiveChildFolder(db, {folderID}, uid, true);
    listed, folderOf, fileOf, size, err, listing := ok, map[], map[], 0, None, db.queries;
    NothingCopied(db.files, folderOf, owner, db.nextFile);
    assert fileOf.Keys == {};
    if !ok {
      return;
    }
    ListedFolders(db.folders, uid, folderID, levels, ids);
    var newIDCache;
    found := ids;
    err, newIDCache, copies := CopyFolders(db, ids, folderID, dst, owner);
    db.NoneInParts(old(db.queries), listing, db.queries);
    folderOf := newIDCache;
    NothingCopied(db.files, folderOf, owner, db.nextFile);
    if err.Some? {
      return;
    }
    ghost var asked := db.queries;
    var wanted := set id | id in db.files && db.files[id].user == uid && db.files[id].folder in ids;
    err, size, fileOf := CopyFound(db, wanted, uid, newIDCache, owner);
    db.NoneInParts(old(db.queries), asked, db.queries);
  }

  /** A user's folder with a file in it, and a first query that fails: the copy reports success,
      but nothing has been copied. */
  method FailedListingIsNotReported() returns (db: Database, err: Option<CopyError>)
    ensures err.None? && |db.folders| == 1 && |db.files| == 1
  {
    hide FilesCopied, FoldersCopied, CopiesMade, CacheOk, Sum, Used, Within, Cyclic, ParentsFirst;
    db := new Database(map[1 := 10], n => n == 2);
    var _, folder := db.CreateFolder(Folder("d", None, 1));
    var _, _ := db.CreateFile(File("f", "f", 1, 10, folder, 0, None));
    var size;
    ghost var listed, folderOf, fileOf, found, copies, listing;
    assert db.fails(db.queries);
    err, size, listed, folderOf, fileOf, found, copies, listing := CopyFolderTo(db, 1, folder, folder, 1);
  }

  /** What CopyFolderTo uses of the answer it gets. */
  lemma ListedFolders(t: Folders, uid: nat, root: nat, levels: seq<seq<nat>>, ids: seq<nat>)
    requires Complete(t, uid, {root}, levels) && ids == Found(levels, true)
    ensures ParentsFirst(t, root, ids) && (forall id <- ids :: id in t)
    ensures forall id :: id in ids <==> Within(t, uid, root, id, 0)
    ensures Distinct(ids) <==> !Cyclic(t, uid, root)
  {
    FoundParentsFirst(t, uid, root, levels);
    forall id
      ensures id in ids <==> Within(t, uid, root, id, 0)
    {
      FoundIffWithin(t, uid, root, levels, true, id);
    }
    FoundOnceIff(t, uid, root, levels);
  }

  /** MoveOrCopyFileTo where it copies: the files chosen that are in the source folder. */
  method CopyFilesTo(db: Database, files: set<nat>, uid: nat, src: nat, dst: nat, owner: nat)
    returns (err: Option<CopyError>, size: nat, ghost fileOf: map<nat, nat>)
    requires db.Valid()
    modifies db`queries, db`files, db`nextFile
    ensures db.Valid() && db.nextFile >= old(db.nextFile)
    ensures FilesCopied(old(db.files), db.files, map[src := dst], owner, fileOf)
    ensures forall o <- fileOf :: fileOf[o] >= old(db.nextFile)
    ensures err.None? <==> db.NoneFails(old(db.queries), db.queries)
    ensures old(db.queries) < db.queries <= old(db.queries) + |fileOf| + 2
    ensures db.queries <= old(db.queries) + |files| + 1
    ensures err.None? ==> db.queries == old(db.queries) + |fileOf| + 1
    ensures err.None? ==> fileOf.Keys == ToCopy(old(db.files), uid, {src}) * files
    ensures err.None? ==> forall id ::
      id in fileOf <==>
        && id in files && id in old(db.files) && old(db.files)[id].user == uid && old(db.files)[id].folder == src
        && old(db.files)[id].session.None?
    ensures err.None? ==> size == Sum(old(db.files), fileOf.Keys, old(db.nextFile))
    ensures MoreUsed(old(db.files), old(db.nextFile), db.files, db.nextFile, owner,
              Sum(old(db.files), fileOf.Keys, old(db.nextFile)))
  {
    hide FilesCopied, Sum, Database.NoneFails;
    var wanted := set id | id in files && id in db.files && db.files[id].user == uid && db.files[id].folder == src;
    NotMore(wanted, files);
    err, size, fileOf := CopyFound(db, wanted, uid, map[src := dst], owner);
  }
}
