/** The storage a user has in use: every operation on files keeps it equal to the sizes of the
    user's files together, and uploads keep it within the user's limit. */
module Storage {
  import opened ChunkPlan
  import opened FileSizes
  import opened FolderCopy
  import opened FolderTree
  import opened Options
  import opened Tables

  /** What is recorded for each user is what the user's files take. */
  ghost predicate Tallies(files: Files, storage: map<nat, int>, n: nat) {
    && (forall id <- files :: files[id].user in storage)
    && (forall u <- storage :: storage[u] == Used(files, u, n))
  }

  ghost predicate Conserved(db: Database)
    reads db
  {
    db.Valid() && Tallies(db.files, db.storage, db.nextFile)
  }

  /** The files, what is recorded for each user, and a bound of the ids. */
  datatype Books = Books(files: Files, storage: map<nat, int>, n: nat)

  ghost function BooksOf(db: Database): Books
    reads db
  {
    Books(db.files, db.storage, db.nextFile)
  }

  /** What the user's files take beyond what is recorded has grown by the amount, and nobody
      else's has changed. */
  ghost predicate ShortBy(was: Books, now: Books, uid: nat, amount: int) {
    && now.storage.Keys == was.storage.Keys
    && forall u <- was.storage ::
         Used(now.files, u, now.n) - now.storage[u]
         == Used(was.files, u, was.n) - was.storage[u] + if u == uid then amount else 0
  }

  ghost predicate UsersKnown(b: Books) {
    forall id <- b.files :: b.files[id].user in b.storage
  }

  lemma TalliesAfter(was: Books, now: Books, uid: nat, amount: int)
    requires Tallies(was.files, was.storage, was.n) && ShortBy(was, now, uid, amount) && UsersKnown(now)
    ensures Tallies(now.files, now.storage, now.n) <==> amount == 0 || uid !in was.storage
  {
    hide Used;
  }

  lemma NothingShort(b: Books, uid: nat)
    ensures ShortBy(b, b, uid, 0)
  {
  }

  // ---------------------------------------------------------------- operations on rows

  /** ChangeStorage, for a user that exists or not. */
  function Charged(storage: map<nat, int>, uid: nat, delta: int): map<nat, int> {
    if uid in storage then storage[uid := storage[uid] + delta] else storage
  }

  /** Two statements and the commit after them all succeed, from the next query on. */
  predicate Commits(fails: nat -> bool, next: nat) {
    !fails(next) && !fails(next + 1) && !fails(next + 2)
  }

  /** The statements succeed, but the commit fails. */
  predicate OnlyCommitFails(fails: nat -> bool, next: nat) {
    !fails(next) && !fails(next + 1) && fails(next + 2)
  }

  /** File.Create: the row and the storage change together or not at all. */
  method CreateFile(db: Database, row: File) returns (ok: bool, id: nat)
    requires db.Valid()
    modifies db
    ensures db.Valid() && db.folders == old(db.folders)
    ensures !ok ==> db.files == old(db.files) && db.storage == old(db.storage)
    ensures ok ==> id !in old(db.files) && db.files == old(db.files)[id := row]
    ensures ok ==> db.storage == Charged(old(db.storage), row.user, row.size)
    ensures ok == Commits(db.fails, old(db.queries)) && (ok ==> db.queries == old(db.queries) + 3)
    ensures ok <==> db.NoneFails(old(db.queries), db.queries)
    ensures db.queries > old(db.queries) && ShortBy(old(BooksOf(db)), BooksOf(db), row.user, 0)
    ensures old(Conserved(db)) && row.user in old(db.storage) ==> Conserved(db)
  {
    hide Used;
    var files := db.files;
    ghost var n := db.nextFile;
    ok, id := db.CreateFile(row);
    forall u <- db.storage
      ensures Used(files, u, db.nextFile) == Used(files, u, n)
      ensures ok ==> Used(files[id := row], u, db.nextFile) == Used(files, u, n) + if row.user == u then row.size else 0
    {
      UsedFurther(files, u, n, db.nextFile);
      if ok {
        assert id in db.files;
        UsedWith(files, id, row, u, db.nextFile);
      }
    }
    if !ok {
      return;
    }
    ok := db.Query();
    if ok {
      ok := db.Query();
    }
    if !ok {
      db.files := files;
      return;
    }
    db.storage := Charged(db.storage, row.user, row.size);
  }

  /** A file as it was read from the database. */
  datatype Handle = Handle(id: nat, user: nat, size: nat)

  ghost predicate Genuine(files: Files, h: Handle) {
    h.id in files ==> files[h.id].user == h.user
  }

  predicate UpToDate(files: Files, h: Handle) {
    h.id in files && files[h.id].size == h.size
  }

  function Resized(files: Files, h: Handle, value: nat): Files {
    if UpToDate(files, h) then files[h.id := files[h.id].(size := value)] else files
  }

  /** UpdateSize: the row is changed if it still has the size it was read with. The storage is
      changed in either case; so what is recorded stays right exactly if the handle is not out
      of date or nothing is to change. The handle gets the new size before the commit: if that
      fails, nothing is changed but the handle, which is out of date then. */
  method UpdateSize(db: Database, h: Handle, value: nat) returns (ok: bool, after: Handle)
    requires db.Valid() && Genuine(db.files, h)
    modifies db
    ensures db.Valid() && db.folders == old(db.folders) && db.nextFile == old(db.nextFile)
    ensures ok == Commits(db.fails, old(db.queries)) && (ok <==> db.NoneFails(old(db.queries), db.queries))
    ensures !ok ==> db.files == old(db.files) && db.storage == old(db.storage)
    ensures after == if ok || OnlyCommitFails(db.fails, old(db.queries)) then h.(size := value) else h
    ensures db.queries > old(db.queries) && (after != h ==> db.queries == old(db.queries) + 3)
    ensures !ok || UpToDate(old(db.files), h) ==> ShortBy(old(BooksOf(db)), BooksOf(db), h.user, 0)
    ensures ok && !UpToDate(old(db.files), h) ==> ShortBy(old(BooksOf(db)), BooksOf(db), h.user, h.size - value)
    ensures ok ==> db.storage == Charged(old(db.storage), h.user, value - h.size)
    ensures ok ==> db.files == Resized(old(db.files), h, value)
    ensures old(Conserved(db)) && ok && h.user in old(db.storage) ==>
      (Conserved(db) <==> value == h.size || UpToDate(old(db.files), h))
    ensures old(Conserved(db)) && !ok ==> Conserved(db)
  {
    hide Tallies, ShortBy;
    NothingShort(BooksOf(db), h.user);
    after := h;
    var files, storage := db.files, db.storage;
    ok := db.Query();
    if !ok {
      return;
    }
    var matches := UpToDate(db.files, h);
    if matches {
      db.files := db.files[h.id := db.files[h.id].(size := value)];
    }
    ok := db.Query();
    if !ok {
      db.files := files;
      return;
    }
    db.storage := Charged(db.storage, h.user, value - h.size);
    after := h.(size := value);
    ok := db.Query();
    if !ok {
      db.files, db.storage := files, storage;
      return;
    }
    ResizeTalliesIff(files, storage, db.nextFile, h, value);
  }

  lemma ResizeTalliesIff(files: Files, storage: map<nat, int>, n: nat, h: Handle, value: nat)
    requires Genuine(files, h) && forall id <- files :: id < n
    ensures
      var was := Books(files, storage, n);
      var now := Books(Resized(files, h, value), Charged(storage, h.user, value - h.size), n);
      && (UpToDate(files, h) ==> ShortBy(was, now, h.user, 0))
      && (!UpToDate(files, h) ==> ShortBy(was, now, h.user, h.size - value))
    ensures Tallies(files, storage, n) && h.user in storage ==>
      (Tallies(Resized(files, h, value), Charged(storage, h.user, value - h.size), n) <==>
       value == h.size || UpToDate(files, h))
  {
    hide Used;
    if UpToDate(files, h) {
      forall u <- storage
        ensures Used(Resized(files, h, value), u, n) == Used(files, u, n) + if h.user == u then value - h.size else 0
      {
        UsedWith(files, h.id, files[h.id].(size := value), u, n);
      }
    }
  }

  ghost predicate AllGenuine(files: Files, hs: seq<Handle>) {
    forall i :: 0 <= i < |hs| ==> Genuine(files, hs[i])
  }

  function Without(files: Files, hs: seq<Handle>): Files {
    if hs == [] then files else Without(files, hs[..|hs| - 1]) - {hs[|hs| - 1].id}
  }

  function Sizes(hs: seq<Handle>): nat {
    if hs == [] then 0 else Sizes(hs[..|hs| - 1]) + hs[|hs| - 1].size
  }

  /** Each of these files is its user's, up to date when its turn comes, and so named only once. */
  predicate Deletable(files: Files, hs: seq<Handle>, uid: nat) {
    hs == [] ||
      var before, h := hs[..|hs| - 1], hs[|hs| - 1];
      Deletable(files, before, uid) && h.user == uid && UpToDate(Without(files, before), h)
  }

  /** DeleteFiles: all of the files and their share of the storage, or nothing. It fails exactly
      if a query fails or the files cannot all be deleted. */
  method DeleteFiles(db: Database, hs: seq<Handle>, uid: nat) returns (ok: bool)
    requires db.Valid() && AllGenuine(db.files, hs)
    modifies db
    ensures db.Valid() && db.folders == old(db.folders) && db.nextFile == old(db.nextFile)
    ensures !ok ==> db.files == old(db.files) && db.storage == old(db.storage)
    ensures ok ==> Deletable(old(db.files), hs, uid) && db.files == Without(old(db.files), hs)
    ensures ok ==> db.storage == Charged(old(db.storage), uid, 0 - Sizes(hs))
    ensures ok <==> Deletable(old(db.files), hs, uid) && db.NoneFails(old(db.queries), db.queries)
    ensures old(db.queries) <= db.queries <= old(db.queries) + |hs| + 2
    ensures ShortBy(old(BooksOf(db)), BooksOf(db), uid, 0) && (old(Conserved(db)) ==> Conserved(db))
  {
    hide Used, Sizes, Without, Deletable, Tallies, ShortBy, Database.NoneFails;
    ghost var was := BooksOf(db);
    NothingShort(was, uid);
    db.NoneYet(db.queries);
    NoneDeleted(db.files, hs[..0], uid);
    var files := db.files;
    var size := 0;
    ghost var storage := db.storage;
    for i := 0 to |hs|
      invariant db.Valid() && db.folders == old(db.folders) && db.nextFile == old(db.nextFile) && db.storage == storage
      invariant db.queries == old(db.queries) + i && db.NoneFails(old(db.queries), db.queries)
      invariant db.files == Without(files, hs[..i]) && size == Sizes(hs[..i]) && Deletable(files, hs[..i], uid)
      invariant forall id <- db.files :: id in files && db.files[id] == files[id]
      invariant forall u <- storage ::
        Used(db.files, u, db.nextFile) == Used(files, u, db.nextFile) - if u == uid then size else 0
    {
      var h := hs[i];
      assert hs[..i + 1][..i] == hs[..i] && Genuine(files, h);
      if h.user != uid {
        db.files := files;
        NotDeletable(files, hs, uid, i);
        return false;
      }
      db.NoneInParts(old(db.queries), db.queries, db.queries + 1);
      ok := db.Query();
      if !ok {
        db.files := files;
        return;
      }
      if !UpToDate(db.files, h) {
        db.files := files;
        NotDeletable(files, hs, uid, i);
        return false;
      }
      forall u <- storage
        ensures Used(db.files - {h.id}, u, db.nextFile)
             == Used(db.files, u, db.nextFile) - if u == uid then h.size else 0
      {
        UsedWithout(db.files, h.id, u, db.nextFile);
      }
      OneDeleted(files, hs[..i + 1], uid);
      db.files := db.files - {h.id};
      size := size + h.size;
    }
    assert hs[..|hs|] == hs;
    db.NoneInParts(old(db.queries), db.queries, db.queries + 1);
    ok := db.Query();
    if ok {
      db.NoneInParts(old(db.queries), db.queries, db.queries + 1);
      ok := db.Query();
    }
    if !ok {
      db.files := files;
      return;
    }
    db.storage := Charged(db.storage, uid, 0 - size);
    FewerTally(was, BooksOf(db), uid, size);
  }

  lemma FewerTally(was: Books, now: Books, uid: nat, size: nat)
    requires now.storage == Charged(was.storage, uid, 0 - size)
    requires forall id <- now.files :: id in was.files && now.files[id] == was.files[id]
    requires forall u <- was.storage ::
      Used(now.files, u, now.n) == Used(was.files, u, was.n) - if u == uid then size else 0
    ensures ShortBy(was, now, uid, 0)
    ensures Tallies(was.files, was.storage, was.n) ==> Tallies(now.files, now.storage, now.n)
  {
    hide Used;
  }

  lemma NoneDeleted(files: Files, hs: seq<Handle>, uid: nat)
    requires hs == []
    ensures Deletable(files, hs, uid)
    ensures Without(files, hs) == files && Sizes(hs) == 0
  {
  }

  lemma OneDeleted(files: Files, hs: seq<Handle>, uid: nat)
    requires hs != []
    ensures var before, h := hs[..|hs| - 1], hs[|hs| - 1];
      Deletable(files, hs, uid) <==>
      Deletable(files, before, uid) && h.user == uid && UpToDate(Without(files, before), h)
    ensures Without(files, hs) == Without(files, hs[..|hs| - 1]) - {hs[|hs| - 1].id}
    ensures Sizes(hs) == Sizes(hs[..|hs| - 1]) + hs[|hs| - 1].size
  {
  }

  lemma {:induction false} InWithout(files: Files, hs: seq<Handle>)
    ensures forall id :: id in Without(files, hs) <==> id in files && forall i :: 0 <= i < |hs| ==> hs[i].id != id
    ensures forall id <- Without(files, hs) :: Without(files, hs)[id] == files[id]
  {
    if hs == [] {
    } else {
      var last := |hs| - 1;
      InWithout(files, hs[..last]);
      assert forall i :: 0 <= i < last ==> hs[..last][i] == hs[i];
    }
  }

  /** In other words: the files are different ones, all of this user, and none is out of date. */
  lemma {:induction false} DeletableIff(files: Files, hs: seq<Handle>, uid: nat)
    ensures Deletable(files, hs, uid) <==>
      && (forall i :: 0 <= i < |hs| ==> hs[i].user == uid && UpToDate(files, hs[i]))
      && (forall i, j :: 0 <= i < j < |hs| ==> hs[i].id != hs[j].id)
  {
    hide Without;
    if hs == [] {
    } else {
      var last := |hs| - 1;
      InWithout(files, hs[..last]);
      DeletableIff(files, hs[..last], uid);
      assert forall i :: 0 <= i < last ==> hs[..last][i] == hs[i];
    }
  }

  lemma {:induction false} NotDeletable(files: Files, hs: seq<Handle>, uid: nat, i: nat)
    requires i < |hs| && !(hs[i].user == uid && UpToDate(Without(files, hs[..i]), hs[i]))
    ensures !Deletable(files, hs, uid)
  {
    if i == |hs| - 1 {
    } else {
      assert hs[..|hs| - 1][..i] == hs[..i];
      NotDeletable(files, hs[..|hs| - 1], uid, i);
    }
  }

  // ---------------------------------------------------------------- copies

  /** What copying folders did: the folders found and their copies, the last copy of each, the
      copies of files, and the files after it. */
  datatype DirLog = DirLog(
    listed: bool,
    found: seq<nat>,
    copies: seq<nat>,
    folderOf: map<nat, nat>,
    fileOf: map<nat, nat>,
    middle: Files)

  /** The copies of folders are as CopyFolderTo makes them. */
  ghost predicate DirsCopied(folders: Folders, files: Files, nowFolders: Folders, uid: nat, dirs: seq<nat>, dst: nat,
                             log: DirLog) {
    && (dirs == [] ==> log.middle == files && nowFolders == folders && log.fileOf == map[])
    && (dirs != [] && log.listed ==> log.fileOf.Keys == ToCopy(files, uid, log.folderOf.Keys))
    && (dirs != [] && log.listed ==> forall id :: id in log.folderOf <==> Within(folders, uid, dirs[0], id, 0))
    && (dirs != [] && log.listed ==>
          && |log.copies| == |log.found| && CacheOk(log.found, log.copies, log.folderOf)
          && CopiesMade(folders, nowFolders, log.found, log.copies, dirs[0], dst, uid))
    && (dirs != [] && log.listed && !Cyclic(folders, uid, dirs[0]) ==>
          FoldersCopied(folders, nowFolders, dirs[0], dst, uid, log.folderOf))
    && (dirs != [] ==> FilesCopied(files, log.middle, log.folderOf, uid, log.fileOf))
  }

  /** Those of files come after. */
  ghost predicate ChosenCopied(middle: Files, now: Files, uid: nat, chosen: set<nat>, src: nat, dst: nat,
                               fileOf: map<nat, nat>) {
    && (chosen == {} ==> now == middle && fileOf == map[])
    && (chosen != {} ==> FilesCopied(middle, now, map[src := dst], uid, fileOf))
    && (chosen != {} ==> fileOf.Keys == ToCopy(middle, uid, {src}) * chosen)
  }

  /** The part of Copy about folders. What it adds to the use is told even if it breaks off. */
  method CopyDirs(db: Database, uid: nat, dirs: seq<nat>, dst: nat)
    returns (ok: bool, size: nat, ghost log: DirLog, ghost added: nat)
    requires db.Valid()
    modifies db`queries, db`folders, db`files, db`nextFolder, db`nextFile
    ensures db.Valid() && log.middle == db.files && old(db.queries) <= db.queries && old(db.nextFile) <= db.nextFile
    ensures forall id <- old(db.folders) :: id in db.folders && db.folders[id] == old(db.folders)[id]
    ensures forall id <- old(db.files) :: id in db.files && db.files[id] == old(db.files)[id]
    ensures forall id <- db.files :: id in old(db.files) || db.files[id].user == uid
    ensures (ok && log.listed <==> db.NoneFails(old(db.queries), db.queries)) && (dirs == [] ==> log.listed)
    ensures dirs == [] ==> db.queries == old(db.queries)
    ensures ok ==> DirsCopied(old(db.folders), old(db.files), db.folders, uid, dirs, dst, log)
    ensures ok ==> size == added == Sum(old(db.files), log.fileOf.Keys, old(db.nextFile))
    ensures MoreUsed(old(db.files), old(db.nextFile), db.files, db.nextFile, uid, added)
  {
    hide Used, Sum, FilesCopied, FoldersCopied, Cyclic, Within, ToCopy, CopiesMade, CacheOk, Distinct, ParentsFirst;
    hide Database.NoneFails;
    db.NoneYet(db.queries);
    ok, size, log, added := true, 0, DirLog(true, [], [], map[], map[], db.files), 0;
    assert log.fileOf.Keys == {};
    NothingCopied(db.files, map[], uid, db.nextFile);
    if dirs != [] {
      var err;
      ghost var was, n := db.files, db.nextFile;
      ghost var listed, folderOf, fileOf, found, copies, listing := false, map[], map[], [], [], 0;
      err, size, listed, folderOf, fileOf, found, copies, listing := CopyFolderTo(db, uid, dirs[0], dst, uid);
      log := DirLog(listed, found, copies, folderOf, fileOf, db.files);
      FilesKept(was, db.files, folderOf, uid, fileOf);
      added := Sum(was, fileOf.Keys, n);
      ok := err.None?;
    }
  }

  /** The part of Copy about files. */
  method CopyChosen(db: Database, uid: nat, files: set<nat>, src: nat, dst: nat)
    returns (ok: bool, size: nat, ghost fileOf: map<nat, nat>, ghost added: nat)
    requires db.Valid()
    modifies db`queries, db`files, db`nextFile
    ensures db.Valid() && old(db.queries) <= db.queries && old(db.nextFile) <= db.nextFile
    ensures forall id <- old(db.files) :: id in db.files && db.files[id] == old(db.files)[id]
    ensures forall id <- db.files :: id in old(db.files) || db.files[id].user == uid
    ensures ok <==> db.NoneFails(old(db.queries), db.queries)
    ensures db.queries <= old(db.queries) + if files == {} then 0 else |files| + 1
    ensures ok ==> db.queries == old(db.queries) + if files == {} then 0 else |fileOf| + 1
    ensures ok ==> ChosenCopied(old(db.files), db.files, uid, files, src, dst, fileOf)
    ensures ok ==> size == added == Sum(old(db.files), fileOf.Keys, old(db.nextFile))
    ensures MoreUsed(old(db.files), old(db.nextFile), db.files, db.nextFile, uid, added)
  {
    hide Used, Sum, FilesCopied, ToCopy, Database.NoneFails;
    db.NoneYet(db.queries);
    ok, size, fileOf, added := true, 0, map[], 0;
    assert fileOf.Keys == {};
    NothingCopied(db.files, map[], uid, db.nextFile);
    if files != {} {
      var err;
      ghost var middle, n := db.files, db.nextFile;
      err, size, fileOf := CopyFilesTo(db, files, uid, src, dst, uid);
      FilesKept(middle, db.files, map[src := dst], uid, fileOf);
      added := Sum(middle, fileOf.Keys, n);
      ok := err.None?;
    }
  }

  /** Copy, but for the storage. */
  method CopyBoth(db: Database, uid: nat, dirs: seq<nat>, files: set<nat>, src: nat, dst: nat)
    returns (ok: bool, size: nat, ghost log: DirLog, ghost fileOf: map<nat, nat>, ghost added: nat)
    requires db.Valid()
    modifies db`queries, db`folders, db`files, db`nextFolder, db`nextFile
    ensures db.Valid() && old(db.queries) <= db.queries && (dirs == [] ==> log.listed)
    ensures forall id <- old(db.folders) :: id in db.folders && db.folders[id] == old(db.folders)[id]
    ensures forall id <- old(db.files) :: id in db.files && db.files[id] == old(db.files)[id]
    ensures forall id <- db.files :: id in old(db.files) || db.files[id].user == uid
    ensures ok && log.listed <==> db.NoneFails(old(db.queries), db.queries)
    ensures dirs == [] ==> db.queries <= old(db.queries) + if files == {} then 0 else |files| + 1
    ensures dirs == [] && ok ==> db.queries == old(db.queries) + if files == {} then 0 else |fileOf| + 1
    ensures ok ==> DirsCopied(old(db.folders), old(db.files), db.folders, uid, dirs, dst, log)
    ensures ok ==> ChosenCopied(log.middle, db.files, uid, files, src, dst, fileOf)
    ensures ok ==>
      size == added == Sum(old(db.files), log.fileOf.Keys, old(db.nextFile)) + Sum(log.middle, fileOf.Keys, db.nextFile)
    ensures MoreUsed(old(db.files), old(db.nextFile), db.files, db.nextFile, uid, added)
  {
    hide Used, Sum, MoreUsed, DirsCopied, ChosenCopied, Database.NoneFails;
    fileOf := map[];
    ghost var was, n, first := db.files, db.nextFile, db.queries;
    ok, size, log, added := CopyDirs(db, uid, dirs, dst);
    if !ok {
      return;
    }
    ghost var m, asked, more := db.nextFile, db.queries, 0;
    var fileSize;
    ok, fileSize, fileOf, more := CopyChosen(db, uid, files, src, dst);
    db.NoneInParts(first, asked, db.queries);
    MoreUsedStill(was, n, log.middle, m, db.files, db.nextFile, uid, added, more);
    added, size := added + more, size + fileSize;
    if ok {
      SumFurther(log.middle, fileOf.Keys, m, db.nextFile);
    }
  }

  /** Copy: the first of the folders chosen, and the files chosen, go to the destination; then
      the storage grows by what was copied, if that is anything, in the query charging. Whether
      that was recorded is not reported. If none of its queries fails, all of it is done; but if
      one fails, what was copied stays, and falls short of being recorded. */
  method Copy(db: Database, uid: nat, dirs: seq<nat>, files: set<nat>, src: nat, dst: nat)
    returns (ok: bool, ghost recorded: bool, ghost log: DirLog, ghost fileOf: map<nat, nat>, ghost short: nat,
             ghost charging: nat)
    requires db.Valid()
    modifies db
    ensures db.Valid() && old(db.queries) <= charging <= db.queries && (dirs == [] ==> log.listed)
    ensures forall id <- old(db.folders) :: id in db.folders && db.folders[id] == old(db.folders)[id]
    ensures forall id <- old(db.files) :: id in db.files && db.files[id] == old(db.files)[id]
    ensures forall id <- db.files :: id in old(db.files) || db.files[id].user == uid
    ensures ok && log.listed <==> db.NoneFails(old(db.queries), charging)
    ensures recorded <==> ok && db.NoneFails(charging, db.queries)
    ensures ok && recorded && log.listed <==> db.NoneFails(old(db.queries), db.queries)
    ensures ok ==>
      var copied := Sum(old(db.files), log.fileOf.Keys, old(db.nextFile)) + Sum(log.middle, fileOf.Keys, db.nextFile);
      && db.queries == charging + (if copied > 0 then 1 else 0)
      && db.storage == if recorded then Charged(old(db.storage), uid, copied) else old(db.storage)
    ensures !ok ==> db.queries == charging && db.storage == old(db.storage)
    ensures dirs == [] ==> charging <= old(db.queries) + if files == {} then 0 else |files| + 1
    ensures dirs == [] && ok ==> charging == old(db.queries) + if files == {} then 0 else |fileOf| + 1
    ensures ok ==> DirsCopied(old(db.folders), old(db.files), db.folders, uid, dirs, dst, log)
    ensures ok ==> ChosenCopied(log.middle, db.files, uid, files, src, dst, fileOf)
    ensures ShortBy(old(BooksOf(db)), BooksOf(db), uid, short) && (ok && recorded ==> short == 0)
    ensures old(Conserved(db)) && uid in old(db.storage) ==> (Conserved(db) <==> short == 0)
  {
    hide Used, Sum, MoreUsed, DirsCopied, ChosenCopied, Tallies, ShortBy, UsersKnown, Database.NoneFails;
    recorded := false;
    ghost var was := BooksOf(db);
    var size;
    ok, size, log, fileOf, short := CopyBoth(db, uid, dirs, files, src, dst);
    charging := db.queries;
    db.NoneYet(charging);
    CopiedShort(was, BooksOf(db), uid, short);
    CopiedTallies(was, BooksOf(db), uid, short);
    if !ok {
      return;
    }
    recorded := true;
    if size > 0 {
      var done := db.Query();
      db.NoneInParts(old(db.queries), charging, db.queries);
      recorded := done;
      if done {
        db.storage := Charged(db.storage, uid, size);
        ChargedShort(was, BooksOf(db), uid, size);
        CopiedTallies(was, BooksOf(db), uid, 0);
        short := 0;
      }
    } else {
      NothingCharged(db.storage, uid);
    }
  }

  lemma CopiedShort(was: Books, now: Books, uid: nat, amount: nat)
    requires MoreUsed(was.files, was.n, now.files, now.n, uid, amount) && now.storage == was.storage
    ensures ShortBy(was, now, uid, amount)
  {
    hide Used;
  }

  lemma ChargedShort(was: Books, now: Books, uid: nat, amount: nat)
    requires MoreUsed(was.files, was.n, now.files, now.n, uid, amount)
    requires now.storage == Charged(was.storage, uid, amount)
    ensures ShortBy(was, now, uid, 0)
  {
    hide Used;
  }

  /** New files are the user's, so if all users were known they still are. */
  lemma CopiedTallies(was: Books, now: Books, uid: nat, amount: int)
    requires ShortBy(was, now, uid, amount)
    requires forall id <- was.files :: id in now.files && now.files[id] == was.files[id]
    requires forall id <- now.files :: id in was.files || now.files[id].user == uid
    ensures Tallies(was.files, was.storage, was.n) && uid in was.storage ==>
      (Tallies(now.files, now.storage, now.n) <==> amount == 0)
  {
    if Tallies(was.files, was.storage, was.n) && uid in was.storage {
      assert UsersKnown(now);
      TalliesAfter(was, now, uid, amount);
    }
    hide Used;
  }

  lemma NothingCharged(storage: map<nat, int>, uid: nat)
    ensures Charged(storage, uid, 0) == storage
  {
  }

  lemma FilesKept(was: Files, now: Files, folderOf: map<nat, nat>, owner: nat, copyOf: map<nat, nat>)
    requires FilesCopied(was, now, folderOf, owner, copyOf)
    ensures forall id <- was :: id in now && now[id] == was[id]
    ensures forall id <- now :: id in was || now[id].user == owner
  {
  }

  // ---------------------------------------------------------------- whole runs

  datatype Change =
    | Add(row: File)
    | Resize(id: nat, value: nat)
    | Remove(ids: seq<nat>, uid: nat)
    | CopyTo(uid: nat, dirs: seq<nat>, files: set<nat>, src: nat, dst: nat)

  /** GetFilesByIDs: the rows there are of the files named, as they are now; those of one user, or of
      all users where none is given. However often a file is named, its row is read once. */
  function Read(files: Files, ids: seq<nat>, uid: nat): (hs: seq<Handle>)
    ensures AllGenuine(files, hs)
  {
    if ids == [] then []
    else
      var id := ids[0];
      (if id in files && (uid == 0 || files[id].user == uid) && id !in ids[1..]
       then [Handle(id, files[id].user, files[id].size)] else [])
      + Read(files, ids[1..], uid)
  }

  /** Each file that is named, there and the user's is read, once, and nothing else is. */
  lemma {:induction false} ReadIs(files: Files, ids: seq<nat>, uid: nat)
    ensures var hs := Read(files, ids, uid);
      && (forall h <- hs :: h.id in ids && h.id in files && h == Handle(h.id, files[h.id].user, files[h.id].size))
      && (forall h <- hs :: uid == 0 || h.user == uid)
      && (forall id <- ids :: id in files && (uid == 0 || files[id].user == uid) ==>
            Handle(id, files[id].user, files[id].size) in hs)
      && (forall i, j :: 0 <= i < j < |hs| ==> hs[i].id != hs[j].id)
  {
    if ids == [] {
    } else {
      ReadIs(files, ids[1..], uid);
      assert ids == [ids[0]] + ids[1..];
      var rest := Read(files, ids[1..], uid);
      assert forall h <- rest :: h.id in ids[1..];
    }
  }

  /** So what is removed for a user is always his and up to date, however it is named. */
  lemma ReadIsDeletable(files: Files, ids: seq<nat>, uid: nat)
    requires uid > 0
    ensures Deletable(files, Read(files, ids, uid), uid)
  {
    hide Read, Deletable;
    ReadIs(files, ids, uid);
    DeletableIff(files, Read(files, ids, uid), uid);
  }

  function UserOf(change: Change, files: Files): nat {
    match change
    case Add(row) => row.user
    case Resize(id, _) => if id in files then files[id].user else 0
    case Remove(_, uid) => uid
    case CopyTo(uid, _, _, _, _) => uid
  }

  /** All rows, and how many queries there have been. */
  datatype Snapshot = Snapshot(folders: Folders, books: Books, queries: nat)

  ghost function SnapshotOf(db: Database): Snapshot
    reads db
  {
    Snapshot(db.folders, BooksOf(db), db.queries)
  }

  ghost predicate SameRows(was: Snapshot, now: Snapshot) {
    now.folders == was.folders && now.books.files == was.books.files && now.books.storage == was.books.storage
  }

  /** The files are these now, and the user's storage has grown by so much. */
  ghost predicate Now(was: Snapshot, now: Snapshot, files: Files, uid: nat, delta: int) {
    && now.folders == was.folders && now.books.files == files
    && now.books.storage == Charged(was.books.storage, uid, delta)
  }

  /** All that was to be copied has been. */
  ghost predicate CopiedAll(was: Snapshot, now: Snapshot, uid: nat, dirs: seq<nat>, files: set<nat>, src: nat, dst: nat,
                            log: DirLog, fileOf: map<nat, nat>) {
    && log.listed && DirsCopied(was.folders, was.books.files, now.folders, uid, dirs, dst, log)
    && ChosenCopied(log.middle, now.books.files, uid, files, src, dst, fileOf)
    && now.books.storage == Charged(was.books.storage, uid,
         Sum(was.books.files, log.fileOf.Keys, was.books.n) + Sum(log.middle, fileOf.Keys, now.books.n))
  }

  /** What a change does: all of it or nothing, by whether its queries fail; but a copy in which a
      query fails may leave some copies. For an unknown user nothing is done. */
  ghost predicate Made(db: Database, was: Snapshot, now: Snapshot, change: Change) {
    var files, storage := was.books.files, was.books.storage;
    match change
    case Add(row) =>
      if row.user in storage && Commits(db.fails, was.queries) then
        exists id: nat :: id !in files && Now(was, now, files[id := row], row.user, row.size)
      else SameRows(was, now)
    case Resize(id, value) =>
      if id in files && Commits(db.fails, was.queries) then
        Now(was, now, files[id := files[id].(size := value)], files[id].user, value - files[id].size)
      else SameRows(was, now)
    case Remove(ids, uid) =>
      var hs := Read(files, ids, uid);
      if Deletable(files, hs, uid) && db.NoneFails(was.queries, now.queries) then
        Now(was, now, Without(files, hs), uid, 0 - Sizes(hs))
      else SameRows(was, now)
    case CopyTo(uid, dirs, chosen, src, dst) =>
      if uid !in storage then SameRows(was, now)
      else
        && (forall id <- was.folders :: id in now.folders && now.folders[id] == was.folders[id])
        && (forall id <- files :: id in now.books.files && now.books.files[id] == files[id])
        && (db.NoneFails(was.queries, now.queries) ==>
              exists log, fileOf :: CopiedAll(was, now, uid, dirs, chosen, src, dst, log, fileOf))
  }

  /** Makes one change, with handles that are up to date. What is recorded may fall short only in
      a copy, and only if a query fails. */
  method Make(db: Database, change: Change) returns (ghost short: nat)
    requires db.Valid()
    modifies db
    ensures db.Valid() && db.storage.Keys == old(db.storage.Keys) && db.queries >= old(db.queries)
    ensures Made(db, old(SnapshotOf(db)), SnapshotOf(db), change)
    ensures ShortBy(old(BooksOf(db)), BooksOf(db), UserOf(change, old(db.files)), short)
    ensures db.NoneFails(old(db.queries), db.queries) || !change.CopyTo? ==> short == 0
    ensures old(UsersKnown(BooksOf(db))) ==> UsersKnown(BooksOf(db))
    ensures old(Conserved(db)) ==> (Conserved(db) <==> short == 0)
  {
    hide Used, Read, Deletable, Without, ShortBy, Tallies, UsersKnown, Sizes, Sum, Database.NoneFails;
    hide DirsCopied, ChosenCopied, Commits;
    short := 0;
    ghost var before := SnapshotOf(db);
    ghost var was := BooksOf(db);
    db.NoneYet(db.queries);
    NothingShort(was, UserOf(change, db.files));
    match change {
      case Add(row) =>
        if row.user in db.storage {
          var ok, id := CreateFile(db, row);
          assert ok ==> Now(before, SnapshotOf(db), before.books.files[id := row], row.user, row.size);
        }
      case Resize(id, value) =>
        if id in db.files {
          var _, _ := UpdateSize(db, Handle(id, db.files[id].user, db.files[id].size), value);
        }
      case Remove(ids, uid) =>
        InWithout(db.files, Read(db.files, ids, uid));
        var _ := DeleteFiles(db, Read(db.files, ids, uid), uid);
      case CopyTo(uid, dirs, files, src, dst) =>
        if uid in db.storage {
          var ok;
          ghost var recorded, log, fileOf, charging;
          ok, recorded, log, fileOf, short, charging := Copy(db, uid, dirs, files, src, dst);
          assert ok && recorded && log.listed ==>
            CopiedAll(before, SnapshotOf(db), uid, dirs, files, src, dst, log, fileOf);
        }
    }
    KnownStay(was, BooksOf(db));
    TalliesStay(was, BooksOf(db), UserOf(change, was.files), short);
  }

  lemma KnownStay(was: Books, now: Books)
    requires now.storage.Keys == was.storage.Keys
    requires forall id <- now.files ::
      now.files[id].user in was.storage || (id in was.files && now.files[id].user == was.files[id].user)
    ensures UsersKnown(was) ==> UsersKnown(now)
  {
  }

  lemma TalliesStay(was: Books, now: Books, uid: nat, amount: int)
    requires ShortBy(was, now, uid, amount) && (UsersKnown(was) ==> UsersKnown(now))
    requires amount == 0 || uid in was.storage
    ensures Tallies(was.files, was.storage, was.n) ==> (Tallies(now.files, now.storage, now.n) <==> amount == 0)
  {
    if Tallies(was.files, was.storage, was.n) {
      TalliesKnow(was);
      TalliesAfter(was, now, uid, amount);
    }
    hide Used;
  }

  lemma TalliesKnow(b: Books)
    requires Tallies(b.files, b.storage, b.n)
    ensures UsersKnown(b)
  {
    hide Used;
  }

  /** What the users' files take beyond what is recorded for them. */
  ghost predicate ShortIs(b: Books, short: map<nat, nat>) {
    short.Keys == b.storage.Keys && forall u <- b.storage :: Used(b.files, u, b.n) == b.storage[u] + short[u]
  }

  /** The states between the changes. */
  ghost predicate RunOf(db: Database, changes: seq<Change>, trace: seq<Snapshot>) {
    && |trace| == |changes| + 1
    && forall i :: 0 <= i < |changes| ==> Made(db, trace[i], trace[i + 1], changes[i])
  }

  /** Over any run of creations, resizings, deletions and copies, what is recorded for a user is
      never more than what the user's files take; it is less only by copies in which a query
      failed. Without such a failure, or without copies, it is exactly that, and so taking away
      never leads below zero. */
  method MakeAll(db: Database, changes: seq<Change>) returns (ghost trace: seq<Snapshot>, ghost short: map<nat, nat>)
    requires Conserved(db)
    modifies db
    ensures RunOf(db, changes, trace) && trace[0] == old(SnapshotOf(db)) && trace[|changes|] == SnapshotOf(db)
    ensures db.Valid() && db.storage.Keys == old(db.storage.Keys) && ShortIs(BooksOf(db), short)
    ensures db.NoneFails(old(db.queries), db.queries) || (forall c <- changes :: !c.CopyTo?) ==> Conserved(db)
    ensures Conserved(db) <==> forall u <- short :: short[u] == 0
    ensures Conserved(db) ==> forall u <- db.storage :: db.storage[u] >= 0
  {
    hide Used, ShortBy, ShortIs, Tallies, Made, Database.NoneFails;
    trace := [SnapshotOf(db)];
    short := map u | u in db.storage :: 0;
    NothingIsShort(BooksOf(db), short);
    ghost var first := db.queries;
    for i := 0 to |changes|
      invariant RunOf(db, changes[..i], trace) && trace[0] == old(SnapshotOf(db)) && trace[i] == SnapshotOf(db)
      invariant db.Valid() && db.storage.Keys == old(db.storage.Keys) && UsersKnown(BooksOf(db))
      invariant ShortIs(BooksOf(db), short) && short.Keys == db.storage.Keys && first <= db.queries
      invariant db.NoneFails(first, db.queries) || (forall c <- changes[..i] :: !c.CopyTo?) ==>
        forall u <- short :: short[u] == 0
    {
      ghost var was, asked, uid := BooksOf(db), db.queries, UserOf(changes[i], db.files);
      ghost var more := Make(db, changes[i]);
      db.NoneInParts(first, asked, db.queries);
      assert changes[..i + 1] == changes[..i] + [changes[i]];
      assert changes[i] in changes[..i + 1];
      trace := trace + [SnapshotOf(db)];
      ShortMore(was, BooksOf(db), short, uid, more);
      if uid in short {
        short := short[uid := short[uid] + more];
      }
    }
    assert changes[..|changes|] == changes;
    TalliesIfNoneShort(BooksOf(db), short);
  }

  lemma NothingIsShort(b: Books, short: map<nat, nat>)
    requires Tallies(b.files, b.storage, b.n) && short == map u | u in b.storage :: 0
    ensures ShortIs(b, short) && UsersKnown(b)
  {
    hide Used;
  }

  lemma ShortMore(was: Books, now: Books, short: map<nat, nat>, uid: nat, more: nat)
    requires ShortIs(was, short) && ShortBy(was, now, uid, more)
    ensures ShortIs(now, if uid in short then short[uid := short[uid] + more] else short)
  {
    hide Used;
  }

  lemma TalliesIfNoneShort(b: Books, short: map<nat, nat>)
    requires ShortIs(b, short) && UsersKnown(b)
    ensures Tallies(b.files, b.storage, b.n) <==> forall u <- short :: short[u] == 0
    ensures Tallies(b.files, b.storage, b.n) ==> forall u <- b.storage :: b.storage[u] >= 0
  {
    hide Used;
  }

  /** A copy whose charge fails, and after it the deletion of the file and of its copy: nothing is
      left, and what is recorded is below zero. */
  method ChargeFailsOnce() returns (db: Database)
    ensures db.files == map[] && db.storage == map[1 := -10]
  {
    hide Used, Sum, FilesCopied, ToCopy, ChosenCopied, ShortBy, Without, Deletable, Sizes, Tallies, FoldersCopied;
    db := new Database(map[1 := 0], n => n == 5);
    var row := File("f", "f", 1, 10, 0, 0, None);
    var _, id := CreateFile(db, row);
    ghost var files := db.files;
    var ok;
    ghost var recorded, log, fileOf, short, charging;
    ok, recorded, log, fileOf, short, charging := Copy(db, 1, [], {id}, 0, 5);
    OneCopied(files, db.files, db.nextFile, id, row, log, fileOf);
    assert db.fails(charging);
    assert fileOf[id] in db.files && fileOf[id] != id;
    var copy :| copy in db.files && copy != id;
    BothGone(db.files, Handle(id, 1, 10), Handle(copy, 1, 10));
    var _ := DeleteFiles(db, [Handle(id, 1, 10), Handle(copy, 1, 10)], 1);
  }

  lemma OneCopied(files: Files, now: Files, n: nat, id: nat, row: File, log: DirLog, fileOf: map<nat, nat>)
    requires files == map[id := row] && id < n
    requires row.user == 1 && row.size == 10 && row.folder == 0 && row.session.None?
    requires log.middle == files && ChosenCopied(files, now, 1, {id}, 0, 5, fileOf)
    ensures |fileOf| == 1 && Sum(files, fileOf.Keys, n) == 10
    ensures id in fileOf && fileOf[id] != id && now == map[id := row, fileOf[id] := row.(folder := 5)]
  {
    assert fileOf.Keys == {id};
    NothingCopied(files, map[], 1, n);
    SumAdd(files, {}, id, n);
    assert {} + {id} == fileOf.Keys;
    hide Sum;
  }

  lemma BothGone(files: Files, a: Handle, b: Handle)
    requires files.Keys == {a.id, b.id} && a.id != b.id && UpToDate(files, a) && UpToDate(files, b) && a.user == b.user
    ensures Deletable(files, [a, b], a.user) && Without(files, [a, b]) == map[] && Sizes([a, b]) == a.size + b.size
  {
    DeletableIff(files, [a, b], a.user);
    InWithout(files, [a, b]);
    assert [a, b][0] == a && [a, b][1] == b && [a, b][..1] == [a] && [a][..0] == [];
    OneDeleted(files, [a, b], a.user);
    OneDeleted(files, [a], a.user);
    NoneDeleted(files, [], a.user);
    hide Deletable, Without, Sizes;
  }

  // ---------------------------------------------------------------- quota

  /** GetRemainingCapacity. */
  function Remaining(used: int, max: nat): nat {
    if max <= used then 0 else if used <= 0 then max else max - used
  }

  /** So many bytes fit exactly if there are none, or if what is in use with them is within the limit;
      below zero counts as nothing in use. */
  lemma FitsIff(used: int, max: nat, length: nat)
    ensures length <= Remaining(used, max) <==> length == 0 || (if used > 0 then used else 0) + length <= max
  {
  }

  /** What happens to one chunk: whether its bytes are stored, the steps after that succeed, and
      the file is cut back after a failure. */
  datatype Progress = Progress(stored: bool, completed: bool, cutBack: bool)

  /** The chunk passes every test and is stored: it must not start beyond what is there, must have
      its length, and fit. */
  predicate Admitted(file: File, used: int, max: nat, size: uint64, chunkSize: uint64, index: int, length: uint64,
                     p: Progress) {
    && (chunkSize == 0 ==> index <= 0) && ServerStart(index, chunkSize) <= file.size
    && length == ServerLength(index, size, chunkSize) && length <= Remaining(used, max) && p.stored
  }

  /** For a client that takes its file apart by the same chunk size, that is every chunk in turn: the test
      is passed exactly by a chunk that has the client's length, begins no later than the bytes there
      are, and fits. */
  lemma AdmittedIff(file: File, used: int, max: nat, size: uint64, chunkSize: uint64, index: nat, length: uint64,
                    p: Progress)
    requires Fits(size, chunkSize) && index < Num(size, Chunk(size, chunkSize))
    ensures var chunk := Chunk(size, chunkSize);
      Admitted(file, used, max, size, chunkSize, index, length, p) <==>
        && Start(index, chunk) <= file.size && length == Length(index, size, chunk, Num(size, chunk))
        && (length == 0 || (if used > 0 then used else 0) + length <= max)
        && p.stored
  {
    ServerAgrees(size, chunkSize, index);
    FitsIff(used, max, length);
    NumIsCeiling(size, chunkSize);
    hide Remaining, Num, Start, Length, ServerStart, ServerLength;
  }

  /** The commit of the new size fails and the cut-back commits, by a handle whose size is not the
      row's: the storage shrinks by a chunk that was never added to it. */
  predicate CutsTooMuch(fails: nat -> bool, next: nat, rowSize: nat, start: nat, length: nat, p: Progress) {
    && OnlyCommitFails(fails, next) && p.cutBack && Commits(fails, next + 3)
    && length > 0 && rowSize != start + length
  }

  /** The hooks after a chunk was stored: the new size is recorded; if that or a later step fails,
      the size is set back to where the chunk began, once the file is cut there. */
  method RecordChunk(db: Database, h: Handle, start: nat, length: nat, p: Progress) returns (ok: bool)
    requires Conserved(db) && UpToDate(db.files, h) && Genuine(db.files, h) && start <= h.size
    modifies db
    ensures db.Valid() && db.storage.Keys == old(db.storage.Keys) && h.user in db.storage && h.id in db.files
    ensures ok <==> Commits(db.fails, old(db.queries)) && p.completed
    ensures var cut := CutsTooMuch(db.fails, old(db.queries), h.size, start, length, p);
      && (Conserved(db) <==> !cut)
      && (cut ==> db.files == old(db.files))
      && (cut ==> db.storage == old(db.storage)[h.user := old(db.storage[h.user]) - length])
    ensures forall u <- db.storage :: u != h.user ==> db.storage[u] == old(db.storage)[u]
    ensures db.storage[h.user] <= old(db.storage[h.user]) + length
    ensures db.files == old(db.files)[h.id := old(db.files[h.id]).(size := db.files[h.id].size)]
    ensures ok ==> db.files[h.id].size == start + length
    ensures !ok ==> db.files[h.id].size in {h.size, start, start + length}
  {
    assert h.user in db.storage && db.Valid();
    hide Tallies, ShortBy, BooksOf, Conserved, Database.Valid;
    var file;
    ok, file := UpdateCurrent(db, h, start + length);
    if ok && p.completed {
      return;
    }
    ok := false;
    if p.cutBack {
      SetBack(db, h.(size := db.files[h.id].size), file, start);
    }
  }

  /** UpdateSize, by a handle that is up to date. */
  method UpdateCurrent(db: Database, h: Handle, value: nat) returns (ok: bool, after: Handle)
    requires Conserved(db) && UpToDate(db.files, h) && Genuine(db.files, h)
    modifies db
    ensures Conserved(db) && h.user in old(db.storage) && ok == Commits(db.fails, old(db.queries))
    ensures ok ==> db.files == old(db.files)[h.id := old(db.files[h.id]).(size := value)]
    ensures ok ==> db.storage == old(db.storage)[h.user := old(db.storage[h.user]) + value - h.size]
    ensures ok ==> after == h.(size := value)
    ensures !ok ==> db.files == old(db.files) && db.storage == old(db.storage)
    ensures !ok && !OnlyCommitFails(db.fails, old(db.queries)) ==> after == h
    ensures OnlyCommitFails(db.fails, old(db.queries)) ==>
      !ok && after == h.(size := value) && (after != h ==> db.queries == old(db.queries) + 3)
  {
    assert h.user in db.storage && db.Valid();
    hide Tallies, ShortBy, BooksOf;
    ok, after := UpdateSize(db, h, value);
  }

  /** HookChunkUploadFailed: takes the size back by a handle, which may be out of date. */
  method SetBack(db: Database, ghost row: Handle, h: Handle, start: nat)
    requires Conserved(db) && UpToDate(db.files, row) && row == h.(size := row.size) && Genuine(db.files, h)
    modifies db
    ensures db.Valid() && db.storage.Keys == old(db.storage.Keys) && h.user in db.storage && h.id in db.files
    ensures var wrong := Commits(db.fails, old(db.queries)) && start != h.size && h.size != row.size;
      && (Conserved(db) <==> !wrong)
      && (wrong ==> db.files == old(db.files))
      && (wrong ==> db.storage == old(db.storage)[h.user := old(db.storage[h.user]) + start - h.size])
    ensures forall u <- db.storage :: u != h.user ==> db.storage[u] == old(db.storage)[u]
    ensures db.storage[h.user] <= old(db.storage[h.user]) + if start > h.size then start - h.size else 0
    ensures db.files == old(db.files)[h.id := old(db.files[h.id]).(size := db.files[h.id].size)]
    ensures db.files[h.id].size in {row.size, start}
  {
    assert h.user in db.storage && db.Valid();
    hide Tallies, ShortBy, BooksOf, Conserved, Database.Valid;
    var _, _ := UpdateSize(db, h, start);
  }

  /** LocalUpload and processChunkUpload, as far as the file's row and the user's storage are
      concerned. What is recorded stays right but in one case, and then the row stays as it is. */
  method UploadChunk(db: Database, id: nat, max: uint64, size: uint64, chunkSize: uint64, index: int, length: uint64,
                     p: Progress)
    returns (ok: bool)
    requires Conserved(db) && id in db.files
    modifies db
    ensures db.Valid() && db.storage.Keys == old(db.storage.Keys)
    ensures var file, used := old(db.files[id]), old(db.storage[db.files[id].user]);
      var start := ServerStart(index, chunkSize);
      var cut := Admitted(file, used, max, size, chunkSize, index, length, p)
                 && CutsTooMuch(db.fails, old(db.queries), file.size, start, length, p);
      && (Conserved(db) <==> !cut)
      && (cut ==> db.files == old(db.files) && db.storage == old(db.storage)[file.user := used - length])
    ensures forall u <- db.storage :: u != old(db.files[id].user) ==> db.storage[u] == old(db.storage)[u]
    ensures var uid := old(db.files[id].user);
      db.storage[uid] <= max || db.storage[uid] <= old(db.storage[uid])
    ensures id in db.files && db.files == old(db.files)[id := old(db.files[id]).(size := db.files[id].size)]
    ensures ok ==> db.files[id].size == ServerStart(index, chunkSize) + length
    ensures !ok ==>
      db.files[id].size in
        {old(db.files[id].size), ServerStart(index, chunkSize), ServerStart(index, chunkSize) + length}
    ensures ok || db.files != old(db.files) || db.storage != old(db.storage) ==>
      Admitted(old(db.files[id]), old(db.storage[db.files[id].user]), max, size, chunkSize, index, length, p)
    ensures ok <==>
      && Admitted(old(db.files[id]), old(db.storage[db.files[id].user]), max, size, chunkSize, index, length, p)
      && Commits(db.fails, old(db.queries)) && p.completed
  {
    hide Used, ServerStart, ServerLength, CutsTooMuch, Commits;
    var file := Handle(id, db.files[id].user, db.files[id].size);
    var start := ServerStart(index, chunkSize);
    if chunkSize == 0 && index > 0 {
      return false;
    }
    if file.size < start {
      return false;
    }
    if ServerLength(index, size, chunkSize) != length {
      return false;
    }
    if Remaining(db.storage[file.user], max) < length {
      return false;
    }
    if !p.stored {
      return false;
    }
    OneOfTheFiles(db, id);
    assert Unsigned(start + length) == start + length;  // the new size does not wrap around
    hide Unsigned, Conserved;
    ok := RecordChunk(db, file, start, length, p);
  }

  /** A file's size is part of what its user has in use. */
  lemma OneOfTheFiles(db: Database, id: nat)
    requires Conserved(db) && id in db.files
    ensures db.files[id].size <= db.storage[db.files[id].user]
  {
    hide Used;
    UsedWithout(db.files, id, db.files[id].user, db.nextFile);
  }

  /** A user with an empty file and nothing in use, whose first chunk of ten bytes meets a commit
      that fails: the file is still empty, and the storage is below zero. */
  method CommitFailsOnce() returns (db: Database)
    ensures !Conserved(db) && db.storage == map[1 := -10] && forall id <- db.files :: db.files[id].size == 0
  {
    hide Used;
    db := new Database(map[1 := 0], n => n == 5);
    NewIsConserved(db);
    var _, id := CreateFile(db, File("f", "f", 1, 0, 0, 0, None));
    assert ServerStart(0, 10) == 0 && ServerLength(0, 10, 10) == 10;
    var _ := UploadChunk(db, id, 100, 10, 10, 0, 10, Progress(true, true, true));
  }

  lemma NewIsConserved(db: Database)
    requires db.Valid() && db.files == map[] && db.nextFile == 0 && forall u <- db.storage :: db.storage[u] == 0
    ensures Conserved(db)
  {
  }

  /** HookValidateCapacityDiff and GenericAfterUpdate, around a new content for a file: a larger
      one must fit as a whole into what is left, although it takes the place of the old one. */
  method ReplaceContent(db: Database, id: nat, max: nat, newSize: nat, stored: bool) returns (ok: bool)
    requires Conserved(db) && id in db.files
    modifies db
    ensures Conserved(db) && db.storage.Keys == old(db.storage.Keys)
    ensures forall u <- db.storage :: u != old(db.files[id].user) ==> db.storage[u] == old(db.storage)[u]
    ensures var uid := old(db.files[id].user);
      db.storage[uid] <= max || db.storage[uid] <= old(db.storage[uid])
    ensures db.files == if ok then old(db.files)[id := old(db.files[id]).(size := newSize)] else old(db.files)
    ensures ok <==>
      && (newSize <= old(db.files[id].size) || newSize <= Remaining(old(db.storage[db.files[id].user]), max))
      && stored && Commits(db.fails, old(db.queries))
  {
    hide Used;
    var file := Handle(id, db.files[id].user, db.files[id].size);
    if newSize > file.size && Remaining(db.storage[file.user], max) < newSize {
      return false;
    }
    if !stored {
      return false;
    }
    ok, file := UpdateSize(db, file, newSize);
  }
}
