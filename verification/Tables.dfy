/** The database: rows of folders and files by their ids, and the storage each user has in use.
    A query may fail; then it changes nothing. The commit of a transaction counts as a query; if
    it fails, the transaction has changed nothing. New rows get ids that were never used. */
module Tables {
  import opened Options

  datatype Folder = Folder(name: string, parent: Option<nat>, owner: nat)

  /** A file with an upload session is still being uploaded. */
  datatype File = File(
    name: string,
    source: string,
    user: nat,
    size: nat,
    folder: nat,
    policy: nat,
    session: Option<string>)

  type Folders = map<nat, Folder>

  type Files = map<nat, File>

  ghost predicate Distinct(ids: seq<nat>) {
    forall i, j :: 0 <= i < j < |ids| ==> ids[i] != ids[j]
  }

  /** A query's answer: each row wanted once, in any order. */
  ghost predicate Lists(ids: seq<nat>, wanted: set<nat>) {
    Distinct(ids) && forall id :: id in ids <==> id in wanted
  }

  class Database {
    var folders: Folders
    var files: Files
    var storage: map<nat, int>
    var nextFolder: nat
    var nextFile: nat
    const fails: nat -> bool
    var queries: nat

    ghost predicate Valid()
      reads this
    {
      (forall id <- folders :: id < nextFolder) && (forall id <- files :: id < nextFile)
    }

    constructor (storage: map<nat, int>, fails: nat -> bool)
      ensures Valid() && folders == map[] && files == map[] && this.storage == storage
      ensures this.fails == fails && queries == 0 && nextFile == 0
    {
      folders, files, this.storage, nextFolder, nextFile := map[], map[], storage, 0, 0;
      this.fails, queries := fails, 0;
    }

    /** None of these queries fails, the last excluded. */
    ghost predicate NoneFails(first: nat, end: nat) {
      forall q: nat :: first <= q < end ==> !fails(q)
    }

    lemma NoneYet(first: nat)
      ensures NoneFails(first, first)
    {
    }

    lemma NoneInParts(first: nat, middle: nat, end: nat)
      requires first <= middle <= end
      ensures NoneFails(first, end) <==> NoneFails(first, middle) && NoneFails(middle, end)
    {
    }

    /** Runs the next query, or fails to. */
    method Query() returns (ok: bool)
      modifies this`queries
      ensures ok == !fails(old(queries)) && queries == old(queries) + 1
      ensures ok <==> NoneFails(old(queries), queries)
    {
      ok := !fails(queries);
      queries := queries + 1;
    }

    /** The answer to a query for rows, in some order. */
    method Find(wanted: set<nat>) returns (ok: bool, ids: seq<nat>)
      modifies this`queries
      ensures ok == !fails(old(queries)) && queries == old(queries) + 1
      ensures ok <==> NoneFails(old(queries), queries)
      ensures if ok then Lists(ids, wanted) && |ids| == |wanted| else ids == []
    {
      ids := [];
      ok := Query();
      if !ok {
        return;
      }
      var left := wanted;
      while left != {}
        invariant left <= wanted && Lists(ids, wanted - left) && |ids| == |wanted| - |left|
        decreases |left|
      {
        var id :| id in left;
        left := left - {id};
        ids := ids + [id];
      }
    }

    method CreateFolder(row: Folder) returns (ok: bool, id: nat)
      requires Valid()
      modifies this`queries, this`folders, this`nextFolder
      ensures Valid()
      ensures ok == !fails(old(queries)) && queries == old(queries) + 1
      ensures ok <==> NoneFails(old(queries), queries)
      ensures if ok then id !in old(folders) && folders == old(folders)[id := row] else folders == old(folders)
    {
      id := nextFolder;
      ok := Query();
      if ok {
        folders := folders[id := row];
        nextFolder := nextFolder + 1;
      }
    }

    method CreateFile(row: File) returns (ok: bool, id: nat)
      requires Valid()
      modifies this`queries, this`files, this`nextFile
      ensures Valid() && nextFile >= old(nextFile)
      ensures ok == !fails(old(queries)) && queries == old(queries) + 1
      ensures ok <==> NoneFails(old(queries), queries)
      ensures if ok then old(nextFile) <= id && id !in old(files) && files == old(files)[id := row]
              else files == old(files)
    {
      id := nextFile;
      ok := Query();
      if ok {
        files := files[id := row];
        nextFile := nextFile + 1;
      }
    }
  }
}
