/** Sizes of files together: of any files, and of a user's. */
module FileSizes {
  import opened Tables

  /** The sizes of these files together, counting ids below n. */
  function Sum(files: Files, ids: set<nat>, n: nat): nat {
    if n == 0 then 0
    else (if n - 1 in ids && n - 1 in files then files[n - 1].size else 0) + Sum(files, ids, n - 1)
  }

  lemma {:induction false} SumSame(files: Files, more: Files, ids: set<nat>, others: set<nat>, n: nat)
    requires forall id :: 0 <= id < n ==>
      (if id in ids && id in files then files[id].size else 0)
      == (if id in others && id in more then more[id].size else 0)
    ensures Sum(files, ids, n) == Sum(more, others, n)
  {
    if n == 0 {
    } else {
      SumSame(files, more, ids, others, n - 1);
    }
  }

  lemma {:induction false} SumAdd(files: Files, ids: set<nat>, id: nat, n: nat)
    requires id !in ids && id in files && id < n
    ensures Sum(files, ids + {id}, n) == Sum(files, ids, n) + files[id].size
  {
    if n - 1 == id {
      SumSame(files, files, ids + {id}, ids, n - 1);
    } else {
      SumAdd(files, ids, id, n - 1);
    }
  }

  lemma {:induction false} SumFurther(files: Files, ids: set<nat>, n: nat, m: nat)
    requires n <= m && forall id <- ids :: id in files ==> id < n
    ensures Sum(files, ids, m) == Sum(files, ids, n)
  {
    if n >= m {
    } else {
      SumFurther(files, ids, n, m - 1);
    }
  }

  function FilesOf(files: Files, uid: nat): set<nat> {
    set id | id in files && files[id].user == uid
  }

  function Used(files: Files, uid: nat, n: nat): nat {
    Sum(files, FilesOf(files, uid), n)
  }

  // ---------------------------------------------------------------- one file's share

  /** A file more, or one with another size, for its user; nobody else is concerned. */
  lemma {:induction false} UsedWith(files: Files, id: nat, row: File, uid: nat, n: nat)
    requires id < n && (id in files ==> files[id].user == row.user)
    ensures Used(files[id := row], uid, n)
         == Used(files, uid, n) + (if row.user != uid then 0 else row.size - if id in files then files[id].size else 0)
  {
    var more := files[id := row];
    if row.user == uid && id !in files {
      assert FilesOf(more, uid) == FilesOf(files, uid) + {id};
      SumSame(files, more, FilesOf(files, uid), FilesOf(files, uid), n);
      SumAdd(more, FilesOf(files, uid), id, n);
    } else if row.user == uid {
      var others := FilesOf(files, uid) - {id};
      assert FilesOf(more, uid) == others + {id} && FilesOf(files, uid) == others + {id};
      SumAdd(files, others, id, n);
      SumAdd(more, others, id, n);
      SumSame(files, more, others, others, n);
    } else {
      SumSame(files, more, FilesOf(files, uid), FilesOf(more, uid), n);
    }
  }

  lemma {:induction false} UsedWithout(files: Files, id: nat, uid: nat, n: nat)
    requires id < n && id in files
    ensures Used(files - {id}, uid, n) == Used(files, uid, n) - if files[id].user == uid then files[id].size else 0
  {
    var less := files - {id};
    if files[id].user == uid {
      assert FilesOf(files, uid) == FilesOf(less, uid) + {id};
      SumSame(less, files, FilesOf(less, uid), FilesOf(less, uid), n);
      SumAdd(files, FilesOf(less, uid), id, n);
    } else {
      SumSame(files, less, FilesOf(files, uid), FilesOf(less, uid), n);
    }
  }

  lemma UsedFurther(files: Files, uid: nat, n: nat, m: nat)
    requires n <= m && forall id <- files :: id < n
    ensures Used(files, uid, m) == Used(files, uid, n)
  {
    SumFurther(files, FilesOf(files, uid), n, m);
  }

  /** From one table to another the owner uses so much more, and nobody else more or less. */
  ghost predicate MoreUsed(was: Files, n: nat, now: Files, m: nat, owner: nat, amount: nat) {
    forall u: nat :: Used(now, u, m) == Used(was, u, n) + if u == owner then amount else 0
  }

  lemma NoneMoreUsed(files: Files, n: nat, owner: nat)
    ensures MoreUsed(files, n, files, n, owner, 0)
  {
  }

  lemma MoreUsedStill(was: Files, n: nat, middle: Files, k: nat, now: Files, m: nat, owner: nat, amount: nat, more: nat)
    requires MoreUsed(was, n, middle, k, owner, amount) && MoreUsed(middle, k, now, m, owner, more)
    ensures MoreUsed(was, n, now, m, owner, amount + more)
  {
    hide Used;
  }
}
