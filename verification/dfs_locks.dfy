/** The part-2 server's write-lock table `fileLocks`: file name to the id of
    the client holding its write lock, with `AcquireWriteLock`,
    `ReleaseWriteLock` and `HasFileLock`. */
module DfsLocks {
  import opened Grpc

  type LockTable = map<string, string>

  /** `LockResponse`: whether the lock was granted and who holds it. */
  datatype LockResponse = LockResponse(success: bool, currentHolder: string)

  datatype Acquired = Acquired(status: StatusCode, response: LockResponse, locks: LockTable)

  /** `HasFileLock(file, client)`. */
  predicate HasFileLock(locks: LockTable, file: string, client: string)
  {
    file in locks && locks[file] == client
  }

  /** No entry has an empty name or an empty holder: the only entries are
      those `AcquireWriteLock` adds. */
  predicate Wellformed(locks: LockTable)
  {
    "" !in locks && forall f :: f in locks ==> locks[f] != ""
  }

  /** `AcquireWriteLock`. */
  function AcquireWriteLock(locks: LockTable, file: string, client: string): (r: Acquired)
    ensures file == "" || client == "" ==> r == Acquired(Cancelled, LockResponse(false, ""), locks)
    ensures file != "" && client != "" && file !in locks ==>
              r == Acquired(Ok, LockResponse(true, client), locks[file := client])
    ensures file != "" && client != "" && HasFileLock(locks, file, client) ==>
              r == Acquired(Ok, LockResponse(true, client), locks)
    ensures file != "" && client != "" && file in locks && locks[file] != client ==>
              r == Acquired(ResourceExhausted, LockResponse(false, locks[file]), locks)
  {
    if file == "" then Acquired(Cancelled, LockResponse(false, ""), locks)
    else if client == "" then Acquired(Cancelled, LockResponse(false, ""), locks)
    else if file !in locks then Acquired(Ok, LockResponse(true, client), locks[file := client])
    else if locks[file] == client then Acquired(Ok, LockResponse(true, client), locks)
    else Acquired(ResourceExhausted, LockResponse(false, locks[file]), locks)
  }

  /** `ReleaseWriteLock`: erases that one entry, if there is one. */
  function ReleaseWriteLock(locks: LockTable, file: string): (r: LockTable)
    ensures file !in r
    ensures forall f :: f != file ==> (f in r <==> f in locks) && (f in locks ==> r[f] == locks[f])
  {
    locks - {file}
  }

  /** A grant is exactly the caller holding the lock afterwards; the status
      is OK exactly when the response says success; a refusal changes
      nothing. */
  lemma AcquireGrants(locks: LockTable, file: string, client: string)
    requires Wellformed(locks)
    ensures var r := AcquireWriteLock(locks, file, client);
            (r.status == Ok <==> r.response.success)
            && (r.status == Ok <==> HasFileLock(r.locks, file, client))
            && (r.status == Ok <==> file != "" && client != "" && (file !in locks || locks[file] == client))
            && (r.status != Ok ==> r.locks == locks)
            && (r.status == Ok || r.status == Cancelled || r.status == ResourceExhausted)
  {
  }

  /** Acquiring twice is acquiring once; a refused acquire is refused
      again the same way. */
  lemma AcquireIdempotent(locks: LockTable, file: string, client: string)
    ensures var once := AcquireWriteLock(locks, file, client);
            AcquireWriteLock(once.locks, file, client) == once
  {
  }

  /** Acquire and release keep the table well formed. */
  lemma WellformedPreserved(locks: LockTable, file: string, client: string)
    requires Wellformed(locks)
    ensures Wellformed(AcquireWriteLock(locks, file, client).locks)
    ensures Wellformed(ReleaseWriteLock(locks, file))
  {
  }

  /** A lock-table operation: an acquire request or a release. */
  datatype LockOp = Acquire(file: string, client: string) | Release(file: string)

  function Apply(locks: LockTable, op: LockOp): LockTable
  {
    match op
    case Acquire(f, c) => AcquireWriteLock(locks, f, c).locks
    case Release(f) => ReleaseWriteLock(locks, f)
  }

  function Run(locks: LockTable, ops: seq<LockOp>): LockTable
    decreases |ops|
  {
    if |ops| == 0 then locks else Run(Apply(locks, ops[0]), ops[1..])
  }

  /** Mutual exclusion: as long as nobody releases `file`, any sequence of
      acquires by any clients leaves its holder in place. */
  lemma {:induction false} HolderKept(locks: LockTable, ops: seq<LockOp>, file: string)
    requires file in locks
    requires forall i :: 0 <= i < |ops| ==> ops[i] != Release(file)
    ensures file in Run(locks, ops) && Run(locks, ops)[file] == locks[file]
    decreases |ops|
  {
    if |ops| > 0 {
      var next := Apply(locks, ops[0]);
      assert file in next && next[file] == locks[file];
      assert forall i :: 0 <= i < |ops[1..]| ==> ops[1..][i] == ops[i + 1];
      HolderKept(next, ops[1..], file);
    }
  }

  /** Only a release frees an entry: if `file` is held before a run and free
      after it, the run released it. */
  lemma OnlyReleaseFrees(locks: LockTable, ops: seq<LockOp>, file: string)
    requires file in locks && file !in Run(locks, ops)
    ensures exists i :: 0 <= i < |ops| && ops[i] == Release(file)
  {
    if forall i :: 0 <= i < |ops| ==> ops[i] != Release(file) {
      HolderKept(locks, ops, file);
    }
  }
}
