/** The part-2 server's `StoreFile` and `DeleteFile`: the lock check that
    guards them and the release of the lock on every exit after it. */
module DfsServer {
  import opened Base
  import opened Grpc
  import opened DfsFiles
  import opened DfsLocks

  datatype ServerState = ServerState(locks: LockTable, files: FileStore)

  /** `StoreFile`'s status, the name and modification time it puts in the
      response (`None` where a field is left unset), and the state after. */
  datatype Stored = Stored(status: StatusCode, name: string, mtime: Option<int>, state: ServerState)

  /** `StoreFile` of part 2. `statOk` says whether reading back the new
      file's times succeeds; its failure does not fail the call. */
  function StoreFileP2(st: ServerState, chunks: seq<StoreFileChunk>, io: StreamIo, statOk: bool): (r: Stored)
    ensures |chunks| == 0 ==> r == Stored(Cancelled, "", None, st.(locks := ReleaseWriteLock(st.locks, "")))
    ensures |chunks| > 0 && chunks[0].name == "" ==> r == Stored(Cancelled, "", None, st)
    ensures |chunks| > 0 && chunks[0].name != "" && !HasFileLock(st.locks, chunks[0].name, chunks[0].clientId) ==>
              r == Stored(ResourceExhausted, "", None, st)
    ensures |chunks| > 0 && chunks[0].name != "" && HasFileLock(st.locks, chunks[0].name, chunks[0].clientId) ==>
              r.state.locks == ReleaseWriteLock(st.locks, chunks[0].name)
              && r.state.files == WriteStream(st.files, chunks[0].name, chunks, io).files
              && (r.status == Ok <==> WriteStream(st.files, chunks[0].name, chunks, io).ok)
              && (r.status == Ok ==> r.name == chunks[0].name && r.mtime == (if statOk then Some(io.now) else None))
              && (r.status != Ok ==> r.status == Cancelled)
  {
    if |chunks| == 0 then Stored(Cancelled, "", None, st.(locks := ReleaseWriteLock(st.locks, "")))
    else
      var name := chunks[0].name;
      if name == "" then Stored(Cancelled, "", None, st)
      else if !HasFileLock(st.locks, name, chunks[0].clientId) then Stored(ResourceExhausted, "", None, st)
      else
        var w := WriteStream(st.files, name, chunks, io);
        var after := ServerState(ReleaseWriteLock(st.locks, name), w.files);
        if !w.ok then Stored(Cancelled, "", None, after)
        else Stored(Ok, name, if statOk then Some(io.now) else None, after)
  }

  /** The response `DeleteFile` fills in: the name always, and the deleted
      file's modification time and size once it was found. */
  datatype DeleteResponse = DeleteResponse(name: string, mtime: Option<int>, size: Option<nat>)

  datatype Deleted = Deleted(status: StatusCode, response: DeleteResponse, state: ServerState)

  /** `DeleteFile`. A file is found exactly when it is in the store;
      `removeOk` says whether `remove` succeeds. */
  function DeleteFileP2(st: ServerState, name: string, client: string, removeOk: bool): (r: Deleted)
    ensures r.response.name == name
    ensures name == "" ==> r.status == Cancelled && r.state == st
    ensures name != "" && !HasFileLock(st.locks, name, client) ==> r.status == ResourceExhausted && r.state == st
    ensures name != "" && HasFileLock(st.locks, name, client) ==>
              r.state.locks == ReleaseWriteLock(st.locks, name)
              && (name !in st.files ==> r.status == NotFound && r.state.files == st.files)
              && (name in st.files && !removeOk ==> r.status == Cancelled && r.state.files == st.files)
              && (name in st.files && removeOk ==> r.status == Ok && r.state.files == st.files - {name})
              && (name in st.files ==> r.response.mtime == Some(st.files[name].mtime)
                                       && r.response.size == Some(|st.files[name].content|))
  {
    if name == "" then Deleted(Cancelled, DeleteResponse(name, None, None), st)
    else if !HasFileLock(st.locks, name, client) then Deleted(ResourceExhausted, DeleteResponse(name, None, None), st)
    else
      var locks := ReleaseWriteLock(st.locks, name);
      if name !in st.files then Deleted(NotFound, DeleteResponse(name, None, None), st.(locks := locks))
      else
        var found := DeleteResponse(name, Some(st.files[name].mtime), Some(|st.files[name].content|));
        if !removeOk then Deleted(Cancelled, found, st.(locks := locks))
        else Deleted(Ok, found, ServerState(locks, st.files - {name}))
  }

  /** A caller without the lock changes nothing: no byte is written and no
      file is removed. */
  lemma NonHolderChangesNothing(st: ServerState, chunks: seq<StoreFileChunk>, io: StreamIo, statOk: bool,
                                name: string, client: string, removeOk: bool)
    requires |chunks| > 0 && !HasFileLock(st.locks, chunks[0].name, chunks[0].clientId)
    requires !HasFileLock(st.locks, name, client)
    ensures StoreFileP2(st, chunks, io, statOk).state == st
    ensures DeleteFileP2(st, name, client, removeOk).state == st
    ensures chunks[0].name != "" ==> StoreFileP2(st, chunks, io, statOk).status == ResourceExhausted
    ensures name != "" ==> DeleteFileP2(st, name, client, removeOk).status == ResourceExhausted
  {
  }

  /** Past the lock check every exit of both calls, success or failure,
      leaves the file unlocked and every other lock as it was. */
  lemma LockReleasedOnEveryExit(st: ServerState, chunks: seq<StoreFileChunk>, io: StreamIo, statOk: bool,
                                removeOk: bool)
    requires |chunks| > 0 && chunks[0].name != "" && HasFileLock(st.locks, chunks[0].name, chunks[0].clientId)
    ensures var name := chunks[0].name;
            var s := StoreFileP2(st, chunks, io, statOk).state.locks;
            var d := DeleteFileP2(st, name, chunks[0].clientId, removeOk).state.locks;
            name !in s && name !in d
            && forall f :: f != name ==> (f in s <==> f in st.locks) && (f in d <==> f in st.locks)
  {
  }

  /** The part-2 upload end to end: a client that obtained the lock and
      streams a non-empty file through a file system that does not fail
      gets OK, the file holds exactly the sent bytes, and the lock is free
      again. */
  lemma LockedStoreRoundTrip(st: ServerState, name: string, client: string, file: seq<Byte>,
                             io: StreamIo, statOk: bool)
    requires Wellformed(st.locks)
    requires AcquireWriteLock(st.locks, name, client).status == Ok
    requires |file| > 0 && io.openOk && io.failedWrite.None? && io.closeOk
    ensures var locked := st.(locks := AcquireWriteLock(st.locks, name, client).locks);
            var r := StoreFileP2(locked, Messages(name, client, Split(file)), io, statOk);
            r.status == Ok && r.name == name
            && r.state.files == st.files[name := FileEntry(io.now, file)]
            && name !in r.state.locks
  {
    AcquireGrants(st.locks, name, client);
    MessagesReassemble(name, client, file);
    assert |Split(file)| > 0;
  }
}
