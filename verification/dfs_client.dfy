/** The part-2 client's decisions: how it reads the lock and status RPCs,
    and the guards and outcomes of `Store`, `Fetch` and `Delete`. Every RPC
    result and every file-system fact is an input. */
module DfsClient {
  import opened Base
  import opened Grpc
  import opened DfsFiles
  import opened DfsLocks
  import opened DfsServer

  /** `RequestWriteAccess`: the code of the `AcquireWriteLock` call and the
      response's `success` flag, read as the client's verdict. */
  function RequestWriteAccess(rpc: StatusCode, success: bool): (r: StatusCode)
    ensures r == Ok || r == DeadlineExceeded || r == ResourceExhausted || r == Cancelled
    ensures r == Ok <==> rpc == Ok && success
    ensures rpc == DeadlineExceeded ==> r == DeadlineExceeded
    ensures rpc == ResourceExhausted || (rpc == Ok && !success) ==> r == ResourceExhausted
    ensures rpc != Ok && rpc != DeadlineExceeded && rpc != ResourceExhausted ==> r == Cancelled
  {
    if rpc != Ok then
      if rpc == DeadlineExceeded then DeadlineExceeded
      else if rpc == ResourceExhausted then ResourceExhausted
      else Cancelled
    else if !success then ResourceExhausted
    else Ok
  }

  /** Against the server's lock table the client's verdict is OK exactly
      when it holds the lock afterwards, RESOURCE_EXHAUSTED exactly when
      another client holds it, and CANCELLED for an empty name or id. */
  lemma WriteAccessMatchesServer(locks: LockTable, file: string, client: string)
    requires Wellformed(locks)
    ensures var a := AcquireWriteLock(locks, file, client);
            var v := RequestWriteAccess(a.status, a.response.success);
            (v == Ok <==> HasFileLock(a.locks, file, client))
            && (v == ResourceExhausted <==> file != "" && client != "" && file in locks && locks[file] != client)
            && (v == Cancelled <==> file == "" || client == "")
  {
    AcquireGrants(locks, file, client);
  }

  /** `Stat`: OK, or the reduced code of the failed `GetFileStatus` call. */
  function Stat(rpc: StatusCode): (r: StatusCode)
    ensures r == Ok <==> rpc == Ok
    ensures r != Ok ==> Reported(r) && r == ReduceError(rpc)
  {
    if rpc == Ok then Ok else ReduceError(rpc)
  }

  /** The `GetFileStatus` call: its code and the server's modification
      time it reports. */
  datatype StatReply = StatReply(rpc: StatusCode, mtime: int)

  /** The `AcquireWriteLock` call: its code and the response's `success`. */
  datatype LockReply = LockReply(rpc: StatusCode, success: bool)

  /** What happens after the lock is granted: whether the local file opens,
      whether the stream is created, the index of the first chunk whose
      `Write` fails, and the code `Finish` returns. */
  datatype StoreIo = StoreIo(openOk: bool, writerOk: bool, failedWrite: Option<nat>, finish: StatusCode)

  /** The status `Store` returns, whether it asked for the lock, and the
      chunks that reached the server. */
  datatype StoreOutcome = StoreOutcome(status: StatusCode, lockRequested: bool, sent: seq<StoreFileChunk>)

  /** `Store`, with `correctFinish` choosing whether the code `Finish`
      returns decides the status once every chunk was written. */
  function StoreWith(name: string, clientId: string, local: Option<FileEntry>, stat: StatReply,
                     lockReply: LockReply, io: StoreIo, correctFinish: bool): (r: StoreOutcome)
  {
    if local.None? then StoreOutcome(NotFound, false, [])
    else
      var s := Stat(stat.rpc);
      var lock := RequestWriteAccess(lockReply.rpc, lockReply.success);
      if s == Cancelled || s == DeadlineExceeded then StoreOutcome(s, false, [])
      else if s == Ok && local.value.mtime <= stat.mtime then StoreOutcome(AlreadyExists, false, [])
      else if lock != Ok then StoreOutcome(lock, true, [])
      else if !io.openOk then StoreOutcome(NotFound, true, [])
      else if !io.writerOk then StoreOutcome(Cancelled, true, [])
      else
        var all := Messages(name, clientId, Split(local.value.content));
        if io.failedWrite.Some? && io.failedWrite.value < |all| then
          StoreOutcome(Cancelled, true, all[..io.failedWrite.value])
        else if correctFinish && io.finish != Ok then StoreOutcome(ReduceError(io.finish), true, all)
        else StoreOutcome(Ok, true, all)
  }

  /** `DFSClientNodeP2::Store` as written: the code `Finish` returns is
      logged and then OK is returned regardless. */
  function StoreP2(name: string, clientId: string, local: Option<FileEntry>, stat: StatReply,
                   lock: LockReply, io: StoreIo): (r: StoreOutcome)
    ensures local.None? ==> r == StoreOutcome(NotFound, false, [])
    ensures local.Some? && (Stat(stat.rpc) == Cancelled || Stat(stat.rpc) == DeadlineExceeded) ==>
              r == StoreOutcome(Stat(stat.rpc), false, [])
    ensures local.Some? && stat.rpc == Ok && local.value.mtime <= stat.mtime ==>
              r == StoreOutcome(AlreadyExists, false, [])
    ensures r.lockRequested && RequestWriteAccess(lock.rpc, lock.success) != Ok ==>
              r == StoreOutcome(RequestWriteAccess(lock.rpc, lock.success), true, [])
    ensures r.status == Ok ==>
              local.Some? && RequestWriteAccess(lock.rpc, lock.success) == Ok
              && r.sent == Messages(name, clientId, Split(local.value.content))
    ensures r.status == AlreadyExists <==> local.Some? && stat.rpc == Ok && local.value.mtime <= stat.mtime
    ensures r.status == AlreadyExists ==> !r.lockRequested
  {
    StoreWith(name, clientId, local, stat, lock, io, false)
  }

  /** `Store` with the `Finish` code reduced as the part-1 client does. */
  function StoreP2Corrected(name: string, clientId: string, local: Option<FileEntry>, stat: StatReply,
                            lock: LockReply, io: StoreIo): (r: StoreOutcome)
    ensures r.status == Ok ==>
              io.finish == Ok && local.Some? && RequestWriteAccess(lock.rpc, lock.success) == Ok
              && r.sent == Messages(name, clientId, Split(local.value.content))
    ensures r.lockRequested && RequestWriteAccess(lock.rpc, lock.success) != Ok ==>
              r == StoreOutcome(RequestWriteAccess(lock.rpc, lock.success), true, [])
    ensures r.status == AlreadyExists <==> local.Some? && stat.rpc == Ok && local.value.mtime <= stat.mtime
  {
    StoreWith(name, clientId, local, stat, lock, io, true)
  }

  /** The as-written `Store` reports OK even when the server refused the
      upload: here the server's `ofstream` does not open, `StoreFile`
      answers CANCELLED and the server keeps no such file, yet `Store`
      returns OK. The corrected `Store` returns CANCELLED. */
  lemma StoreIgnoresFinish(st: ServerState, name: string, client: string, local: FileEntry, sio: StreamIo)
    requires Wellformed(st.locks) && name !in st.files && |local.content| > 0
    requires AcquireWriteLock(st.locks, name, client).status == Ok
    requires !sio.openOk
    ensures var locked := st.(locks := AcquireWriteLock(st.locks, name, client).locks);
            var lock := LockReply(Ok, true);
            var reply := StoreFileP2(locked, Messages(name, client, Split(local.content)), sio, true);
            var io := StoreIo(true, true, None, reply.status);
            reply.status == Cancelled && name !in reply.state.files
            && StoreP2(name, client, Some(local), StatReply(NotFound, 0), lock, io).status == Ok
            && StoreP2Corrected(name, client, Some(local), StatReply(NotFound, 0), lock, io).status == Cancelled
  {
    AcquireGrants(st.locks, name, client);
    assert |Split(local.content)| > 0;
  }

  /** With the corrected `Store`, OK means the server stored the file:
      against a server whose file system works, a granted lock and a
      non-empty file give OK and the server holds the bytes. */
  lemma StoreCorrectedRoundTrip(st: ServerState, name: string, client: string, local: FileEntry,
                                sio: StreamIo, statOk: bool)
    requires Wellformed(st.locks) && name !in st.files && |local.content| > 0
    requires AcquireWriteLock(st.locks, name, client).status == Ok
    requires sio.openOk && sio.failedWrite.None? && sio.closeOk
    ensures var locked := st.(locks := AcquireWriteLock(st.locks, name, client).locks);
            var reply := StoreFileP2(locked, Messages(name, client, Split(local.content)), sio, statOk);
            var io := StoreIo(true, true, None, reply.status);
            StoreP2Corrected(name, client, Some(local), StatReply(NotFound, 0), LockReply(Ok, true), io).status == Ok
            && reply.state.files[name].content == local.content
  {
    LockedStoreRoundTrip(st, name, client, local.content, sio, statOk);
  }

  /** What the download does: whether the stream is created, whether the
      local `ofstream` opens, the contents that arrive, the index of the
      first failing local write, the code `Finish` returns, whether
      removing a broken download and setting the times succeed, and the
      clock a freshly written file gets. */
  datatype FetchIo = FetchIo(readerOk: bool, openOk: bool, received: seq<seq<Byte>>, failedWrite: Option<nat>,
                             finish: StatusCode, removeOk: bool, utimeOk: bool, now: int)

  datatype FetchOutcome = FetchOutcome(status: StatusCode, local: Option<FileEntry>)

  /** The server has the file, the cached copy is missing or older, and the
      whole stream was written to the local file. */
  predicate Downloaded(local: Option<FileEntry>, stat: StatReply, io: FetchIo)
  {
    stat.rpc == Ok && !(local.Some? && local.value.mtime >= stat.mtime)
    && io.readerOk && io.openOk && !(io.failedWrite.Some? && io.failedWrite.value < |io.received|)
  }

  /** `DFSClientNodeP2::Fetch`: `local` is the cached copy before, the
      outcome's `local` the copy after. */
  function FetchP2(local: Option<FileEntry>, stat: StatReply, io: FetchIo): (r: FetchOutcome)
    ensures stat.rpc != Ok ==> r == FetchOutcome(Stat(stat.rpc), local)
    ensures stat.rpc == Ok && local.Some? && local.value.mtime >= stat.mtime ==> r == FetchOutcome(AlreadyExists, local)
    ensures r.status == Ok ==> r.local.Some? && r.local.value.content == Flatten(io.received)
    ensures r.status == Ok && io.utimeOk ==> r.local.value.mtime == stat.mtime
    ensures Downloaded(local, stat, io) && io.finish != Ok ==>
              r.status == ReduceError(io.finish) && (io.removeOk ==> r.local.None?)
    ensures Downloaded(local, stat, io) && io.finish == Ok ==> r.status == Ok
  {
    var s := Stat(stat.rpc);
    if s != Ok then FetchOutcome(s, local)
    else if local.Some? && local.value.mtime >= stat.mtime then FetchOutcome(AlreadyExists, local)
    else if !io.readerOk then FetchOutcome(Cancelled, local)
    else if !io.openOk then FetchOutcome(Cancelled, local)
    else if io.failedWrite.Some? && io.failedWrite.value < |io.received| then
      FetchOutcome(Cancelled, Some(FileEntry(io.now, Flatten(io.received[..io.failedWrite.value]))))
    else if io.finish != Ok then
      FetchOutcome(ReduceError(io.finish), if io.removeOk then None else Some(FileEntry(io.now, Flatten(io.received))))
    else
      FetchOutcome(Ok, Some(FileEntry(if io.utimeOk then stat.mtime else io.now, Flatten(io.received))))
  }

  /** A fetch that succeeded and set the server's time makes the next fetch
      of the unchanged server file answer ALREADY_EXISTS, whatever happens
      on the wire. */
  lemma FetchTwiceAlreadyExists(local: Option<FileEntry>, stat: StatReply, io: FetchIo, io2: FetchIo)
    requires FetchP2(local, stat, io).status == Ok && io.utimeOk
    ensures var after := FetchP2(local, stat, io).local;
            FetchP2(after, stat, io2) == FetchOutcome(AlreadyExists, after)
  {
  }

  /** The status `Delete` returns, whether it sent the `DeleteFile` RPC, and
      the local copy after. */
  datatype DeleteOutcome = DeleteOutcome(status: StatusCode, rpcSent: bool, local: Option<FileEntry>)

  /** `DFSClientNodeP2::Delete`: `lock` is what `RequestWriteAccess`
      returned, `rpc` the code of the `DeleteFile` call, `removeOk` whether
      removing the local copy succeeds. */
  function DeleteP2(lock: StatusCode, rpc: StatusCode, local: Option<FileEntry>, removeOk: bool): (r: DeleteOutcome)
    ensures lock != Ok ==> r == DeleteOutcome(lock, false, local)
    ensures lock == Ok ==> r.rpcSent
    ensures lock == Ok && rpc != Ok && ReduceError(rpc) != NotFound ==> r == DeleteOutcome(ReduceError(rpc), true, local)
    ensures lock == Ok && (rpc == Ok || rpc == NotFound) ==>
              (if local.Some? && !removeOk then r == DeleteOutcome(Cancelled, true, local)
               else r == DeleteOutcome(Ok, true, None))
  {
    if lock != Ok then DeleteOutcome(lock, false, local)
    else if rpc != Ok && ReduceError(rpc) != NotFound then DeleteOutcome(ReduceError(rpc), true, local)
    else if local.Some? && !removeOk then DeleteOutcome(Cancelled, true, local)
    else DeleteOutcome(Ok, true, None)
  }

  /** Deleting a file the server does not have, by a client holding its
      lock, still removes the local copy and reports OK. */
  lemma DeleteToleratesMissing(st: ServerState, name: string, client: string, local: FileEntry, serverRemoveOk: bool)
    requires name != "" && HasFileLock(st.locks, name, client) && name !in st.files
    ensures var d := DeleteFileP2(st, name, client, serverRemoveOk);
            d.status == NotFound
            && DeleteP2(Ok, d.status, Some(local), true) == DeleteOutcome(Ok, true, None)
  {
  }
}
