/** Part 1 of the distributed file system: the client's `Store`, which
    streams a file in 4096-byte chunks, and the server's `StoreFile`, which
    reassembles the stream into a file under the name the first chunk
    carries. */
module DfsP1 {
  import opened Base
  import opened Grpc
  import opened DfsFiles

  /** What the client reports and which chunks reached the server. */
  datatype ClientStore = ClientStore(status: StatusCode, sent: seq<StoreFileChunk>)

  /** `DFSClientNodeP1::Store`. `local` is the file's bytes, `None` when it
      cannot be opened; `writerOk` whether the stream was created;
      `failedWrite` the index of the first chunk whose `Write` fails;
      `finish` the code `Finish` returns. */
  function ClientStoreP1(local: Option<seq<Byte>>, name: string, writerOk: bool,
                         failedWrite: Option<nat>, finish: StatusCode): (r: ClientStore)
    ensures local.None? ==> r == ClientStore(NotFound, [])
    ensures local.Some? && !writerOk ==> r == ClientStore(Cancelled, [])
    ensures local.Some? && writerOk ==>
              var all := Messages(name, "", Split(local.value));
              if failedWrite.Some? && failedWrite.value < |all| then
                r == ClientStore(Cancelled, all[..failedWrite.value])
              else
                r.sent == all && r.status == (if finish == Ok then Ok else ReduceError(finish))
  {
    if local.None? then ClientStore(NotFound, [])
    else if !writerOk then ClientStore(Cancelled, [])
    else
      var all := Messages(name, "", Split(local.value));
      if failedWrite.Some? && failedWrite.value < |all| then ClientStore(Cancelled, all[..failedWrite.value])
      else if finish != Ok then ClientStore(ReduceError(finish), all)
      else ClientStore(Ok, all)
  }

  /** What `StoreFile` answers: its status, the name it puts in the
      response (set only on success), and the file system after it. */
  datatype StoreReply = StoreReply(status: StatusCode, name: string, files: FileStore)

  /** `StoreFile` of part 1. With no chunk at all the stream is never
      opened, so its close fails. */
  function ServerStoreP1(files: FileStore, chunks: seq<StoreFileChunk>, io: StreamIo): (r: StoreReply)
    ensures r.status == Ok || r.status == Cancelled
    ensures r.status == Ok <==> |chunks| > 0 && chunks[0].name != "" && WriteStream(files, chunks[0].name, chunks, io).ok
    ensures r.status == Ok ==> r.name == chunks[0].name && r.files == files[r.name := FileEntry(io.now, Flatten(Contents(chunks)))]
    ensures |chunks| == 0 || chunks[0].name == "" ==> r.files == files
  {
    if |chunks| == 0 then StoreReply(Cancelled, "", files)
    else
      var name := chunks[0].name;
      if name == "" then StoreReply(Cancelled, "", files)
      else
        var w := WriteStream(files, name, chunks, io);
        if w.ok then StoreReply(Ok, name, w.files) else StoreReply(Cancelled, "", w.files)
  }

  /** Only the first chunk's name matters: renaming later chunks changes
      nothing. */
  lemma LaterNamesIgnored(files: FileStore, chunks: seq<StoreFileChunk>, other: seq<StoreFileChunk>, io: StreamIo)
    requires |chunks| == |other| && |chunks| > 0 && other[0] == chunks[0]
    requires forall i :: 0 <= i < |chunks| ==> other[i].content == chunks[i].content
    ensures ServerStoreP1(files, other, io) == ServerStoreP1(files, chunks, io)
  {
    assert Contents(other) == Contents(chunks);
    forall k | 0 <= k <= |chunks| ensures Contents(other[..k]) == Contents(chunks[..k]) {
      assert Contents(other[..k]) == Contents(other)[..k];
      assert Contents(chunks[..k]) == Contents(chunks)[..k];
    }
  }

  /** A non-empty file stored through a server whose file system does not
      fail arrives byte for byte under its name, and the client reports OK;
      no other file changes. */
  lemma StoreRoundTrip(files: FileStore, name: string, file: seq<Byte>, io: StreamIo)
    requires name != "" && |file| > 0
    requires io.openOk && io.failedWrite.None? && io.closeOk
    ensures var sent := ClientStoreP1(Some(file), name, true, None, Ok).sent;
            var reply := ServerStoreP1(files, sent, io);
            reply.status == Ok && reply.name == name
            && reply.files == files[name := FileEntry(io.now, file)]
            && ClientStoreP1(Some(file), name, true, None, reply.status).status == Ok
  {
    var sent := Messages(name, "", Split(file));
    MessagesReassemble(name, "", file);
    assert |Split(file)| > 0;
  }

  /** An empty file produces no chunk, so the server's close of a stream it
      never opened fails and the client ends with CANCELLED. */
  lemma EmptyFileCancelled(files: FileStore, name: string, io: StreamIo)
    ensures ClientStoreP1(Some([]), name, true, None, Ok).sent == []
    ensures ServerStoreP1(files, [], io) == StoreReply(Cancelled, "", files)
    ensures ClientStoreP1(Some([]), name, true, None, ServerStoreP1(files, [], io).status).status == Cancelled
  {
    assert Split([]) == [];
  }
}
