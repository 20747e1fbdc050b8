/** What the distributed file system moves around: a file's bytes and
    modification time, the `StoreFileChunk` stream message, and the 4096-byte
    read loop both `Store` clients send a file with. */
module DfsFiles {
  import opened Base

  /** A stored or cached file: its modification time and its bytes. */
  datatype FileEntry = FileEntry(mtime: int, content: seq<Byte>)

  /** A file system view: file name to entry. */
  type FileStore = map<string, FileEntry>

  /** `StoreFileChunk`: unset string fields are empty, as in proto3. */
  datatype StoreFileChunk = StoreFileChunk(name: string, clientId: string, content: seq<Byte>)

  const CHUNK_SIZE: nat := 4096

  /** The pieces the `while (!file.eof())` loop reads: full 4096-byte reads
      and, unless the length is a multiple of 4096, one short last read; an
      empty file gives no piece. */
  function Split(file: seq<Byte>): (r: seq<seq<Byte>>)
    ensures Flatten(r) == file
    ensures forall i :: 0 <= i < |r| ==> 0 < |r[i]| <= CHUNK_SIZE
    ensures forall i :: 0 <= i < |r| - 1 ==> |r[i]| == CHUNK_SIZE
    ensures |r| == (|file| + CHUNK_SIZE - 1) / CHUNK_SIZE
    decreases |file|
  {
    if |file| == 0 then []
    else if |file| <= CHUNK_SIZE then
      assert Flatten([file]) == file + Flatten([file][1..]);
      [file]
    else
      var rest := Split(file[CHUNK_SIZE..]);
      assert ([file[..CHUNK_SIZE]] + rest)[1..] == rest;
      assert file == file[..CHUNK_SIZE] + file[CHUNK_SIZE..];
      [file[..CHUNK_SIZE]] + rest
  }

  /** The messages of one upload: every piece in order, the first one also
      carrying the file name and the client id (part 1 sends an empty id). */
  function Messages(name: string, clientId: string, pieces: seq<seq<Byte>>): (r: seq<StoreFileChunk>)
    ensures |r| == |pieces|
    ensures forall i :: 0 <= i < |r| ==> r[i].content == pieces[i]
    ensures |r| > 0 ==> r[0].name == name && r[0].clientId == clientId
    ensures forall i :: 1 <= i < |r| ==> r[i].name == "" && r[i].clientId == ""
  {
    seq(|pieces|, i requires 0 <= i < |pieces| =>
      if i == 0 then StoreFileChunk(name, clientId, pieces[i]) else StoreFileChunk("", "", pieces[i]))
  }

  /** The contents of a chunk stream, in arrival order. */
  function Contents(chunks: seq<StoreFileChunk>): (r: seq<seq<Byte>>)
    ensures |r| == |chunks|
    ensures forall i :: 0 <= i < |r| ==> r[i] == chunks[i].content
  {
    seq(|chunks|, i requires 0 <= i < |chunks| => chunks[i].content)
  }

  /** Reading a file with the loop and concatenating what arrives gives the
      file back. */
  lemma MessagesReassemble(name: string, clientId: string, file: seq<Byte>)
    ensures Flatten(Contents(Messages(name, clientId, Split(file)))) == file
  {
    assert Contents(Messages(name, clientId, Split(file))) == Split(file);
  }

  /** `Split` is the only way to cut a file into non-empty pieces of at
      most 4096 bytes of which all but the last are full. */
  lemma {:induction false} SplitUnique(pieces: seq<seq<Byte>>, file: seq<Byte>)
    requires Flatten(pieces) == file
    requires forall i :: 0 <= i < |pieces| ==> 0 < |pieces[i]| <= CHUNK_SIZE
    requires forall i :: 0 <= i < |pieces| - 1 ==> |pieces[i]| == CHUNK_SIZE
    ensures pieces == Split(file)
    decreases |pieces|
  {
    if |pieces| == 1 {
      assert Flatten(pieces[1..]) == [];
      assert file == pieces[0];
    } else if |pieces| > 1 {
      var tail := pieces[1..];
      assert |tail[0]| > 0 && |Flatten(tail)| >= |tail[0]| by {
        assert Flatten(tail) == tail[0] + Flatten(tail[1..]);
      }
      assert file == pieces[0] + Flatten(tail);
      assert file[..CHUNK_SIZE] == pieces[0] && file[CHUNK_SIZE..] == Flatten(tail);
      SplitUnique(tail, Flatten(tail));
      assert pieces == [pieces[0]] + tail;
    }
  }

  /** The read loop as the client runs it: read up to 4096 bytes, stop on a
      read of nothing, otherwise wrap the bytes in a chunk, naming the file
      on the first one only. */
  method ReadLoop(name: string, clientId: string, file: seq<Byte>) returns (chunks: seq<StoreFileChunk>)
    ensures Flatten(Contents(chunks)) == file
    ensures forall i :: 0 <= i < |chunks| ==> 0 < |chunks[i].content| <= CHUNK_SIZE
    ensures |chunks| > 0 ==> chunks[0].name == name && chunks[0].clientId == clientId
    ensures forall i :: 1 <= i < |chunks| ==> chunks[i].name == "" && chunks[i].clientId == ""
    ensures |chunks| == 0 <==> |file| == 0
    ensures chunks == Messages(name, clientId, Split(file))
  {
    chunks := [];
    var pos := 0;
    var firstChunk := true;
    while true
      invariant 0 <= pos <= |file|
      invariant Flatten(Contents(chunks)) == file[..pos]
      invariant forall i :: 0 <= i < |chunks| ==> 0 < |chunks[i].content| <= CHUNK_SIZE
      invariant firstChunk <==> |chunks| == 0
      invariant |chunks| > 0 ==> chunks[0].name == name && chunks[0].clientId == clientId
      invariant forall i :: 1 <= i < |chunks| ==> chunks[i].name == "" && chunks[i].clientId == ""
      invariant |chunks| == 0 ==> pos == 0
      invariant forall i :: 0 <= i < |chunks| - 1 ==> |chunks[i].content| == CHUNK_SIZE
      invariant |chunks| > 0 && |chunks[|chunks| - 1].content| < CHUNK_SIZE ==> pos == |file|
      decreases |file| - pos
    {
      var bytesRead := if |file| - pos < CHUNK_SIZE then |file| - pos else CHUNK_SIZE;
      if bytesRead <= 0 {
        break;
      }
      var chunk := StoreFileChunk("", "", file[pos..pos + bytesRead]);
      if firstChunk {
        chunk := chunk.(name := name, clientId := clientId);
        firstChunk := false;
      }
      assert Contents(chunks + [chunk]) == Contents(chunks) + [chunk.content];
      FlattenSnoc(Contents(chunks), chunk.content);
      assert file[..pos + bytesRead] == file[..pos] + file[pos..pos + bytesRead];
      chunks := chunks + [chunk];
      pos := pos + bytesRead;
    }
    assert file[..pos] == file;
    var pieces := Contents(chunks);
    SplitUnique(pieces, file);
    assert chunks == Messages(name, clientId, pieces);
  }

  /** What the server's file system does during one upload: whether the
      `ofstream` opens, the index of the first chunk whose write fails (if
      any), whether the final close succeeds, and the clock the new file's
      modification time is taken from. */
  datatype StreamIo = StreamIo(openOk: bool, failedWrite: Option<nat>, closeOk: bool, now: int)

  predicate WriteFails(io: StreamIo, chunks: seq<StoreFileChunk>)
  {
    io.failedWrite.Some? && io.failedWrite.value < |chunks|
  }

  /** The file system after `name` was opened (and so truncated) and the
      first `k` chunks were written to it. */
  function WrittenUpTo(files: FileStore, name: string, chunks: seq<StoreFileChunk>, k: nat, now: int): (r: FileStore)
    requires k <= |chunks|
    ensures name in r && r[name] == FileEntry(now, Flatten(Contents(chunks[..k])))
    ensures forall f :: f != name ==> (f in r <==> f in files) && (f in files ==> r[f] == files[f])
  {
    files[name := FileEntry(now, Flatten(Contents(chunks[..k])))]
  }

  /** The outcome of opening `name`, writing the chunk contents in order
      and closing it: the file system it leaves and whether every step
      succeeded. A failed write is taken to write none of its bytes. */
  datatype Written = Written(ok: bool, files: FileStore)

  function WriteStream(files: FileStore, name: string, chunks: seq<StoreFileChunk>, io: StreamIo): (r: Written)
    ensures r.ok <==> io.openOk && !WriteFails(io, chunks) && io.closeOk
    ensures !io.openOk ==> r.files == files
    ensures io.openOk && !WriteFails(io, chunks) ==>
              r.files == files[name := FileEntry(io.now, Flatten(Contents(chunks)))]
    ensures forall f :: f != name ==> (f in r.files <==> f in files) && (f in files ==> r.files[f] == files[f])
  {
    if !io.openOk then Written(false, files)
    else if WriteFails(io, chunks) then Written(false, WrittenUpTo(files, name, chunks, io.failedWrite.value, io.now))
    else
      assert chunks[..|chunks|] == chunks;
      Written(io.closeOk, WrittenUpTo(files, name, chunks, |chunks|, io.now))
  }
}
