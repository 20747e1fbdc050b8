# GETFILE, the cache proxy and the distributed file system: a Dafny model

This project models the protocol core of a systems-course repository in
Dafny 4.11 and proves properties of the model. The core has four parts.

- **GETFILE library (pr1).**
  - The server validates the request line `GETFILE GET <path>\r\n\r\n`, extracts
    the path, writes the status headers and sends data in a loop.
  - The client builds the request line, parses the response header and runs the
    receive loop that hands file bytes to the write callback.
  - The Python conformance script sends a fixed list of requests and checks each
    reply's status prefix.
- **Cache proxy (pr3).**
  - `handle_with_curl` and the miss path of `handle_with_cache` fetch a file over
    HTTP and relay it as a GETFILE reply.
  - The shared-memory offset pool is a FIFO queue of free segment offsets behind
    a semaphore and a mutex.
  - The hit path loops over shared-memory chunks.
  - Each handler call gets its own private message queue name.
- **Round-robin test server.** An HTTP server that answers every request with
  the next code of a fixed list of error statuses.
- **Distributed file system (pr4).**
  - Part 1 streams a file to the server in 4096-byte chunks.
  - Part 2 adds:
    - the server's per-file write-lock table;
    - lock-checked `StoreFile` and `DeleteFile`;
    - the client's `Store`, `Fetch`, `Delete` and `Stat` decisions;
    - the two synchronisation passes that pick what to fetch and what to store.

Modules, one per component:

| module | component |
|---|---|
| `Base` | shared C-string helpers |
| `Decimal` | `%zu` printing and scanning |
| `Getfile` | the status enumeration and wire texts |
| `GfServer` | the GETFILE server |
| `GfClient` | the GETFILE client |
| `Conformance` | the Python conformance script |
| `Grpc` | the gRPC status codes |
| `DfsFiles` | file chunking and server-side writes |
| `DfsP1` | part 1 of the file system |
| `DfsLocks` | the part-2 write-lock table |
| `DfsServer` | the part-2 server |
| `DfsClient` | the part-2 client |
| `DfsSync` | the synchronisation passes |
| `OffsetPool` | the shared-memory offset pool |
| `Proxy` | the curl and cache handlers |
| `RoundRobin` | the round-robin test server |

How effects are modelled:

- Every result of a system call, library call or remote call is an explicit
  input: `send`, `recv`, `malloc`, `realloc`, the semaphore and mutex calls,
  curl, file streams, `remove`, `utime` and the gRPC status codes.
- A C string is the characters before its first NUL.
- `size_t` arithmetic is taken modulo 2^64.
- The conversion to `ssize_t` is written out.

## Model

| member | source | states |
|---|---|---|
| Decimal.Format | pr1/gflib/gfserver.c:149 | `%zu` prints a non-empty run of decimal digits, with no leading zero except for 0 itself |
| Decimal.ValueOfFormat | pr1/gflib/gfserver.c:149 | the printed digits denote the number printed |
| Decimal.FormatInjective | pr1/gflib/gfserver.c:149 | distinct numbers print differently |
| Decimal.FormatLength | pr1/gflib/gfserver.c:145-149 | any `size_t` prints in at most 20 digits, so the OK header fits its 1024-byte buffer |
| Decimal.ScanSize | pr1/gflib/gfclient.c:405-408 | `sscanf("%zu")` converts exactly when a digit run follows white space and an optional sign; the value is a `size_t`, and is the digits' value when that fits and is not negated |
| Decimal.ScanFormat | pr1/gflib/gfclient.c:405 | scanning what `%zu` printed gives back the same `size_t` |
| Getfile.Code | pr1/gflib/gfclient.h:12-17 | each status is one of the enumerator values 0..3 |
| Getfile.FromCode | pr1/gflib/gfclient.h:12-17 | an integer names a status exactly when it lies in 0..3, and then the status with that value |
| Getfile.CodeInjective | pr1/gflib/gfclient.h:12-17 | distinct statuses have distinct values |
| Getfile.FromCodeOfCode | pr1/gflib/gfclient.h:12-17 | reading a status's own value back gives that status |
| Getfile.Token | pr1/gflib/gfserver.c:148-155 | a status word is 2 to 14 characters with no space, CR or NUL |
| Getfile.StrStatus | pr1/gflib/gfclient.c:260-284 | `gfc_strstatus` gives "UNKNOWN" exactly for values outside the enumeration, and otherwise the status word |
| Getfile.StrStatusInjective | pr1/gflib/gfclient.c:260-284 | distinct statuses have distinct names, none of them "UNKNOWN" |
| Getfile.RequestText | pr1/gflib/gfclient.c:134 | the request line is "GETFILE GET ", then the path, then the blank line: 16 characters more than the path |
| Getfile.HeaderText | pr1/gflib/gfserver.c:139-156 | `gfs_sendheader` writes nothing exactly when the status is not an enumerator |
| Getfile.HeaderTextShape | pr1/gflib/gfserver.c:145-156 | the OK header is "GETFILE OK <len>\r\n\r\n"; the other headers are "GETFILE <word>\r\n\r\n"; every header is shorter than 1024 |
| GfServer.ValidateRequest | pr1/gflib/gfserver.c:69-113 | `validateRequest` answers only OK or INVALID, and INVALID for NULL |
| GfServer.ValidateOnPrefix | pr1/gflib/gfserver.c:84-112 | after the prefix, the verdict depends only on the blank line, the space count and the tail length |
| GfServer.ValidateRequestIff | pr1/gflib/gfserver.c:69-113 | OK exactly for the grammar: the "GETFILE GET /" prefix, a CRLFCRLF somewhere, exactly two spaces, and fewer than 1024 characters after "GETFILE GET " |
| GfServer.ExtractPathWithin | pr1/gflib/gfserver.c:45-66 | the path returned is shorter than the bound and holds no CR |
| GfServer.ExtractPath | pr1/gflib/gfserver.c:56-64 | as written: a returned path is shorter than 1024 |
| GfServer.ExtractPathBounded | pr1/gflib/gfserver.c:56-64 | with the buffer's bound: a returned path and its NUL fit the 1000-byte buffer |
| GfServer.ExtractOnPrefix | pr1/gflib/gfserver.c:46-62 | after the prefix, extraction depends only on the first CR at or after offset 12 |
| GfServer.PathEndExists | pr1/gflib/gfserver.c:55 | a validated request has a CR after the prefix, so `strchr` finds the path's end |
| GfServer.NoSpaceAfterPrefix | pr1/gflib/gfserver.c:90-100 | with exactly two spaces, both in the prefix, the path has no space |
| GfServer.ValidatedExtract | pr1/gflib/gfserver.c:286-293 | after validation, extraction is never undefined, and any path it yields starts with '/' and has no space or CR |
| GfServer.RequestRoundTrip | pr1/gflib/gfserver.c:69-113 | a servable path sent as the request line is accepted exactly when its tail is under 1024, and is extracted unchanged whenever it fits the bound |
| GfServer.RequestTextScan | pr1/gflib/gfserver.c:77-108 | on a built request line the validator's scans find the prefix, the blank line and two spaces, and the path ends at the first CR |
| GfServer.ExtractPathOverflows | pr1/gflib/gfserver.c:56-64 | a validated 1000-character path is returned by `extractPath` as written, so its NUL lands outside the 1000-byte buffer |
| GfServer.ExtractPathBoundedRefuses | pr1/gflib/gfserver.c:56-64 | the same request is refused under the buffer's bound |
| GfServer.Send | pr1/gflib/gfserver.c:115-137 | `gfs_send` returns -1 exactly when a `send` returns -1 or 0 first; otherwise it returns the length, all the data went out in order, and `bytesSent` grew by what was written |
| GfServer.RequestView | pr1/gflib/gfserver.c:266-282 | the request is NUL-terminated after the bytes read, or at byte 1023 when the buffer is full; a short NUL-free request is seen unchanged |
| GfServer.ServeWith | pr1/gflib/gfserver.c:256-299 | under either path bound: a failed or empty `recv` drops the connection; a rejected request gets the INVALID header; a dispatched path is servable and under 1000 characters; only the as-written bound lets a path of 1000 or more through, copied past the buffer |
| GfServer.Serve | pr1/gflib/gfserver.c:256-299 | as written, through `extractPath`'s 1024 check at line 293: a dispatched path is servable and under 1000 characters, and a validated path of 1000 to 1007 characters (the longest a request that fits the 1024-byte buffer with its NUL can carry) is copied past the 1000-byte `extractedPath`, modelled as `Overflowed` |
| GfServer.ServeCorrected | pr1/gflib/gfserver.c:256-299 | with the buffer's bound the server never overflows, and a dispatched path is servable and under 1000 characters |
| GfServer.ServeDispatchesValid | pr1/gflib/gfserver.c:286-295 | a request gets past validation exactly when the validator's grammar holds on what it sees: as written it then reaches the handler or overflows, corrected it reaches the handler |
| GfServer.RequestViewOfText | pr1/gflib/gfserver.c:278-282 | a request line shorter than the buffer is seen unchanged |
| GfServer.ServeRoundTrip | pr1/gflib/gfserver.c:256-295 | a servable path under 1000 characters, sent as the client's request line, reaches the handler unchanged, as written and corrected |
| GfServer.ServeAccepted | pr1/gflib/gfserver.c:286-295 | a validated request whose path extracts under 1000 characters is dispatched with that path, under either bound |
| GfServer.ServeOverflowed | pr1/gflib/gfserver.c:293 | as written, a validated request whose path extracts at 1000 characters or more overflows the path buffer |
| GfServer.ServeRefused | pr1/gflib/gfserver.c:293-295 | corrected, a validated request whose path is too long for the buffer hands NULL to the handler |
| GfServer.ServeOverflowsAt | pr1/gflib/gfserver.c:56-64 | every servable request line with a path of 1000 characters or more that fits the request buffer overflows as written and gets NULL when corrected |
| GfServer.ServeOverflows | pr1/gflib/gfserver.c:56-64 | the 1000-character path "/" followed by 999 'a' overflows the server loop as written and gets NULL when corrected |
| GfServer.HandlerEpilogue | pr1/gflib/gfserver.c:295-298 | a handler result of 0 sends nothing more; another enumerator sends that status's header |
| GfClient.RequestLine | pr1/gflib/gfclient.c:133-134 | the request is a prefix of the full request line, cut below BUFSIZ, and is the whole line when it fits |
| GfClient.RequestLineServed | pr1/gflib/gfclient.c:134 | client and server agree: a servable path under 1000 characters reaches the server's handler unchanged |
| GfClient.ParseHeaderWith | pr1/gflib/gfclient.c:323-408 | a view without the scheme, without a blank line or without exactly two spaces is INVALID; only OK carries a length, and that length is a `size_t` |
| GfClient.ParseResponseHeader | pr1/gflib/gfclient.c:323-408 | as written, with the token bounded by `sizeof(gfstatus_t)`, the only statuses that can come out are OK and INVALID |
| GfClient.HeaderPart | pr1/gflib/gfclient.c:337 | the header part is a prefix of the view, ending at its first blank line |
| GfClient.ParseResponseHeaderCorrected | pr1/gflib/gfclient.c:343-372 | with the token bounded by `extractedStatus` and spaces counted in the header only, a view without the scheme or without a blank line is INVALID |
| GfClient.StatusHeader | pr1/gflib/gfclient.c:319 | the two-space template "GETFILE <word> <digits>\r\n\r\n" is 13 characters longer than its parts |
| GfClient.ScanLaid | pr1/gflib/gfclient.c:337-395 | in a two-space layout, the parser's `strchr` and `strstr` scans stop at the two spaces, the CR and the blank line |
| GfClient.ParseOnScan | pr1/gflib/gfclient.c:358-387 | once the two spaces are found, a word at the bound is INVALID; ERROR and FILE_NOT_FOUND are recognised; any other non-OK word is INVALID |
| GfClient.LaidAll | pr1/gflib/gfclient.c:343-365 | a two-space header followed by space-free text has the layout the scans need, and exactly two spaces |
| GfClient.TwoSpaceTooLong | pr1/gflib/gfclient.c:365-370 | a word as long as the bound is INVALID |
| GfClient.TwoSpaceWord | pr1/gflib/gfclient.c:372-392 | a non-OK word under the bound decodes by the word alone, and carries no length |
| GfClient.TwoSpaceOk | pr1/gflib/gfclient.c:394-408 | an OK header's length is what `sscanf` reads from the digits before the CR |
| GfClient.TwoSpaceRoundTrip | pr1/gflib/gfclient.c:323-408 | a two-space header decodes to its own status and, for OK, its length, exactly when the word is under the bound, and to INVALID otherwise |
| GfClient.HeaderPartOfStatusHeader | pr1/gflib/gfclient.c:337 | the header part of a two-space header followed by anything is the header itself |
| GfClient.OkHeaderText | pr1/gflib/gfserver.c:149 | the server's OK header has the client's two-space layout |
| GfClient.OkHeaderRoundTrip | pr1/gflib/gfclient.c:323-408 | the server's OK header followed by space-free text decodes to OK and its length under both parsers |
| GfClient.OkHeaderAnyBody | pr1/gflib/gfclient.c:343-355 | under the corrected parser the OK header decodes whatever file bytes follow it |
| GfClient.FewSpacesInvalid | pr1/gflib/gfclient.c:351-355 | fewer than two spaces is INVALID under both parsers |
| GfClient.OneSpaceHeaderInvalid | pr1/gflib/gfserver.c:150-155 | the server's one-space FILE_NOT_FOUND, ERROR and INVALID headers decode as INVALID under both parsers |
| GfClient.StatusTokenBound | pr1/gflib/gfclient.c:367 | two-space ERROR and FILE_NOT_FOUND headers decode as INVALID as written, and as themselves when corrected |
| GfClient.SpaceInBodyRejected | pr1/gflib/gfclient.c:343-355 | a correct OK header followed by file bytes holding a space is INVALID as written, and OK with its length when corrected |
| GfClient.HeaderView | pr1/gflib/gfclient.c:144-149 | the parser's C string is undefined exactly when a full BUFSIZ chunk holds no NUL; otherwise it is the chunk's C string |
| GfClient.PerformWith | pr1/gflib/gfclient.c:144-199 | the bytes handed to the write callback are the tail of everything received, never empty, and delivered only after an OK header; `bytesRecvd` counts them; an unsent request returns -1 |
| GfClient.Perform | pr1/gflib/gfclient.c:160-163 | as written, success (0) implies an OK status |
| GfClient.PerformCorrected | pr1/gflib/gfclient.h:86-94 | as the interface documents: FILE_NOT_FOUND and ERROR return 0; an invalid header, a connection closed before any header, and an OK transfer that ends before the announced length return -1 |
| GfClient.BodySplit | pr1/gflib/gfclient.c:176-193 | the first chunk's bytes after the header, then the later chunks, are all received bytes past the header |
| GfClient.PerformOkChunk | pr1/gflib/gfclient.c:159-193 | after an accepted OK header, the callback gets the bytes after the blank line and every later chunk; the return is -1 after a failed `recv`, and when corrected also when fewer than the announced bytes arrived |
| GfClient.StatusHeaderEnd | pr1/gflib/gfclient.c:170 | `strstr` finds the blank line right after the digits |
| GfClient.OkChunk | pr1/gflib/gfclient.c:170-180 | in an OK header followed by a body, the content starts where the header ends |
| GfClient.OkFirstChunk | pr1/gflib/gfclient.c:159-180 | the parser accepts the first chunk as OK with its length, and the content starts after the header |
| GfClient.PerformOkText | pr1/gflib/gfclient.c:144-199 | a server OK reply yields OK, its length, and exactly the body bytes followed by the later chunks |
| GfClient.PerformReceivesFile | pr1/gflib/gfclient.c:144-199 | end to end as written: the client receives exactly the file the server sent, however `recv` split it, when the first chunk's content has no space |
| GfClient.PerformCorrectedReceivesFile | pr1/gflib/gfclient.c:144-199 | end to end with the corrected client: the same, for any content, and 0 is returned only when the announced length arrived on a clean close |
| GfClient.PerformShortTransfer | pr1/gflib/gfclient.c:196-201 | an OK header followed by fewer bytes than it announces, then a clean close: 0 as written, -1 when corrected |
| GfClient.PerformClosedBeforeHeader | pr1/gflib/gfclient.c:144-201 | a server that closes before sending anything: 0 as written, -1 when corrected |
| GfClient.PerformHeaderOnly | pr1/gflib/gfclient.c:196-201 | an OK header announcing n > 0 bytes with nothing after it: 0 as written, -1 when corrected |
| GfClient.PerformRefusedChunk | pr1/gflib/gfclient.c:159-163 | a first chunk read as non-OK ends the exchange at once with nothing written: -1 as written, 0 for the documented statuses when corrected |
| GfClient.FileNotFoundChunk | pr1/gflib/gfclient.c:367 | a two-space FILE_NOT_FOUND header is INVALID as written and FILE_NOT_FOUND when corrected |
| GfClient.PerformFileNotFound | pr1/gflib/gfclient.c:160-163 | a FILE_NOT_FOUND reply makes `gfc_perform` return -1 as written, and 0 with the status recorded when corrected |
| Conformance.StripLeft | pr1/test_gflib.py:63 | leading white space is removed, and the result is a suffix of the text |
| Conformance.StripRight | pr1/test_gflib.py:63 | trailing white space is removed, and the result is a prefix of the text |
| Conformance.Strip | pr1/test_gflib.py:63 | `str.strip` leaves no white space at either end |
| Conformance.StripTrailing | pr1/test_gflib.py:63 | text whose ends are not white space, followed by white space, strips to itself |
| Conformance.SendRequest | pr1/test_gflib.py:56-65 | an exception, an undecodable reply among them, gives "ERROR: " and its message; a decoded reply gives at most the 1024 characters one `recv` of 1024 bytes decodes to |
| Conformance.RunTests | pr1/test_gflib.py:67-80 | verdict i is true exactly when case i's stripped reply starts with its expected prefix |
| Conformance.Catalog | pr1/test_gflib.py:8-54 | the eight cases not commented out, in order; every request ends with the blank line and fits the server's 1024-byte request buffer |
| Conformance.CatalogExpectations | pr1/test_gflib.py:8-54 | every expected value is one of the three status prefixes |
| Conformance.RaisedFails | pr1/test_gflib.py:64-65 | an exchange that raised never passes |
| Conformance.AllRaisedAllFail | pr1/test_gflib.py:70-80 | a run in which every exchange raised fails every case |
| Conformance.InvalidHeaderPasses | pr1/test_gflib.py:77 | the server's INVALID header meets the INVALID expectation once stripped |
| Conformance.PrefixRejected | pr1/gflib/gfserver.c:77-82 | a request that departs from "GETFILE GET /" gets the INVALID header before any handler runs |
| Conformance.InvalidRequestRejected | pr1/test_gflib.py:19-53 | each INVALID-case request is rejected by the prefix check |
| Conformance.InvalidCasesRejected | pr1/test_gflib.py:19-53 | the five INVALID cases are rejected by the server, and each passes on the reply it gets |
| Conformance.LongPathHandled | pr1/test_gflib.py:34-38 | the 515-character path passes validation and reaches the handler, so its FILE_NOT_FOUND comes from the handler |
| Conformance.PlainPathServable | pr1/test_gflib.py:10-15 | an absolute path of plain characters is servable |
| Conformance.ShortRequestHandled | pr1/test_gflib.py:9-18 | the two short well-formed paths reach the handler unchanged |
| Conformance.WellFormedCasesHandled | pr1/test_gflib.py:9-18 | the first two cases are dispatched with their own paths |
| Grpc.ReduceError | pr4/part2/dfslib-clientnode-p2.cpp:672-697 | a failed status is reported as DEADLINE_EXCEEDED, NOT_FOUND or CANCELLED; those three pass through and every other code becomes CANCELLED |
| Grpc.ReduceErrorIdempotent | pr4/part1/dfslib-clientnode-p1.cpp:124-136 | reducing twice is reducing once, and exactly the reported codes are left unchanged |
| DfsFiles.Split | pr4/part1/dfslib-clientnode-p1.cpp:97-118 | the read loop's pieces concatenate to the file; each is 1 to 4096 bytes, all but the last are full, and there are ceil(size/4096) of them |
| DfsFiles.Messages | pr4/part2/dfslib-clientnode-p2.cpp:206-228 | one message per piece, in order; only the first carries the name and client id |
| DfsFiles.Contents | pr4/part2/dfslib-servernode-p2.cpp:267-304 | the server sees the chunks' contents in arrival order |
| DfsFiles.MessagesReassemble | pr4/part1/dfslib-servernode-p1.cpp:113-143 | concatenating what arrives gives back exactly the file that was read |
| DfsFiles.SplitUnique | pr4/part1/dfslib-clientnode-p1.cpp:97-118 | any cut of a file into non-empty pieces of at most 4096 bytes, all but the last full, is the read loop's cut |
| DfsFiles.ReadLoop | pr4/part1/dfslib-clientnode-p1.cpp:97-118 | the loop's chunks are exactly the messages of the file's 4096-byte pieces: they reassemble to the file, each holds 1 to 4096 bytes, only the first is named, and there are none exactly for an empty file |
| DfsFiles.WrittenUpTo | pr4/part2/dfslib-servernode-p2.cpp:282-301 | after k chunks the opened file holds their contents, and no other file changes |
| DfsFiles.WriteStream | pr4/part2/dfslib-servernode-p2.cpp:282-312 | the upload succeeds exactly when the open, every write and the close succeed; a failed open changes nothing; success stores exactly the streamed bytes; other files never change |
| DfsP1.ClientStoreP1 | pr4/part1/dfslib-clientnode-p1.cpp:72-144 | a missing local file is NOT_FOUND; a missing writer is CANCELLED; a failed write is CANCELLED after the chunks before it; otherwise every chunk is sent and the `Finish` status is reported reduced |
| DfsP1.ServerStoreP1 | pr4/part1/dfslib-servernode-p1.cpp:103-155 | `StoreFile` answers OK exactly when chunks arrived, the first is named and the stream succeeded, and then the file holds their contents; with no chunk or no name nothing changes |
| DfsP1.LaterNamesIgnored | pr4/part1/dfslib-servernode-p1.cpp:117-126 | only the first chunk's name matters |
| DfsP1.StoreRoundTrip | pr4/part1/dfslib-clientnode-p1.cpp:97-144 | a non-empty file stored through a file system that does not fail ends on the server byte for byte, and the client reports OK |
| DfsP1.EmptyFileCancelled | pr4/part1/dfslib-servernode-p1.cpp:146-152 | an empty file sends no chunk; the close of the unopened stream fails, so the store is CANCELLED |
| DfsLocks.AcquireWriteLock | pr4/part2/dfslib-servernode-p2.cpp:369-431 | an empty name or client is CANCELLED; a free file is granted and recorded; the holder is granted again; anyone else gets RESOURCE_EXHAUSTED with the holder named |
| DfsLocks.ReleaseWriteLock | pr4/part2/dfslib-servernode-p2.cpp:433-437 | the file's entry is gone and every other entry is unchanged |
| DfsLocks.AcquireGrants | pr4/part2/dfslib-servernode-p2.cpp:403-430 | OK exactly when the response says success, exactly when the caller holds the lock afterwards, exactly when the file was free or already the caller's; a refusal changes nothing |
| DfsLocks.AcquireIdempotent | pr4/part2/dfslib-servernode-p2.cpp:403-430 | acquiring twice is acquiring once |
| DfsLocks.WellformedPreserved | pr4/part2/dfslib-servernode-p2.cpp:369-437 | acquire and release keep every entry's name and holder non-empty |
| DfsLocks.HolderKept | pr4/part2/dfslib-servernode-p2.cpp:403-437 | mutual exclusion: until someone releases the file, any run of acquires and other releases leaves the holder in place |
| DfsLocks.OnlyReleaseFrees | pr4/part2/dfslib-servernode-p2.cpp:433-437 | a held lock that is free after a run was released in that run |
| DfsServer.StoreFileP2 | pr4/part2/dfslib-servernode-p2.cpp:259-327 | no chunk or no name is CANCELLED; a caller without the lock is RESOURCE_EXHAUSTED with nothing changed; a holder's upload releases the lock and is OK exactly when the stream succeeded |
| DfsServer.DeleteFileP2 | pr4/part2/dfslib-servernode-p2.cpp:330-367 | an empty name is CANCELLED; a caller without the lock is RESOURCE_EXHAUSTED; for the holder: a missing file is NOT_FOUND, a failed `remove` is CANCELLED, otherwise the file is removed; the lock is released |
| DfsServer.NonHolderChangesNothing | pr4/part2/dfslib-servernode-p2.cpp:277-279 | a caller without the lock changes no file and no lock |
| DfsServer.LockReleasedOnEveryExit | pr4/part2/dfslib-servernode-p2.cpp:289-365 | past the lock check, every exit of both calls frees the file's lock and keeps every other lock |
| DfsServer.LockedStoreRoundTrip | pr4/part2/dfslib-servernode-p2.cpp:259-327 | a client that obtained the lock and streams a non-empty file gets OK, the server holds exactly its bytes, and the lock is free again |
| DfsClient.RequestWriteAccess | pr4/part2/dfslib-clientnode-p2.cpp:62-117 | OK exactly when the call succeeded and the server granted; DEADLINE_EXCEEDED and RESOURCE_EXHAUSTED pass through; a refusal is RESOURCE_EXHAUSTED; every other failure is CANCELLED |
| DfsClient.WriteAccessMatchesServer | pr4/part2/dfslib-clientnode-p2.cpp:62-117 | against the server's table the client's verdict is OK exactly when the caller holds the lock afterwards |
| DfsClient.Stat | pr4/part2/dfslib-clientnode-p2.cpp:459-503 | OK exactly when the call succeeded; otherwise the reduced code |
| DfsClient.StoreP2 | pr4/part2/dfslib-clientnode-p2.cpp:120-239 | a missing local file is NOT_FOUND; a stat failure returns that code; ALREADY_EXISTS exactly when the server's copy is as new, and then no lock is asked for; a refused lock returns the lock's code |
| DfsClient.StoreP2Corrected | pr4/part2/dfslib-clientnode-p2.cpp:231-239 | as `StoreP2`, but OK implies the server's `Finish` was OK |
| DfsClient.StoreIgnoresFinish | pr4/part2/dfslib-clientnode-p2.cpp:231-239 | when the server cannot open the file it answers CANCELLED and stores nothing, yet the as-written client reports OK; the corrected client reports CANCELLED |
| DfsClient.StoreCorrectedRoundTrip | pr4/part2/dfslib-clientnode-p2.cpp:120-239 | with the corrected client, OK means the server stored the file byte for byte |
| DfsClient.FetchP2 | pr4/part2/dfslib-clientnode-p2.cpp:244-346 | a failed stat returns its code; a cached copy as new is ALREADY_EXISTS; OK means the cache holds exactly the received bytes and the server's time when `utime` succeeded; a downloaded file is OK exactly when `Finish` is OK |
| DfsClient.FetchTwiceAlreadyExists | pr4/part2/dfslib-clientnode-p2.cpp:277-285 | a fetch that set the server's time makes the next fetch ALREADY_EXISTS |
| DfsClient.DeleteP2 | pr4/part2/dfslib-clientnode-p2.cpp:349-413 | a refused lock is returned without the RPC; an RPC failure other than NOT_FOUND is returned reduced; OK or NOT_FOUND from the server removes the local copy |
| DfsClient.DeleteToleratesMissing | pr4/part2/dfslib-clientnode-p2.cpp:384-413 | deleting a file the server lacks, while holding its lock, still removes the local copy and reports OK |
| DfsSync.ServerPass | pr4/part2/dfslib-clientnode-p2.cpp:730-771 | every planned name comes from the server listing |
| DfsSync.LocalPass | pr4/part2/dfslib-clientnode-p2.cpp:773-785 | every planned name is local and missing on the server |
| DfsSync.ServerPassChooses | pr4/part2/dfslib-clientnode-p2.cpp:738-770 | a server file is planned with an action exactly when the time comparison chooses that action |
| DfsSync.LocalPassStores | pr4/part2/dfslib-clientnode-p2.cpp:778-784 | a local file is planned exactly when the server lacks it, and then as a store |
| DfsSync.ServerPassDistinct | pr4/part2/dfslib-clientnode-p2.cpp:738 | the server pass plans each file at most once |
| DfsSync.LocalPassDistinct | pr4/part2/dfslib-clientnode-p2.cpp:778 | the local pass plans each file at most once |
| DfsSync.Sync | pr4/part2/dfslib-clientnode-p2.cpp:616-622 | the server pass runs first: every planned name comes from a listing, and every entry for a server file precedes every entry for a file the server lacks |
| DfsSync.SyncIsWanted | pr4/part2/dfslib-clientnode-p2.cpp:612-622 | the two passes together plan exactly the sync rule: fetch what is newer or only on the server, store what is newer or only local, nothing twice |
| DfsSync.ChosenCallsProceed | pr4/part2/dfslib-clientnode-p2.cpp:162-168 | no fetch or store the passes choose trips its own ALREADY_EXISTS check |
| OffsetPool.Offset | pr3/cache/shm_channel.c:158 | `i * segment_size` is a `size_t` |
| OffsetPool.RegionSize | pr3/cache/shm_channel.c:88 | `segment_size * segment_count` is a `size_t` |
| OffsetPool.InitPool | pr3/cache/shm_channel.c:148-162 | returns 0 exactly when no `malloc` fails; the queue then holds offset i at position i for every segment, and after a failure it holds the offsets enqueued before it |
| OffsetPool.OffsetsLayout | pr3/cache/shm_channel.c:88-158 | without wrap-around the offsets are 0, s, ..., (n-1)s, strictly increasing, and each segment lies inside the mapped region |
| OffsetPool.ToSsize | pr3/cache/shm_channel.c:204 | the cast is the identity up to SSIZE_MAX and lands in the `ssize_t` range |
| OffsetPool.ToSize | pr3/cache/handle_with_cache.c:25-115 | the offset passed back to the release is a `size_t` |
| OffsetPool.SsizeRoundTrip | pr3/cache/handle_with_cache.c:25-115 | handing the acquired `ssize_t` back to the release restores the offset |
| OffsetPool.Acquire | pr3/cache/shm_channel.c:175-205 | a failed wait or lock, or an empty queue, gives -1 with the pool unchanged; otherwise the head is removed and returned, or lost with -1 when the unlock fails |
| OffsetPool.Release | pr3/cache/shm_channel.c:207-239 | 0 exactly when every step succeeds; after a successful malloc and lock the offset is at the tail; before that the pool is unchanged |
| OffsetPool.AcquireReleaseConserves | pr3/cache/shm_channel.c:175-239 | acquiring and releasing what came back keeps the same multiset of offsets, with the head moved to the tail |
| OffsetPool.DestroyPool | pr3/cache/shm_channel.c:164-173 | every queued offset is popped and freed, in order, and the queue ends empty |
| OffsetPool.Step | pr3/cache/shm_channel.c:175-239 | one take or give keeps the ledger valid |
| OffsetPool.StepConserves | pr3/cache/shm_channel.c:175-239 | no take or give creates or destroys an offset: each moves between the pool, the holders and the lost set |
| OffsetPool.TakeConserves | pr3/cache/shm_channel.c:175-205 | a take conserves the offsets |
| OffsetPool.GiveConserves | pr3/cache/shm_channel.c:207-239 | a give of a held offset conserves the offsets |
| OffsetPool.RunLedger | pr3/cache/shm_channel.c:175-239 | a disciplined run keeps the ledger valid |
| OffsetPool.RunConserves | pr3/cache/shm_channel.c:175-239 | across any disciplined run the offsets accounted for stay the same |
| OffsetPool.ExclusiveGrant | pr3/cache/shm_channel.c:183-204 | with every offset accounted for once, a successful take never hands out an offset someone already holds |
| OffsetPool.ConsumeRequest | pr3/cache/shm_channel.c:251-263 | 0 exactly when a whole `cache_response_t` arrived, otherwise -1 |
| Proxy.CurlStatus | pr3/server/handle_with_curl.c:51-63 | 404 is FILE_NOT_FOUND, other codes of 400 and up are ERROR, and below 400 is OK |
| Proxy.CacheMissStatus | pr3/cache/handle_with_cache.c:159-171 | 404 and 403 are FILE_NOT_FOUND, other codes of 400 and up are ERROR, and below 400 is OK |
| Proxy.MappingsDifferOnlyOn403 | pr3/cache/handle_with_cache.c:159 | the two handlers read a code differently exactly for 403 |
| Proxy.ErrorClassesRelayed | pr3/server/handle_with_curl.c:57-58 | every RFC 9110 client error (section 15.5) or server error (section 15.6) is relayed as a failure, and every server error as ERROR |
| Proxy.Received | pr3/server/handle_with_curl.c:31 | the buffer holds `size` bytes |
| Proxy.WriteCallback | pr3/server/handle_with_curl.c:84-100 | a failed `realloc` returns 0 and changes nothing; otherwise the piece is appended, and its length returned |
| Proxy.Collect | pr3/server/handle_with_curl.c:34-38 | the buffer stays NUL-terminated through the transfer |
| Proxy.Kept | pr3/server/handle_with_curl.c:88-92 | counts the pieces before the first non-empty one whose `realloc` fails |
| Proxy.CollectReassembles | pr3/server/handle_with_curl.c:34-45 | the transfer aborts exactly when some non-empty piece's `realloc` fails, and the buffer then holds exactly the pieces before it |
| Proxy.Snprintf | pr3/server/handle_with_curl.c:116 | `snprintf` leaves a prefix shorter than the capacity, and the whole text when it fits |
| Proxy.FullUrl | pr3/server/handle_with_curl.c:106-118 | a URL exists exactly when `malloc` succeeds, and is the server followed by the path |
| Proxy.FullUrlExact | pr3/cache/handle_with_cache.c:216-226 | the computed size never cuts the URL, and one byte less would |
| Proxy.Relay | pr3/server/handle_with_curl.c:39-72 | a failed transfer sends the ERROR header; a non-OK status sends its header; OK sends the header with the body's length, then the body |
| Proxy.Transfer | pr3/server/handle_with_curl.c:38 | the collected buffer is valid |
| Proxy.HandleWithCurl | pr3/server/handle_with_curl.c:7-73 | a setup failure returns -1 with no header; a result of 0 or more exactly for a completed transfer below 400, then the body with its length; 404 gets FILE_NOT_FOUND and other failures get ERROR |
| Proxy.HandleWithFile | pr3/server/handle_with_curl.c:144-146 | a setup failure returns -1 with no header; a result of 0 or more exactly for a completed transfer below 400, then the body with its length; 404 gets FILE_NOT_FOUND |
| Proxy.HandleWithFileIsCurl | pr3/server/handle_with_curl.c:144-146 | `handle_with_file` replies exactly as `handle_with_curl` |
| Proxy.CacheMiss | pr3/cache/handle_with_cache.c:119-183 | the same, fetching from the configured server, with 403 also relayed as FILE_NOT_FOUND |
| Proxy.FetchRelaysBody | pr3/server/handle_with_curl.c:65-72 | a successful fetch relays exactly the bytes the server sent, with their length in the header |
| Proxy.HandlersAgreeExcept403 | pr3/cache/handle_with_cache.c:159-171 | on the same inputs the two handlers give the same reply except on 403, where curl says ERROR and the cache says FILE_NOT_FOUND |
| Proxy.AtomicInt | pr3/cache/handle_with_cache.c:346-352 | returns the counter's value before the increment and leaves it one higher |
| Proxy.QueueName | pr3/cache/handle_with_cache.c:16-19 | a queue name is the prefix followed by the counter's decimal digits |
| Proxy.QueueNamesDistinct | pr3/cache/handle_with_cache.c:312 | distinct counter values name distinct queues |
| Proxy.IssueNames | pr3/cache/handle_with_cache.c:307-312 | k handler calls get the names for 0..k-1, pairwise distinct |
| Proxy.HitLoop | pr3/cache/handle_with_cache.c:85-116 | the loop stops on the first failing round with -1, or on the first round that is done with everything sent, returning the total sent; until then it keeps waiting |
| RoundRobin.TestHandler | test_tools/round_robbin_server/main.go:16-22 | a request gets the code at `index`, and `index` moves on by one, wrapping from 6 to 0 |
| RoundRobin.Serve | test_tools/round_robbin_server/main.go:16-22 | n requests get n codes and leave a valid index |
| RoundRobin.ServeRotates | test_tools/round_robbin_server/main.go:21-22 | the k-th later request gets the code k places further round the list, and the index ends n places on |
| RoundRobin.NthRequest | test_tools/round_robbin_server/main.go:11-22 | from the start, request n gets `statusCodes[n mod 7]` |
| RoundRobin.CodesDistinct | test_tools/round_robbin_server/main.go:11 | no code is listed twice |
| RoundRobin.WindowIsPermutation | test_tools/round_robbin_server/main.go:11-22 | any seven consecutive requests get every listed code exactly once, as the list rotated |
| RoundRobin.NeverOk | test_tools/round_robbin_server/main.go:11 | every answer is an RFC 9110 error; the curl handler relays 404 as FILE_NOT_FOUND and the rest as ERROR; the cache's miss path also gives FILE_NOT_FOUND for 403 |

## Left out

- Sockets, `accept`, `listen`, address resolution: modelled only through the results they hand back; connection set-up lives outside the core's logic.
- Threads, mutex fairness, the inotify watcher and the callback completion queue: the model is sequential. Mutual exclusion is stated over sequences of lock operations.
- libcurl, POSIX message queues, shared memory and semaphores: their results are inputs.
- The part-1 `GetFile`, `DeleteFile`, `GetAllFiles` and `GetFileStatus` RPCs (pr4/part1/dfslib-servernode-p1.cpp:158-179) and the part-1 client's `Fetch`, `Delete`, `List` and `Stat`: they are unimplemented stubs.
- The part-2 `List` call and `process_tombstones`: the sync passes take the two listings as inputs.
- DfsSync.SyncIsWanted: takes modification times as unbounded integers; the `int` truncation of the `List` map is not modelled.
- `handle_with_cache_old`: dead code that the proxy never registers.
- The top of `handle_with_cache` (private queue creation, segment acquisition, request publication): modelled piecewise by `Proxy.QueueName`, `OffsetPool.Acquire` and `OffsetPool.ConsumeRequest`, not as one composed function.
- The leaked segment and private queue on the cache-miss path: not modelled, since it changes no reply.
- Proxy.WriteCallback: does not model the `size * nmemb` overflow or the `realloc` size overflow; pieces are given as byte strings of their real length.
- DfsFiles.WriteStream: a failed write is modelled as writing nothing of that chunk. Partial writes are not modelled.
- OffsetPool.ConsumeRequest: takes `sizeof(cache_response_t)` as a parameter, since the layout of the struct is platform-dependent.
- OffsetPool.Acquire: the success of `sem_wait` is an input; that `offset_pool_sem` is never initialised in `ipc_init` is not modelled.
- RoundRobin.TestHandler: models the status code and the index only. The `HTTP <code> - <reason>` body that `testHandler` writes (main.go:30) is left out: every consumer in the proxy relays an error status without its body.
- OffsetPool.Acquire: the empty-queue branch takes `steque_pop` to return NULL on an empty queue, which the `!ptr` check at pr3/cache/shm_channel.c:197-200 relies on. `steque.c` is not part of this model, and a `steque_pop` that exits the process on underflow would end the run there instead.
- Conformance.SendRequest: the UTF-8 decoding of `.decode()` is not modelled. An exchange carries the decoded text, or the `UnicodeDecodeError` as `Raised` when the bytes are not valid UTF-8, so which replies decode is an input.
- OffsetPool.InitPool: requires at most INT_MAX segments, because the loop counter is an `int`. The overflow of `i++` beyond that is not modelled.
- DfsClient.StoreP2: the lock left held when the local file fails to open after the grant is not modelled as server state; the client-side outcome is.
- The pr3 GETFILE server library is a separate build: the proxy's replies are stated as the header texts `gfs_sendheader` writes, not composed with `GfServer`.
- `gfs_sendheader`'s failure path (a `send` of -1 aborting the context): the header text is modelled, the abort is not.
- GfClient.HeaderView: reads a full 8192-byte chunk with no NUL as undefined behaviour instead of guessing at what lies beyond the buffer.

## Findings

| source | as written | input that shows it | evidently intended | confidence | as-written member | corrected member |
|---|---|---|---|---|---|---|
| pr1/gflib/gfclient.c:367 | the status word is refused when its length reaches `sizeof(gfstatus_t)`, 4 on the usual ABIs | "GETFILE ERROR 0\r\n\r\n" decodes as INVALID | bound by `extractedStatus`, 16 bytes, so ERROR and FILE_NOT_FOUND are recognised | not executed | GfClient.ParseResponseHeader (lemma GfClient.StatusTokenBound) | GfClient.ParseResponseHeaderCorrected |
| pr1/gflib/gfclient.c:160-163 | `gfc_perform` returns -1 for any status but OK | a FILE_NOT_FOUND reply returns -1 | the interface (pr1/gflib/gfclient.h:86-94) promises 0 for FILE_NOT_FOUND and ERROR | not executed | GfClient.Perform (lemma GfClient.PerformFileNotFound) | GfClient.PerformCorrected |
| pr1/gflib/gfclient.c:196-201 | a `recv` of 0 ends the loop with 0 returned, and `bytesRecvd` is never compared with the announced length | "GETFILE OK 10\r\n\r\n" and then a close returns 0 with no byte written | the interface (pr1/gflib/gfclient.h:86-94) promises a negative result when the connection closes before the transfer is complete | not executed | GfClient.Perform (lemmas GfClient.PerformHeaderOnly, GfClient.PerformShortTransfer, GfClient.PerformClosedBeforeHeader) | GfClient.PerformCorrected (lemma GfClient.PerformCorrectedReceivesFile) |
| pr1/gflib/gfserver.c:56-64 | `extractPath` refuses only paths of 1024 characters or more, but its buffer holds 1000 bytes | "/" followed by 999 'a' passes validation and is returned, so its NUL is written past the buffer | refuse paths that do not fit with their NUL | not executed | GfServer.ExtractPath, GfServer.Serve (lemmas GfServer.ExtractPathOverflows, GfServer.ServeOverflows) | GfServer.ExtractPathBounded, GfServer.ServeCorrected (lemmas GfServer.ExtractPathBoundedRefuses, GfServer.ServeOverflows) |
| pr4/part2/dfslib-clientnode-p2.cpp:231-239 | the `Finish` status is logged and ignored, so `Store` returns OK | the server cannot open the file and answers CANCELLED; the client reports OK | return the reduced `Finish` code, as the part-1 client does | not executed | DfsClient.StoreP2 (lemma DfsClient.StoreIgnoresFinish) | DfsClient.StoreP2Corrected (lemma DfsClient.StoreCorrectedRoundTrip) |
| pr1/gflib/gfclient.c:343-355 | spaces are counted over the whole first chunk, file bytes included | "GETFILE OK 1\r\n\r\n" followed by the one-byte file " " decodes as INVALID | count the spaces of the header only | not executed | GfClient.ParseResponseHeader (lemma GfClient.SpaceInBodyRejected) | GfClient.ParseResponseHeaderCorrected (lemma GfClient.OkHeaderAnyBody) |
