/** The GETFILE-to-HTTP proxy handlers: `handle_with_curl` (and
    `handle_with_file`, which forwards to it) and the cache-aware
    `handle_with_cache`, with their growable receive buffer, the URL they
    fetch and the names of the cache handler's private reply queues.
    libcurl, the message queues and shared memory are inputs: whether each
    call succeeds, the HTTP code, and the body pieces the server delivers. */
module Proxy {
  import opened Base
  import opened Decimal
  import opened Getfile

  const INT_MAX: nat := 0x7FFF_FFFF

  // ----- HTTP code to GETFILE status -----

  /** The client-error class of section 15.5 of RFC 9110. */
  predicate ClientError(code: int) { 400 <= code <= 499 }

  /** The server-error class of section 15.6 of RFC 9110. */
  predicate ServerError(code: int) { 500 <= code <= 599 }

  /** `handle_with_curl`'s reading of the response code: 404 is a missing
      file, any other code from 400 up an error, anything below 400 a
      success. */
  function CurlStatus(code: int): (s: Status)
    ensures s != Invalid
    ensures s == FileNotFound <==> code == 404
    ensures s == Ok <==> code < 400
  {
    if code == 404 then FileNotFound
    else if code >= 400 then Error
    else Ok
  }

  /** The cache handler's reading on a miss: 403 is treated like 404. */
  function CacheMissStatus(code: int): (s: Status)
    ensures s != Invalid
    ensures s == FileNotFound <==> code == 404 || code == 403
    ensures s == Ok <==> code < 400
  {
    if code == 404 || code == 403 then FileNotFound
    else if code >= 400 then Error
    else Ok
  }

  /** The two handlers disagree on exactly one code, 403. */
  lemma MappingsDifferOnlyOn403(code: int)
    ensures CurlStatus(code) != CacheMissStatus(code) <==> code == 403
    ensures code == 403 ==> CurlStatus(code) == Error && CacheMissStatus(code) == FileNotFound
  {
  }

  /** Every client or server error of RFC 9110 is relayed as a failure,
      never as OK; every server error, and every client error but the
      not-found ones, as ERROR. */
  lemma ErrorClassesRelayed(code: int)
    requires ClientError(code) || ServerError(code)
    ensures CurlStatus(code) != Ok && CacheMissStatus(code) != Ok
    ensures ServerError(code) ==> CurlStatus(code) == Error && CacheMissStatus(code) == Error
    ensures ClientError(code) && code != 404 ==> CurlStatus(code) == Error
    ensures ClientError(code) && code != 404 && code != 403 ==> CacheMissStatus(code) == Error
  {
  }

  // ----- write_callback -----

  /** `BuffStruct`: the heap buffer (NULL as `None`) and the count of bytes
      received so far. */
  datatype BuffStruct = BuffStruct(data: Option<string>, size: nat)

  /** The initial `{NULL, 0}`. */
  const EmptyBuff: BuffStruct := BuffStruct(None, 0)

  /** A NULL buffer holds nothing; an allocated one holds `size` bytes and
      a NUL after them. */
  predicate BuffValid(b: BuffStruct)
  {
    match b.data
    case None => b.size == 0
    case Some(d) => |d| == b.size + 1 && d[b.size] == NUL
  }

  /** The bytes received so far. */
  function Received(b: BuffStruct): (r: string)
    requires BuffValid(b)
    ensures |r| == b.size
  {
    match b.data
    case None => []
    case Some(d) => d[..b.size]
  }

  datatype Appended = Appended(written: nat, buff: BuffStruct)

  /** `write_callback` handed the `size * nmemb` bytes `piece`; `reallocOk`
      says whether the `realloc` succeeds. Both handlers' copies of the
      callback are this one function. */
  function WriteCallback(b: BuffStruct, piece: string, reallocOk: bool): (r: Appended)
    requires BuffValid(b)
    ensures BuffValid(r.buff)
    ensures !reallocOk ==> r == Appended(0, b)
    ensures reallocOk ==> r.written == |piece| && r.buff.size == b.size + |piece|
                          && Received(r.buff) == Received(b) + piece
  {
    if !reallocOk then Appended(0, b)
    else
      var data := Received(b) + piece + [NUL];
      assert data[..b.size + |piece|] == Received(b) + piece;
      Appended(|piece|, BuffStruct(Some(data), b.size + |piece|))
  }

  /** libcurl hands the body to the callback piece by piece and aborts the
      transfer with a write error as soon as the callback returns a count
      other than the piece's length. `reallocOk[i]` is the `realloc`
      result for piece `i`. */
  datatype Collected = Collected(buff: BuffStruct, aborted: bool)

  function Collect(b: BuffStruct, pieces: seq<string>, reallocOk: seq<bool>): (r: Collected)
    requires BuffValid(b) && |reallocOk| == |pieces|
    ensures BuffValid(r.buff)
    decreases |pieces|
  {
    if |pieces| == 0 then Collected(b, false)
    else
      var a := WriteCallback(b, pieces[0], reallocOk[0]);
      if a.written != |pieces[0]| then Collected(a.buff, true)
      else Collect(a.buff, pieces[1..], reallocOk[1..])
  }

  /** How many pieces the callback appends before the first one whose
      `realloc` fails. A failure on an empty piece goes unnoticed, since
      the callback returns 0 for it either way. */
  function Kept(pieces: seq<string>, reallocOk: seq<bool>): (k: nat)
    requires |reallocOk| == |pieces|
    ensures k <= |pieces|
    ensures forall i :: 0 <= i < k ==> reallocOk[i] || |pieces[i]| == 0
    ensures k < |pieces| ==> !reallocOk[k] && |pieces[k]| > 0
    decreases |pieces|
  {
    if |pieces| == 0 then 0
    else if !reallocOk[0] && |pieces[0]| > 0 then 0
    else 1 + Kept(pieces[1..], reallocOk[1..])
  }

  /** A transfer ends holding exactly the pieces before the first failed
      append, in order, and is aborted exactly when there is such a
      failure. */
  lemma {:induction false} CollectReassembles(b: BuffStruct, pieces: seq<string>, reallocOk: seq<bool>)
    requires BuffValid(b) && |reallocOk| == |pieces|
    ensures Collect(b, pieces, reallocOk).aborted <==> Kept(pieces, reallocOk) < |pieces|
    ensures Received(Collect(b, pieces, reallocOk).buff) == Received(b) + Flatten(pieces[..Kept(pieces, reallocOk)])
    decreases |pieces|
  {
    if |pieces| == 0 {
      assert pieces[..0] == [];
    } else if !reallocOk[0] && |pieces[0]| > 0 {
      assert pieces[..0] == [];
    } else {
      var a := WriteCallback(b, pieces[0], reallocOk[0]);
      assert Received(a.buff) == Received(b) + pieces[0];
      CollectReassembles(a.buff, pieces[1..], reallocOk[1..]);
      var m := Kept(pieces[1..], reallocOk[1..]);
      FlattenStep(pieces, m);
    }
  }

  lemma FlattenStep<T>(pieces: seq<seq<T>>, m: nat)
    requires m < |pieces|
    ensures Flatten(pieces[..m + 1]) == pieces[0] + Flatten(pieces[1..][..m])
  {
    var pre := pieces[..m + 1];
    assert pre[0] == pieces[0] && pre[1..] == pieces[1..][..m];
  }

  // ----- get_full_url -----

  /** What `snprintf(buf, cap, "%s", text)` leaves before the terminating
      NUL: `text`, cut to the `cap - 1` characters that fit. */
  function Snprintf(cap: nat, text: string): (r: string)
    requires cap >= 1
    ensures r <= text && |r| < cap
    ensures |text| < cap ==> r == text
  {
    if |text| < cap then text else text[..cap - 1]
  }

  /** The server every `handle_with_curl` request goes to. */
  const CurlBase: string := "https://raw.githubusercontent.com/gt-cs6200/image_data"

  /** `get_full_url`: `server` followed by `path` in a buffer of
      `strlen(server) + strlen(path) + 1` bytes; `None` when `malloc`
      fails. The two handlers differ only in where `server` comes from. */
  function FullUrl(server: string, path: string, mallocOk: bool): (r: Option<string>)
    ensures r.Some? <==> mallocOk
    ensures r.Some? ==> r.value == server + path
  {
    if !mallocOk then None
    else Some(Snprintf(|server| + |path| + 1, server + path))
  }

  /** A buffer of exactly the needed size never cuts the URL, and one byte
      less would drop its last character. */
  lemma FullUrlExact(server: string, path: string)
    requires |server| + |path| > 0
    ensures Snprintf(|server| + |path| + 1, server + path) == server + path
    ensures Snprintf(|server| + |path|, server + path) == (server + path)[..|server| + |path| - 1]
  {
  }

  // ----- the handlers -----

  /** What the handler sends on the connection (`header` via
      `gfs_sendheader`, empty when it sends none; `body` via `gfs_send`) and
      what it returns. */
  datatype Reply = Reply(header: string, body: string, result: int)

  /** The common tail of both curl paths: a failed transfer is an ERROR,
      otherwise the mapped status; only OK sends the buffer, preceded by
      its length. */
  function Relay(transferOk: bool, status: Status, body: string): (r: Reply)
    ensures !transferOk ==> r == Reply(HeaderText(Code(Error), 0), "", -1)
    ensures transferOk && status != Ok ==> r == Reply(HeaderText(Code(status), 0), "", -1)
    ensures transferOk && status == Ok ==> r == Reply(HeaderText(Code(Ok), |body|), body, |body|)
  {
    if !transferOk then Reply(HeaderText(Code(Error), 0), "", -1)
    else if status != Ok then Reply(HeaderText(Code(status), 0), "", -1)
    else Reply(HeaderText(Code(Ok), |body|), body, |body|)
  }

  /** The environment of one fetch: `curl_easy_init`, the URL `malloc`,
      whether the network transfer itself succeeds, the response code, and
      the body pieces with their `realloc` results. */
  datatype FetchIo = FetchIo(initOk: bool, urlOk: bool, networkOk: bool, httpCode: int,
                             pieces: seq<string>, reallocOk: seq<bool>)

  predicate FetchIoValid(io: FetchIo) { |io.reallocOk| == |io.pieces| }

  /** The body and whether `curl_easy_perform` returned `CURLE_OK`. */
  function Transfer(io: FetchIo): (r: Collected)
    requires FetchIoValid(io)
    ensures BuffValid(r.buff)
  {
    var c := Collect(EmptyBuff, io.pieces, io.reallocOk);
    c.(aborted := c.aborted || !io.networkOk)
  }

  /** A handler body shared by `handle_with_curl` and the miss path of
      `handle_with_cache`, given the code mapping each applies. */
  function FetchWith(server: string, path: string, io: FetchIo, mapping: int -> Status): (r: Reply)
    requires FetchIoValid(io)
  {
    if !io.initOk then Reply("", "", -1)
    else if FullUrl(server, path, io.urlOk).None? then Reply("", "", -1)
    else
      var t := Transfer(io);
      Relay(!t.aborted, mapping(io.httpCode), Received(t.buff))
  }

  /** `handle_with_curl`. A setup failure returns -1 with no header; a
      failed transfer sends ERROR; 404 sends FILE_NOT_FOUND; any other code
      from 400 up sends ERROR; otherwise the whole body goes out after an
      OK header carrying its length, and the length is returned. */
  function HandleWithCurl(path: string, io: FetchIo): (r: Reply)
    requires FetchIoValid(io)
    ensures !io.initOk || !io.urlOk ==> r == Reply("", "", -1)
    ensures r.result == -1 || r.result >= 0
    ensures r.result >= 0 <==> io.initOk && io.urlOk && !Transfer(io).aborted && io.httpCode < 400
    ensures r.result >= 0 ==> r.body == Received(Transfer(io).buff) && r.result == |r.body|
                              && r.header == HeaderText(Code(Ok), r.result)
    ensures io.initOk && io.urlOk && !Transfer(io).aborted && io.httpCode == 404 ==>
              r == Reply(HeaderText(Code(FileNotFound), 0), "", -1)
    ensures io.initOk && io.urlOk && (Transfer(io).aborted || (io.httpCode >= 400 && io.httpCode != 404)) ==>
              r == Reply(HeaderText(Code(Error), 0), "", -1)
  {
    FetchWith(CurlBase, path, io, CurlStatus)
  }

  /** `handle_with_file` only forwards to `handle_with_curl`. */
  function HandleWithFile(path: string, io: FetchIo): (r: Reply)
    requires FetchIoValid(io)
    ensures !io.initOk || !io.urlOk ==> r == Reply("", "", -1)
    ensures r.result >= 0 <==> io.initOk && io.urlOk && !Transfer(io).aborted && io.httpCode < 400
    ensures r.result >= 0 ==> r.body == Received(Transfer(io).buff) && r.result == |r.body|
                              && r.header == HeaderText(Code(Ok), r.result)
    ensures io.initOk && io.urlOk && !Transfer(io).aborted && io.httpCode == 404 ==>
              r == Reply(HeaderText(Code(FileNotFound), 0), "", -1)
  {
    HandleWithCurl(path, io)
  }

  lemma HandleWithFileIsCurl(path: string, io: FetchIo)
    requires FetchIoValid(io)
    ensures HandleWithFile(path, io) == HandleWithCurl(path, io)
  {
  }

  /** The miss path of `handle_with_cache`, fetching from `server`. The
      same outcomes as `handle_with_curl`, except that 403 joins 404 as
      FILE_NOT_FOUND. */
  function CacheMiss(server: string, path: string, io: FetchIo): (r: Reply)
    requires FetchIoValid(io)
    ensures !io.initOk || !io.urlOk ==> r == Reply("", "", -1)
    ensures r.result >= 0 <==> io.initOk && io.urlOk && !Transfer(io).aborted && io.httpCode < 400
    ensures r.result >= 0 ==> r.body == Received(Transfer(io).buff) && r.result == |r.body|
                              && r.header == HeaderText(Code(Ok), r.result)
    ensures io.initOk && io.urlOk && !Transfer(io).aborted && (io.httpCode == 404 || io.httpCode == 403) ==>
              r == Reply(HeaderText(Code(FileNotFound), 0), "", -1)
    ensures io.initOk && io.urlOk && (Transfer(io).aborted
                                      || (io.httpCode >= 400 && io.httpCode != 404 && io.httpCode != 403)) ==>
              r == Reply(HeaderText(Code(Error), 0), "", -1)
  {
    FetchWith(server, path, io, CacheMissStatus)
  }

  /** A successful fetch relays exactly the bytes the server sent, and
      its header announces exactly their number. */
  lemma FetchRelaysBody(path: string, io: FetchIo)
    requires FetchIoValid(io)
    requires io.initOk && io.urlOk && io.networkOk && io.httpCode < 400
    requires forall i :: 0 <= i < |io.reallocOk| ==> io.reallocOk[i]
    ensures HandleWithCurl(path, io) == Reply(HeaderText(Code(Ok), |Flatten(io.pieces)|), Flatten(io.pieces),
                                              |Flatten(io.pieces)|)
  {
    CollectReassembles(EmptyBuff, io.pieces, io.reallocOk);
    var k := Kept(io.pieces, io.reallocOk);
    assert k == |io.pieces|;
    assert io.pieces[..k] == io.pieces;
  }

  /** On the same inputs the two handlers give the same reply, except
      when the server answers 403. */
  lemma HandlersAgreeExcept403(path: string, io: FetchIo)
    requires FetchIoValid(io)
    ensures io.httpCode != 403 ==> CacheMiss(CurlBase, path, io) == HandleWithCurl(path, io)
    ensures io.initOk && io.urlOk && !Transfer(io).aborted && io.httpCode == 403 ==>
              HandleWithCurl(path, io).header == HeaderText(Code(Error), 0)
              && CacheMiss(CurlBase, path, io).header == HeaderText(Code(FileNotFound), 0)
  {
    MappingsDifferOnlyOn403(io.httpCode);
  }

  // ----- private reply queues -----

  /** The queue-name template before its `%d`. */
  const QueuePrefix: string := "/mq_private_rortiz_"
  /** `q_name_size`. */
  const QUEUE_NAME_SIZE: nat := 64

  /** `atomic_int`: the counter's value before the increment, and the
      counter after it. */
  function AtomicInt(counter: nat): (r: (nat, nat))
    ensures r.0 == counter && r.1 == counter + 1
  {
    (counter, counter + 1)
  }

  /** `snprintf(q_name, 64, "/mq_private_rortiz_%d", n)`. */
  function QueueName(n: nat): (r: string)
    requires n <= INT_MAX
    ensures r == QueuePrefix + Format(n)
  {
    FormatLengthBelow(n, 10);
    Snprintf(QUEUE_NAME_SIZE, QueuePrefix + Format(n))
  }

  /** Distinct counter values name distinct queues. */
  lemma QueueNamesDistinct(a: nat, b: nat)
    requires a <= INT_MAX && b <= INT_MAX && a != b
    ensures QueueName(a) != QueueName(b)
  {
    FormatInjective(a, b);
    assert QueueName(a)[|QueuePrefix|..] == Format(a);
    assert QueueName(b)[|QueuePrefix|..] == Format(b);
  }

  /** The names `create_private_queue` produces for `k` handler calls in
      turn, starting from the counter's initial 0. */
  method IssueNames(k: nat) returns (names: seq<string>)
    requires k <= INT_MAX + 1
    ensures |names| == k
    ensures forall i :: 0 <= i < k ==> names[i] == QueuePrefix + Format(i)
    ensures forall i, j :: 0 <= i < j < k ==> names[i] != names[j]
  {
    var counter := 0;
    names := [];
    while counter < k
      invariant counter <= k && |names| == counter
      invariant forall i :: 0 <= i < counter ==> names[i] == QueueName(i)
      invariant forall i, j :: 0 <= i < j < counter ==> names[i] != names[j]
    {
      var r := AtomicInt(counter);
      var name := QueueName(r.0);
      forall i | 0 <= i < counter ensures names[i] != name {
        QueueNamesDistinct(i, counter);
      }
      names := names + [name];
      counter := r.1;
    }
  }

  // ----- the hit path -----

  /** One turn of the hit loop: whether `sem_wait` succeeds, the chunk size
      the cache daemon left in shared memory, whether `gfs_send` of it
      succeeds, and the daemon's `is_done` and `total_size` fields as the
      proxy then reads them. */
  datatype Round = Round(semOk: bool, chunkSize: nat, sendOk: bool, isDone: bool, totalSize: nat)

  datatype HitOutcome = HitFailed | HitDone(total: nat) | Waiting

  /** The bytes the first `k` rounds send: each round sends its whole
      chunk, and a round with no chunk sends nothing. */
  function SentBy(rounds: seq<Round>, k: nat): nat
    requires k <= |rounds|
  {
    if k == 0 then 0 else SentBy(rounds, k - 1) + rounds[k - 1].chunkSize
  }

  /** A round that ends the loop with `sent` bytes sent by its end. */
  predicate Ends(r: Round, sent: nat) { r.isDone && sent >= r.totalSize }

  /** The round runs to its end without a failure. */
  predicate RoundOk(r: Round) { r.semOk && (r.chunkSize > 0 ==> r.sendOk) }

  /** Round `i` neither fails nor ends the loop. */
  predicate PassesOn(rounds: seq<Round>, i: nat)
    requires i < |rounds|
  {
    RoundOk(rounds[i]) && !Ends(rounds[i], SentBy(rounds, i + 1))
  }

  /** The `while (1)` loop of a cache hit over the rounds it gets to run;
      `Waiting` means the given rounds ran out before it stopped. `k` is
      the number of rounds it used; the result of a finished loop is the
      number of bytes sent. */
  method HitLoop(rounds: seq<Round>) returns (outcome: HitOutcome, k: nat)
    ensures k <= |rounds|
    ensures forall i :: 0 <= i < k - 1 ==> PassesOn(rounds, i)
    ensures outcome.HitDone? ==> k > 0 && RoundOk(rounds[k - 1]) && outcome.total == SentBy(rounds, k)
                                 && Ends(rounds[k - 1], outcome.total)
    ensures outcome.HitFailed? ==> k > 0 && !RoundOk(rounds[k - 1])
    ensures outcome.Waiting? ==> k == |rounds| && forall i :: 0 <= i < k ==> PassesOn(rounds, i)
  {
    var total := 0;
    k := 0;
    while k < |rounds|
      invariant k <= |rounds|
      invariant total == SentBy(rounds, k)
      invariant forall i :: 0 <= i < k ==> PassesOn(rounds, i)
    {
      var r := rounds[k];
      if !r.semOk {
        return HitFailed, k + 1;
      }
      if r.chunkSize > 0 {
        if !r.sendOk {
          return HitFailed, k + 1;
        }
        total := total + r.chunkSize;
      }
      if r.isDone && total >= r.totalSize {
        return HitDone(total), k + 1;
      }
      k := k + 1;
    }
    outcome := Waiting;
  }
}
