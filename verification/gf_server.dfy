/** The server half of the GETFILE library: request validation, path
    extraction, the full-send loop and the per-connection dispatch of
    `gfserver_serve`. A request is handled as the C string the server sees
    (the characters before the first NUL). */
module GfServer {
  import opened Base
  import opened Decimal
  import opened Getfile

  /** Every valid request starts with this; it fixes the first two spaces
      at offsets 7 and 11 and the path at offset 12. */
  const RequestPrefix: string := "GETFILE GET /"

  /** `validateRequest`; `None` is the NULL pointer. */
  function ValidateRequest(request: Option<string>): (r: Status)
    ensures r == Ok || r == Invalid
    ensures request.None? ==> r == Invalid
  {
    match request
    case None => Invalid
    case Some(req) =>
      if !StartsWith(req, RequestPrefix) then Invalid
      else if FindFrom(req, CRLFCRLF, 0).None? then Invalid
      else if Count(req, ' ') != 2 then Invalid
      else
        var first := FindFrom(req, " ", 0);
        var second := if first.Some? then FindFrom(req, " ", first.value + 1) else None;
        if second.None? || second.value + 1 >= |req| || req[second.value + 1] != '/'
           || |req| - (second.value + 1) >= REQ_MAX_LEN
        then Invalid
        else Ok
  }

  /** The grammar the validator accepts, stated without its scanning steps:
      the literal prefix, a blank line somewhere, exactly two spaces, and
      fewer than 1024 characters after "GETFILE GET ". */
  predicate WellFormedRequest(req: string)
  {
    StartsWith(req, RequestPrefix) && Contains(req, CRLFCRLF) && Count(req, ' ') == 2
    && |req| - |RequestLead| < REQ_MAX_LEN
  }

  lemma PrefixSpaces(req: string)
    requires StartsWith(req, RequestPrefix)
    ensures FindFrom(req, " ", 0) == Some(7)
    ensures FindFrom(req, " ", 8) == Some(11)
    ensures req[12] == '/'
  {
    assert forall k :: 0 <= k < 13 ==> req[k] == RequestPrefix[k] by {
      forall k | 0 <= k < 13 ensures req[k] == RequestPrefix[k] {
        assert req[..13][k] == req[k];
      }
    }
    forall k | 0 <= k < 11 && k != 7 ensures !OccursAt(req, " ", k) {
      assert req[k..k + 1][0] == req[k];
    }
    assert req[7..8] == " " && req[11..12] == " ";
    FindFromIs(req, " ", 0, 7);
    FindFromIs(req, " ", 8, 11);
  }

  /** Once the prefix is known, the remaining checks are the blank line,
      the space count and the length of the tail. */
  lemma ValidateOnPrefix(req: string)
    requires StartsWith(req, RequestPrefix)
    ensures ValidateRequest(Some(req)) ==
            if FindFrom(req, CRLFCRLF, 0).None? || Count(req, ' ') != 2 || |req| - 12 >= REQ_MAX_LEN
            then Invalid else Ok
  {
    PrefixSpaces(req);
  }

  /** The validator accepts exactly the well-formed requests. */
  lemma ValidateRequestIff(req: string)
    ensures ValidateRequest(Some(req)) == Ok <==> WellFormedRequest(req)
  {
    ContainsIffFound(req, CRLFCRLF);
    if StartsWith(req, RequestPrefix) {
      ValidateOnPrefix(req);
    }
  }

  /** What `extractPath` yields: the path, NULL for a span that is too
      long, or undefined behaviour (a NULL `strchr` result dereferenced). */
  datatype Extracted = Path(path: string) | TooLong | Undefined

  /** `extractPath` with the length bound as a parameter: the text between
      the second space and the first following '\r'. */
  function ExtractPathWithin(req: string, limit: nat): (r: Extracted)
    ensures r.Path? ==> |r.path| < limit && '\r' !in r.path
  {
    var first := FindFrom(req, " ", 0);
    var second := if first.Some? then FindFrom(req, " ", first.value + 1) else None;
    if second.None? then Undefined
    else
      var start := second.value + 1;
      match FindFrom(req, "\r", start)
      case None => Undefined
      case Some(end) =>
        if end - start >= limit then TooLong
        else
          assert forall k :: start <= k < end ==> req[k] != '\r' by {
            forall k | start <= k < end ensures req[k] != '\r' {
              assert !OccursAt(req, "\r", k);
              assert req[k..k + 1][0] == req[k];
            }
          }
          Path(req[start..end])
  }

  /** `extractPath` as written: it refuses only spans of 1024 or more,
      although its static buffer holds FILE_PATH_MAX_LEN = 1000 bytes. */
  function ExtractPath(req: string): (r: Extracted)
    ensures r.Path? ==> |r.path| < REQ_MAX_LEN
  {
    ExtractPathWithin(req, REQ_MAX_LEN)
  }

  /** `extractPath` with the bound its buffer needs: a path and its NUL
      always fit in FILE_PATH_MAX_LEN bytes. */
  function ExtractPathBounded(req: string): (r: Extracted)
    ensures r.Path? ==> |r.path| + 1 <= FILE_PATH_MAX_LEN
  {
    ExtractPathWithin(req, FILE_PATH_MAX_LEN)
  }

  /** Once the prefix is known, extraction depends only on the first '\r'
      at or after offset 12. */
  lemma ExtractOnPrefix(req: string, limit: nat)
    requires StartsWith(req, RequestPrefix)
    ensures ExtractPathWithin(req, limit) ==
            match FindFrom(req, "\r", 12)
            case None => Undefined
            case Some(e) => if e - 12 >= limit then TooLong else Path(req[12..e])
  {
    PrefixSpaces(req);
  }

  /** A path the request line can carry intact. */
  predicate ServablePath(p: string)
  {
    |p| > 0 && p[0] == '/' && ' ' !in p && '\r' !in p
  }

  /** The blank line guarantees a '\r' after the prefix, so the path's end
      is found. */
  lemma PathEndExists(req: string)
    requires StartsWith(req, RequestPrefix) && Contains(req, CRLFCRLF)
    ensures FindFrom(req, "\r", 12).Some? && FindFrom(req, "\r", 12).value > 12
  {
    var i :| 0 <= i <= |req| && OccursAt(req, CRLFCRLF, i);
    assert req[i] == '\r' by { assert req[i..i + 4][0] == req[i]; }
    forall k | 0 <= k < 13 ensures req[k] != '\r' {
      assert req[..13][k] == req[k];
    }
    assert OccursAt(req, "\r", i) by { assert req[i..i + 1] == [req[i]]; }
    assert !OccursAt(req, "\r", 12) by { assert req[12..13][0] == req[12]; }
  }

  /** With exactly two spaces, both in the prefix, the rest has none. */
  lemma NoSpaceAfterPrefix(req: string, e: nat)
    requires StartsWith(req, RequestPrefix) && Count(req, ' ') == 2 && 12 <= e <= |req|
    ensures ' ' !in req[12..e]
  {
    var p := req[12..e];
    assert req == req[..12] + p + req[e..];
    assert req[..12] == RequestLead by { assert req[..13][..12] == req[..12]; }
    assert multiset(req)[' '] == multiset(req[..12])[' '] + multiset(p)[' '] + multiset(req[e..])[' '];
  }

  /** After validation, extraction is always defined and yields a servable
      path, whatever the bound. */
  lemma ValidatedExtract(req: string, limit: nat)
    requires WellFormedRequest(req)
    ensures !ExtractPathWithin(req, limit).Undefined?
    ensures ExtractPathWithin(req, limit).Path? ==> ServablePath(ExtractPathWithin(req, limit).path)
  {
    ExtractOnPrefix(req, limit);
    PathEndExists(req);
    var e := FindFrom(req, "\r", 12).value;
    NoSpaceAfterPrefix(req, e);
    assert req[12..e][0] == req[12] == '/' by { assert req[..13][12] == req[12]; }
  }

  /** Round trip with the client's request line: a servable path is
      accepted exactly when the request's tail fits the 1024 bound, and is
      extracted unchanged whenever it fits the extraction bound. */
  lemma {:induction false} RequestRoundTrip(p: string, limit: nat)
    requires ServablePath(p)
    ensures ValidateRequest(Some(RequestText(p))) == (if |p| + 4 < REQ_MAX_LEN then Ok else Invalid)
    ensures ExtractPathWithin(RequestText(p), limit) == (if |p| < limit then Path(p) else TooLong)
  {
    var req := RequestText(p);
    RequestTextScan(p);
    ValidateOnPrefix(req);
    ExtractOnPrefix(req, limit);
  }

  /** Where the scans of `validateRequest` and `extractPath` stop on a
      request line built from a servable path. */
  lemma RequestTextScan(p: string)
    requires ServablePath(p)
    ensures StartsWith(RequestText(p), RequestPrefix)
    ensures FindFrom(RequestText(p), CRLFCRLF, 0).Some?
    ensures Count(RequestText(p), ' ') == 2
    ensures FindFrom(RequestText(p), "\r", 12) == Some(12 + |p|)
  {
    var req := RequestText(p);
    assert req[..13] == RequestLead + [p[0]];
    assert OccursAt(req, CRLFCRLF, 12 + |p|);
    ContainsIffFound(req, CRLFCRLF);
    RequestTextSpaces(p);
    RequestTextPathEnd(p);
  }

  /** The only spaces of a request line are the two of its lead. */
  lemma RequestTextSpaces(p: string)
    requires ' ' !in p
    ensures Count(RequestText(p), ' ') == 2
  {
    var req := RequestText(p);
    assert req == RequestLead + p + CRLFCRLF;
    assert multiset(req) == multiset(RequestLead) + multiset(p) + multiset(CRLFCRLF);
    assert multiset(RequestLead)[' '] == 2;
    assert multiset(p)[' '] == 0;
  }

  /** A path without CR ends at the request line's blank line. */
  lemma RequestTextPathEnd(p: string)
    requires '\r' !in p
    ensures FindFrom(RequestText(p), "\r", 12) == Some(12 + |p|)
  {
    var req := RequestText(p);
    forall k | 12 <= k < 12 + |p| ensures !OccursAt(req, "\r", k) {
      assert req[k..k + 1][0] == req[k] == p[k - 12];
    }
    assert OccursAt(req, "\r", 12 + |p|);
    FindFromIs(req, "\r", 12, 12 + |p|);
  }

  /** The shortest path that overflows: a 1000-character servable path
      passes validation and is returned by the 1024 check, so `strncpy` fills all 1000 bytes of `extractedPath` and
      the terminating NUL lands one past its end. */
  lemma ExtractPathOverflows()
    ensures var p := "/" + Repeat('a', FILE_PATH_MAX_LEN - 1);
            ValidateRequest(Some(RequestText(p))) == Ok
            && ExtractPath(RequestText(p)) == Path(p)
            && |p| >= FILE_PATH_MAX_LEN
  {
    var p := "/" + Repeat('a', FILE_PATH_MAX_LEN - 1);
    assert ' ' !in p && '\r' !in p by {
      forall k | 0 <= k < |p| ensures p[k] != ' ' && p[k] != '\r' {
        if k > 0 { assert p[k] == Repeat('a', FILE_PATH_MAX_LEN - 1)[k - 1]; }
      }
    }
    RequestRoundTrip(p, REQ_MAX_LEN);
  }

  /** The same request under the corrected bound is refused rather than
      overflowing; every path it does return fits the buffer. */
  lemma ExtractPathBoundedRefuses()
    ensures var p := "/" + Repeat('a', FILE_PATH_MAX_LEN - 1);
            ExtractPathBounded(RequestText(p)) == TooLong
  {
    var p := "/" + Repeat('a', FILE_PATH_MAX_LEN - 1);
    assert ' ' !in p && '\r' !in p by {
      forall k | 0 <= k < |p| ensures p[k] != ' ' && p[k] != '\r' {
        if k > 0 { assert p[k] == Repeat('a', FILE_PATH_MAX_LEN - 1)[k - 1]; }
      }
    }
    RequestRoundTrip(p, FILE_PATH_MAX_LEN);
  }

  // ----- gfs_send -----

  /** A sequence of `send` results that lets `gfs_send` of `remaining`
      bytes run to its end: each result is -1, 0, or a count of at most
      what is still unsent. */
  predicate SendTrace(remaining: nat, rs: seq<int>)
    decreases |rs|
  {
    remaining == 0
    || (|rs| > 0 && (rs[0] == -1 || rs[0] == 0
                     || (0 < rs[0] <= remaining && SendTrace(remaining - rs[0], rs[1..]))))
  }

  /** The trace reaches a -1 or a 0 before everything is sent. */
  predicate SendFails(remaining: nat, rs: seq<int>)
    decreases |rs|
  {
    remaining > 0 && |rs| > 0
    && (rs[0] == -1 || rs[0] == 0 || (0 < rs[0] <= remaining && SendFails(remaining - rs[0], rs[1..])))
  }

  /** `gfs_send`: repeated `send` until all of `data` is written. `rs` are
      the results the successive `send` calls return; `before` is the
      context's `bytesSent` counter on entry, `after` its value on exit. */
  method Send<T>(data: seq<T>, before: nat, rs: seq<int>) returns (ret: int, after: nat, wire: seq<T>)
    requires SendTrace(|data|, rs)
    ensures ret == -1 <==> SendFails(|data|, rs)
    ensures ret != -1 ==> ret == |data| && wire == data
    ensures wire <= data && after == before + |wire|
  {
    var sent := 0;
    var i := 0;
    wire := [];
    after := before;
    while sent < |data|
      invariant 0 <= sent <= |data| && 0 <= i <= |rs|
      invariant wire == data[..sent] && after == before + sent
      invariant SendTrace(|data| - sent, rs[i..])
      invariant SendFails(|data|, rs) <==> SendFails(|data| - sent, rs[i..])
      decreases |data| - sent
    {
      var b := rs[i];
      if b == -1 || b == 0 {
        return -1, after, wire;
      }
      assert rs[i..][1..] == rs[i + 1..];
      wire := wire + data[sent..sent + b];
      assert wire == data[..sent + b];
      sent := sent + b;
      after := after + b;
      i := i + 1;
    }
    assert wire == data;
    ret := sent;
  }

  // ----- gfserver_serve, one connection -----

  /** What `recv` returned on an accepted connection. */
  datatype RecvResult = RecvFailed | PeerClosed | Received(bytes: string)

  /** What the server does with the connection: close it, answer it with a
      header, pass the extracted path (NULL as `None`) to the handler, or
      copy a path of FILE_PATH_MAX_LEN characters or more into the static
      `extractedPath`, which runs past its end: undefined behaviour, so
      nothing is modelled after it. */
  datatype Dispatch = Dropped | Rejected(header: string) | Handled(path: Option<string>) | Overflowed(copied: string)

  /** The request as the validator sees it: NUL-terminated after the bytes
      read, or at the last byte when the 1024-byte buffer is full. */
  function RequestView(bytes: string): (r: string)
    requires |bytes| <= REQ_MAX_LEN
    ensures NUL !in r && |r| < REQ_MAX_LEN
    ensures |bytes| < REQ_MAX_LEN && NUL !in bytes ==> r == bytes
  {
    if |bytes| < REQ_MAX_LEN then
      assert NUL !in bytes ==> CString(bytes) == bytes by {
        if NUL !in bytes { CStringOfNulFree(bytes); }
      }
      CString(bytes)
    else CString(bytes[..REQ_MAX_LEN - 1])
  }

  /** One iteration of the accept loop, from the `recv` result to the
      handler call. `corrected` selects the path bound: the 1024 of
      `extractPath` as written, or the buffer's 1000. */
  function ServeWith(corrected: bool, recv: RecvResult): (r: Dispatch)
    requires recv.Received? ==> 0 < |recv.bytes| <= REQ_MAX_LEN
    ensures r.Rejected? ==> r.header == Scheme + " INVALID" + CRLFCRLF
    ensures r.Handled? && r.path.Some? ==> ServablePath(r.path.value) && |r.path.value| < FILE_PATH_MAX_LEN
    ensures r.Overflowed? ==> !corrected && ServablePath(r.copied) && FILE_PATH_MAX_LEN <= |r.copied| < REQ_MAX_LEN
    ensures !recv.Received? ==> r == Dropped
  {
    match recv
    case RecvFailed => Dropped
    case PeerClosed => Dropped
    case Received(bytes) =>
      var req := RequestView(bytes);
      var valid := ValidateRequest(Some(req));
      if valid != Ok then Rejected(HeaderText(Code(valid), 0))
      else
        var limit := if corrected then FILE_PATH_MAX_LEN else REQ_MAX_LEN;
        ValidateRequestIff(req);
        ValidatedExtract(req, limit);
        match ExtractPathWithin(req, limit)
        case Path(p) => if |p| >= FILE_PATH_MAX_LEN then Overflowed(p) else Handled(Some(p))
        case _ => Handled(None)
  }

  /** `gfserver_serve` as written, through `extractPath`'s 1024 check. */
  function Serve(recv: RecvResult): (r: Dispatch)
    requires recv.Received? ==> 0 < |recv.bytes| <= REQ_MAX_LEN
    ensures r.Handled? && r.path.Some? ==> ServablePath(r.path.value) && |r.path.value| < FILE_PATH_MAX_LEN
    ensures r.Overflowed? ==> ServablePath(r.copied) && FILE_PATH_MAX_LEN <= |r.copied| < REQ_MAX_LEN
    ensures !recv.Received? ==> r == Dropped
  {
    ServeWith(false, recv)
  }

  /** `gfserver_serve` with the buffer-safe bound: it never overflows. */
  function ServeCorrected(recv: RecvResult): (r: Dispatch)
    requires recv.Received? ==> 0 < |recv.bytes| <= REQ_MAX_LEN
    ensures !r.Overflowed?
    ensures r.Handled? && r.path.Some? ==> ServablePath(r.path.value) && |r.path.value| < FILE_PATH_MAX_LEN
    ensures !recv.Received? ==> r == Dropped
  {
    ServeWith(true, recv)
  }

  /** A request the server validates is dispatched (or, as written, may
      overflow the path buffer); one it rejects gets the INVALID header. */
  lemma ServeDispatchesValid(bytes: string)
    requires 0 < |bytes| <= REQ_MAX_LEN
    ensures Serve(Received(bytes)).Handled? || Serve(Received(bytes)).Overflowed?
            <==> WellFormedRequest(RequestView(bytes))
    ensures ServeCorrected(Received(bytes)).Handled? <==> WellFormedRequest(RequestView(bytes))
  {
    ValidateRequestIff(RequestView(bytes));
  }

  lemma RequestViewOfText(p: string)
    requires NUL !in p && |p| + 16 < REQ_MAX_LEN
    ensures RequestView(RequestText(p)) == RequestText(p)
  {
    var req := RequestText(p);
    assert req == RequestLead + p + CRLFCRLF;
    assert NUL !in req;
  }

  /** End to end: a servable path of fewer than 1000 characters, sent as
      the client's request line, reaches the handler unchanged under
      either bound. */
  lemma ServeRoundTrip(p: string)
    requires ServablePath(p) && NUL !in p && |p| < FILE_PATH_MAX_LEN
    ensures Serve(Received(RequestText(p))) == Handled(Some(p))
    ensures ServeCorrected(Received(RequestText(p))) == Handled(Some(p))
  {
    var req := RequestText(p);
    RequestViewOfText(p);
    RequestRoundTrip(p, FILE_PATH_MAX_LEN);
    RequestRoundTrip(p, REQ_MAX_LEN);
    ServeAccepted(false, req, p);
    ServeAccepted(true, req, p);
  }

  lemma ServeAccepted(corrected: bool, bytes: string, p: string)
    requires 0 < |bytes| <= REQ_MAX_LEN
    requires ValidateRequest(Some(RequestView(bytes))) == Ok
    requires ExtractPathWithin(RequestView(bytes), if corrected then FILE_PATH_MAX_LEN else REQ_MAX_LEN) == Path(p)
    requires |p| < FILE_PATH_MAX_LEN
    ensures ServeWith(corrected, Received(bytes)) == Handled(Some(p))
  {
  }

  /** A validated request whose path extracts at 1000 characters or more
      overflows the path buffer as written. */
  lemma ServeOverflowed(bytes: string, p: string)
    requires 0 < |bytes| <= REQ_MAX_LEN
    requires ValidateRequest(Some(RequestView(bytes))) == Ok
    requires ExtractPath(RequestView(bytes)) == Path(p) && |p| >= FILE_PATH_MAX_LEN
    ensures Serve(Received(bytes)) == Overflowed(p)
  {
  }

  /** A validated request whose path is too long for the buffer hands NULL
      to the handler under the corrected bound. */
  lemma ServeRefused(bytes: string)
    requires 0 < |bytes| <= REQ_MAX_LEN
    requires ValidateRequest(Some(RequestView(bytes))) == Ok
    requires ExtractPathBounded(RequestView(bytes)) == TooLong
    ensures ServeCorrected(Received(bytes)) == Handled(None)
  {
  }

  /** Every servable request line whose path has 1000 characters or more
      (and still fits the request buffer) overflows as written, and hands
      NULL to the handler under the corrected bound. */
  lemma ServeOverflowsAt(p: string)
    requires ServablePath(p) && NUL !in p && FILE_PATH_MAX_LEN <= |p| && |p| + 16 < REQ_MAX_LEN
    ensures Serve(Received(RequestText(p))) == Overflowed(p)
    ensures ServeCorrected(Received(RequestText(p))) == Handled(None)
  {
    var req := RequestText(p);
    RequestViewOfText(p);
    RequestRoundTrip(p, REQ_MAX_LEN);
    RequestRoundTrip(p, FILE_PATH_MAX_LEN);
    ServeOverflowed(req, p);
    ServeRefused(req);
  }

  /** The shortest such path, 1000 characters. */
  lemma ServeOverflows()
    ensures var p := "/" + Repeat('a', FILE_PATH_MAX_LEN - 1);
            Serve(Received(RequestText(p))) == Overflowed(p)
            && ServeCorrected(Received(RequestText(p))) == Handled(None)
  {
    var p := "/" + Repeat('a', FILE_PATH_MAX_LEN - 1);
    assert ServablePath(p) && NUL !in p by {
      forall k | 0 <= k < |p| ensures p[k] != NUL && p[k] != ' ' && p[k] != '\r' {
        if k > 0 { assert p[k] == Repeat('a', FILE_PATH_MAX_LEN - 1)[k - 1]; }
      }
    }
    ServeOverflowsAt(p);
  }

  /** The header sent after the handler returns `result`: nothing for 0
      (GF_OK), otherwise `gfs_sendheader(result, 0)`, which writes nothing
      for a value outside the enumeration. */
  function HandlerEpilogue(result: int): (r: string)
    ensures result == 0 ==> r == ""
    ensures FromCode(result).Some? && result != 0 ==>
              r == Scheme + " " + Token(FromCode(result).value) + CRLFCRLF
  {
    if result != 0 then HeaderText(result, 0) else ""
  }
}
