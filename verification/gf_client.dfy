/** The client half of the GETFILE library: the request line, the response
    header parser and the header/body split of `gfc_perform`. Socket calls
    are inputs: whether the request `send` succeeded, the sequence of
    chunks `recv` returned, and how the receive loop ended. */
module GfClient {
  import opened Base
  import opened Decimal
  import opened Getfile
  import GfServer

  /** glibc's BUFSIZ: the request buffer and the response buffer. */
  const BUFSIZ: nat := 8192
  /** `sizeof(gfstatus_t)`: an enumeration occupies an `int`. */
  const STATUS_SIZE: nat := 4
  /** `extractedStatus[16]` and `extractedFileLen[32]`. */
  const STATUS_BUFFER: nat := 16
  const LENGTH_BUFFER: nat := 32

  /** `snprintf(request, BUFSIZ, "GETFILE GET %s\r\n\r\n", path)`: the
      request text, cut to the BUFSIZ - 1 characters the buffer holds. */
  function RequestLine(path: string): (r: string)
    ensures |r| < BUFSIZ && r <= RequestText(path)
    ensures |path| + 16 < BUFSIZ ==> r == RequestText(path)
  {
    var t := RequestText(path);
    if |t| < BUFSIZ then t else t[..BUFSIZ - 1]
  }

  /** Client and server agree on the request line: every servable path
      shorter than the server's path buffer reaches the handler unchanged. */
  lemma RequestLineServed(p: string)
    requires GfServer.ServablePath(p) && NUL !in p && |p| < FILE_PATH_MAX_LEN
    ensures GfServer.Serve(GfServer.Received(RequestLine(p))) == GfServer.Handled(Some(p))
  {
    GfServer.ServeRoundTrip(p);
  }

  /** The outcome of `parseResponseHeader`: the status and file length it
      stores, or undefined behaviour (a NULL `strchr` result used in
      pointer arithmetic, or a write past `extractedFileLen`). */
  datatype Header = Header(status: Status, fileLen: nat) | HeaderUndefined

  /** `parseResponseHeader` on the C string `view`, with the status-token
      bound as a parameter; `fileLen` keeps its initial 0 unless the status
      is OK. */
  function ParseHeaderWith(view: string, limit: nat): (r: Header)
    requires limit <= STATUS_BUFFER
    ensures !StartsWith(view, Scheme) || !Contains(view, CRLFCRLF) || Count(view, ' ') != 2 ==>
              r == Header(Invalid, 0)
    ensures r.Header? && r.status != Ok ==> r.fileLen == 0
    ensures r.Header? && r.status == Ok ==> r.fileLen <= SIZE_MAX
  {
    ContainsIffFound(view, CRLFCRLF);
    if !StartsWith(view, Scheme) then Header(Invalid, 0)
    else if FindFrom(view, CRLFCRLF, 0).None? then Header(Invalid, 0)
    else if Count(view, ' ') != 2 then Header(Invalid, 0)
    else
      match FindFrom(view, " ", 0)
      case None => HeaderUndefined
      case Some(s1) =>
        match FindFrom(view, " ", s1 + 1)
        case None => HeaderUndefined
        case Some(s2) =>
          if s2 - (s1 + 1) >= limit then Header(Invalid, 0)
          else
            var token := view[s1 + 1..s2];
            if token == "OK" then
              match FindFrom(view, "\r", s2 + 1)
              case None => HeaderUndefined
              case Some(e) =>
                if e - (s2 + 1) >= LENGTH_BUFFER then HeaderUndefined
                else
                  match ScanSize(view[s2 + 1..e])
                  case None => Header(Invalid, 0)
                  case Some(n) => Header(Ok, n)
            else if token == "FILE_NOT_FOUND" then Header(FileNotFound, 0)
            else if token == "ERROR" then Header(Error, 0)
            else Header(Invalid, 0)
  }

  /** `parseResponseHeader` as written: the token is refused when its length
      reaches `sizeof(gfstatus_t)`, so "ERROR" and "FILE_NOT_FOUND" can never
      be recognised. */
  function ParseResponseHeader(view: string): (r: Header)
    ensures r.Header? ==> r.status == Ok || r.status == Invalid
  {
    ParseHeaderWith(view, STATUS_SIZE)
  }

  /** The first chunk up to and including its first blank line. */
  function HeaderPart(view: string): (r: string)
    ensures r <= view
  {
    match FindFrom(view, CRLFCRLF, 0)
    case Some(i) => view[..i + 4]
    case None => view
  }

  /** `parseResponseHeader` as evidently intended: the token is bounded by
      the size of `extractedStatus`, and the space count covers the header
      only, not file content received in the same chunk. */
  function ParseResponseHeaderCorrected(view: string): (r: Header)
    ensures !StartsWith(view, Scheme) || !Contains(view, CRLFCRLF) ==> r == Header(Invalid, 0)
  {
    var h := HeaderPart(view);
    assert StartsWith(h, Scheme) ==> StartsWith(view, Scheme) by {
      if StartsWith(h, Scheme) { assert view[..7] == h[..7]; }
    }
    ContainsIffFound(view, CRLFCRLF);
    ParseHeaderWith(h, STATUS_BUFFER)
  }

  /** The two-space header "GETFILE <word> <digits>\r\n\r\n". */
  function StatusHeader(tok: string, d: string): (r: string)
    ensures |r| == 13 + |tok| + |d|
  {
    Scheme + " " + tok + " " + d + CRLFCRLF
  }

  /** The character layout of a two-space header with word length `t`
      and `dl` digits, as far as the parser's scans look at it. */
  predicate Laid(v: string, t: nat, dl: nat)
  {
    |v| >= 13 + t + dl
    && (forall k :: 0 <= k < 7 ==> v[k] != ' ') && v[7] == ' '
    && (forall k :: 8 <= k < 8 + t ==> v[k] != ' ') && v[8 + t] == ' '
    && (forall k :: 0 <= k < 9 + t + dl ==> v[k] != '\r')
    && v[9 + t + dl..13 + t + dl] == CRLFCRLF
  }

  /** Where the scans of `parseResponseHeader` stop in such a layout. */
  lemma ScanLaid(v: string, t: nat, dl: nat)
    requires Laid(v, t, dl)
    ensures FindFrom(v, " ", 0) == Some(7)
    ensures FindFrom(v, " ", 8) == Some(8 + t)
    ensures FindFrom(v, "\r", 9 + t) == Some(9 + t + dl)
    ensures FindFrom(v, CRLFCRLF, 0) == Some(9 + t + dl)
  {
    var e := 9 + t + dl;
    FindCharAt(v, ' ', 0, 7);
    FindCharAt(v, ' ', 8, 8 + t);
    assert v[e] == v[e..e + 4][0];
    FindCharAt(v, '\r', 9 + t, e);
    forall k | 0 <= k < e ensures !OccursAt(v, CRLFCRLF, k) {
      assert v[k..k + 4][0] == v[k];
    }
    FindFromIs(v, CRLFCRLF, 0, e);
  }

  lemma LaidSpaces(tok: string, d: string, tail: string)
    requires ' ' !in tok
    ensures var v := StatusHeader(tok, d) + tail;
            (forall k :: 0 <= k < 7 ==> v[k] != ' ') && v[7] == ' '
            && (forall k :: 8 <= k < 8 + |tok| ==> v[k] != ' ') && v[8 + |tok|] == ' '
            && v[..7] == Scheme && v[8..8 + |tok|] == tok
  {
    var v := StatusHeader(tok, d) + tail;
    assert forall k :: 0 <= k < 7 ==> v[k] == Scheme[k];
    assert forall k :: 8 <= k < 8 + |tok| ==> v[k] == tok[k - 8];
  }

  lemma LaidReturns(tok: string, d: string, tail: string)
    requires '\r' !in tok && AllDigits(d)
    ensures var v := StatusHeader(tok, d) + tail;
            (forall k :: 0 <= k < 9 + |tok| + |d| ==> v[k] != '\r')
            && v[9 + |tok| + |d|..13 + |tok| + |d|] == CRLFCRLF
            && v[9 + |tok|..9 + |tok| + |d|] == d
  {
    var v := StatusHeader(tok, d) + tail;
    forall k | 0 <= k < 9 + |tok| + |d| ensures v[k] != '\r' {
      if k < 7 { assert v[k] == Scheme[k]; }
      else if 8 <= k < 8 + |tok| { assert v[k] == tok[k - 8]; }
      else if 9 + |tok| <= k { assert v[k] == d[k - 9 - |tok|]; }
    }
  }

  lemma LaidCount(tok: string, d: string, tail: string)
    requires ' ' !in tok && AllDigits(d)
    ensures Count(StatusHeader(tok, d) + tail, ' ') == 2 + Count(tail, ' ')
  {
    var v := StatusHeader(tok, d) + tail;
    assert multiset(v) == multiset(Scheme) + multiset(" ") + multiset(tok) + multiset(" ")
                          + multiset(d) + multiset(CRLFCRLF) + multiset(tail);
    assert ' ' !in d;
  }

  lemma LaidOf(tok: string, d: string, tail: string)
    requires ' ' !in tok && '\r' !in tok && AllDigits(d)
    ensures var v := StatusHeader(tok, d) + tail;
            Laid(v, |tok|, |d|) && v[..7] == Scheme && v[8..8 + |tok|] == tok
            && v[9 + |tok|..9 + |tok| + |d|] == d
  {
    LaidSpaces(tok, d, tail);
    LaidReturns(tok, d, tail);
  }

  /** What `parseResponseHeader` decides once its scans have found the
      two spaces, as a function of the word between them. */
  lemma ParseOnScan(v: string, t: nat, limit: nat)
    requires limit <= STATUS_BUFFER
    requires StartsWith(v, Scheme) && Count(v, ' ') == 2
    requires FindFrom(v, CRLFCRLF, 0).Some?
    requires FindFrom(v, " ", 0) == Some(7) && FindFrom(v, " ", 8) == Some(8 + t)
    ensures t >= limit ==> ParseHeaderWith(v, limit) == Header(Invalid, 0)
    ensures t < limit && v[8..8 + t] == "ERROR" ==> ParseHeaderWith(v, limit) == Header(Error, 0)
    ensures t < limit && v[8..8 + t] == "FILE_NOT_FOUND" ==> ParseHeaderWith(v, limit) == Header(FileNotFound, 0)
    ensures t < limit && v[8..8 + t] !in {"OK", "ERROR", "FILE_NOT_FOUND"} ==> ParseHeaderWith(v, limit) == Header(Invalid, 0)
    ensures forall e, n :: (t < limit && v[8..8 + t] == "OK" && FindFrom(v, "\r", 9 + t) == Some(e)
              && e - (9 + t) < LENGTH_BUFFER && ScanSize(v[9 + t..e]) == Some(n)) ==> ParseHeaderWith(v, limit) == Header(Ok, n)
  {
  }
  /** All of a two-space header's layout facts at once. */
  lemma LaidAll(tok: string, d: string, tail: string)
    requires ' ' !in tok && '\r' !in tok && AllDigits(d) && ' ' !in tail
    ensures var v := StatusHeader(tok, d) + tail;
            Laid(v, |tok|, |d|) && v[..7] == Scheme && Count(v, ' ') == 2
            && v[8..8 + |tok|] == tok && v[9 + |tok|..9 + |tok| + |d|] == d
  {
    LaidOf(tok, d, tail);
    LaidCount(tok, d, tail);
  }

  /** A two-space header whose word reaches the token bound is INVALID. */
  lemma TwoSpaceTooLong(v: string, tok: string, d: string, tail: string, limit: nat)
    requires ' ' !in tok && '\r' !in tok && AllDigits(d) && ' ' !in tail && limit <= STATUS_BUFFER
    requires v == StatusHeader(tok, d) + tail
    ensures |tok| >= limit ==> ParseHeaderWith(v, limit) == Header(Invalid, 0)
  {
    LaidAll(tok, d, tail);
    ScanLaid(v, |tok|, |d|);
    ParseOnScan(v, |tok|, limit);
  }

  /** A two-space header with a word other than OK decodes by the word
      alone: the two error words are recognised, anything else is INVALID. */
  lemma TwoSpaceWord(v: string, tok: string, d: string, tail: string, limit: nat)
    requires ' ' !in tok && '\r' !in tok && AllDigits(d) && ' ' !in tail && limit <= STATUS_BUFFER
    requires v == StatusHeader(tok, d) + tail
    ensures |tok| < limit && tok != "OK" ==>
              ParseHeaderWith(v, limit) ==
              Header(if tok == "FILE_NOT_FOUND" then FileNotFound else if tok == "ERROR" then Error else Invalid, 0)
  {
    LaidAll(tok, d, tail);
    ScanLaid(v, |tok|, |d|);
    ParseOnScan(v, |tok|, limit);
  }

  /** An OK header's length field is read by `sscanf` from the digits
      between the second space and the carriage return. */
  lemma TwoSpaceOk(v: string, tok: string, d: string, tail: string, limit: nat)
    requires ' ' !in tok && '\r' !in tok && AllDigits(d) && ' ' !in tail && limit <= STATUS_BUFFER
    requires v == StatusHeader(tok, d) + tail
    ensures |tok| < limit && tok == "OK" && |d| < LENGTH_BUFFER && ScanSize(d).Some? ==>
              ParseHeaderWith(v, limit) == Header(Ok, ScanSize(d).value)
  {
    LaidAll(tok, d, tail);
    ScanLaid(v, |tok|, |d|);
    ParseOnScan(v, |tok|, limit);
  }

  /** The header "GETFILE <word> <length>\r\n\r\n", followed by text with
      no spaces, decodes to its status and, for OK, its length, exactly
      when the word is shorter than the token bound. */
  lemma TwoSpaceRoundTrip(s: Status, n: nat, tail: string, limit: nat)
    requires limit <= STATUS_BUFFER && n <= SIZE_MAX && ' ' !in tail
    ensures ParseHeaderWith(StatusHeader(Token(s), Format(n)) + tail, limit) ==
            if |Token(s)| >= limit then Header(Invalid, 0)
            else Header(s, if s == Ok then n else 0)
  {
    var v := StatusHeader(Token(s), Format(n)) + tail;
    TwoSpaceTooLong(v, Token(s), Format(n), tail, limit);
    TwoSpaceWord(v, Token(s), Format(n), tail, limit);
    TwoSpaceOk(v, Token(s), Format(n), tail, limit);
    FormatLength(n);
    ScanFormat(n);
  }

  lemma HeaderPartOfStatusHeader(tok: string, d: string, tail: string)
    requires ' ' !in tok && '\r' !in tok && |d| > 0 && AllDigits(d)
    ensures HeaderPart(StatusHeader(tok, d) + tail) == StatusHeader(tok, d) + ""
  {
    var h := StatusHeader(tok, d);
    LaidOf(tok, d, tail);
    ScanLaid(h + tail, |tok|, |d|);
    assert (h + tail)[..|h|] == h;
    assert h + "" == h;
  }

  /** The OK header `gfs_sendheader` writes is the two-space layout. */
  lemma OkHeaderText(n: nat)
    ensures HeaderText(0, n) == StatusHeader(Token(Ok), Format(n)) + ""
  {
  }

  /** The OK header `gfs_sendheader` writes decodes to OK and its length
      under either parser, provided nothing after it in the buffer is a
      space. */
  lemma OkHeaderRoundTrip(n: nat, tail: string)
    requires n <= SIZE_MAX && ' ' !in tail
    ensures ParseResponseHeader(HeaderText(0, n) + tail) == Header(Ok, n)
    ensures ParseResponseHeaderCorrected(HeaderText(0, n) + tail) == Header(Ok, n)
  {
    OkHeaderText(n);
    assert HeaderText(0, n) + tail == StatusHeader(Token(Ok), Format(n)) + tail;
    TwoSpaceRoundTrip(Ok, n, tail, STATUS_SIZE);
    OkHeaderAnyBody(n, tail);
  }

  /** Under the corrected parser the OK header decodes whatever file
      content follows it. */
  lemma OkHeaderAnyBody(n: nat, tail: string)
    requires n <= SIZE_MAX
    ensures ParseResponseHeaderCorrected(HeaderText(0, n) + tail) == Header(Ok, n)
  {
    OkHeaderText(n);
    HeaderPartOfStatusHeader(Token(Ok), Format(n), tail);
    assert HeaderText(0, n) + tail == StatusHeader(Token(Ok), Format(n)) + tail;
    assert HeaderPart(HeaderText(0, n) + tail) == StatusHeader(Token(Ok), Format(n)) + "";
    TwoSpaceRoundTrip(Ok, n, "", STATUS_BUFFER);
  }

  lemma PrefixCount(h: string, v: string, c: char)
    requires h <= v
    ensures Count(h, c) <= Count(v, c)
  {
    assert v == h + v[|h|..];
    assert multiset(v) == multiset(h) + multiset(v[|h|..]);
  }

  /** Fewer than two spaces anywhere in the view is INVALID under either
      parser. */
  lemma FewSpacesInvalid(v: string)
    requires Count(v, ' ') < 2
    ensures ParseResponseHeader(v) == Header(Invalid, 0)
    ensures ParseResponseHeaderCorrected(v) == Header(Invalid, 0)
  {
    PrefixCount(HeaderPart(v), v, ' ');
  }

  lemma OneSpaceCountOf(tok: string, tail: string)
    requires ' ' !in tok && ' ' !in tail
    ensures Count(Scheme + " " + tok + CRLFCRLF + tail, ' ') == 1
  {
    var v := Scheme + " " + tok + CRLFCRLF + tail;
    assert multiset(v) == multiset(Scheme) + multiset(" ") + multiset(tok) + multiset(CRLFCRLF) + multiset(tail);
  }

  lemma OneSpaceCount(s: Status, tail: string)
    requires s != Ok && ' ' !in tail
    ensures Count(HeaderText(Code(s), 0) + tail, ' ') == 1
  {
    HeaderTextShape(s, 0);
    OneSpaceCountOf(Token(s), tail);
  }

  /** The one-space headers the server writes for FILE_NOT_FOUND, ERROR and
      INVALID fail the two-space rule, so they decode as INVALID under
      either parser. */
  lemma OneSpaceHeaderInvalid(s: Status, tail: string)
    requires s != Ok && ' ' !in tail
    ensures ParseResponseHeader(HeaderText(Code(s), 0) + tail) == Header(Invalid, 0)
    ensures ParseResponseHeaderCorrected(HeaderText(Code(s), 0) + tail) == Header(Invalid, 0)
  {
    OneSpaceCount(s, tail);
    FewSpacesInvalid(HeaderText(Code(s), 0) + tail);
  }

  /** The sizeof bound in action: the two-space headers for ERROR and
      FILE_NOT_FOUND decode as INVALID as written, and as themselves under
      the corrected parser. */
  lemma StatusTokenBound(s: Status, n: nat)
    requires s == FileNotFound || s == Error
    requires n <= SIZE_MAX
    ensures ParseResponseHeader(StatusHeader(Token(s), Format(n))) == Header(Invalid, 0)
    ensures ParseResponseHeaderCorrected(StatusHeader(Token(s), Format(n))) == Header(s, 0)
  {
    var h := StatusHeader(Token(s), Format(n));
    assert h + "" == h;
    TwoSpaceRoundTrip(s, n, "", STATUS_SIZE);
    TwoSpaceRoundTrip(s, n, "", STATUS_BUFFER);
    HeaderPartOfStatusHeader(Token(s), Format(n), "");
  }

  /** File content with a space in the first chunk: the whole-buffer space
      count rejects a correct OK header as written. */
  lemma SpaceInBodyRejected()
    ensures ParseResponseHeader(HeaderText(0, 1) + " ") == Header(Invalid, 0)
    ensures ParseResponseHeaderCorrected(HeaderText(0, 1) + " ") == Header(Ok, 1)
  {
    HeaderTextShape(Ok, 1);
    LaidCount(Token(Ok), Format(1), " ");
    OkHeaderAnyBody(1, " ");
  }

  /** How the receive loop ended: `recv` returned 0 or -1. */
  datatype End = Closed | Failed

  /** The outcome of `gfc_perform`: its return value, the status and file
      length left in the request, the byte counter, and the pieces handed
      to the write callback; or undefined behaviour. */
  datatype Transfer =
    | Transfer(ret: int, status: Status, fileLen: nat, bytesRecvd: nat, delivered: seq<string>)
    | TransferUndefined

  /** Each `recv` into the BUFSIZ buffer returns between 1 and BUFSIZ bytes. */
  predicate ValidChunks(chunks: seq<string>)
  {
    forall k :: 0 <= k < |chunks| ==> 0 < |chunks[k]| <= BUFSIZ
  }

  /** The C string the parser sees in the first chunk: NUL-terminated after
      the bytes read when they leave room, and otherwise defined only when
      the chunk itself holds a NUL. */
  function HeaderView(chunk: string): (r: Option<string>)
    ensures r.None? <==> |chunk| >= BUFSIZ && NUL !in chunk
    ensures r.Some? ==> r.value == CString(chunk)
  {
    if |chunk| < BUFSIZ || NUL in chunk then Some(CString(chunk)) else None
  }

  /** The receive loop of `gfc_perform`, with the header parser and the
      return values chosen by `corrected`: as written (false), or as the
      interface documents (true), which returns 0 for FILE_NOT_FOUND and
      ERROR and -1 for a connection closed before the header or before the
      announced length arrived. */
  function PerformWith(corrected: bool, sent: bool, chunks: seq<string>, end: End): (r: Transfer)
    requires ValidChunks(chunks)
    ensures r.Transfer? ==> r.bytesRecvd == |Flatten(r.delivered)| <= |Flatten(chunks)|
    ensures r.Transfer? ==> Flatten(r.delivered) == Flatten(chunks)[|Flatten(chunks)| - r.bytesRecvd..]
    ensures r.Transfer? ==> forall k :: 0 <= k < |r.delivered| ==> |r.delivered[k]| > 0
    ensures r.Transfer? && |r.delivered| > 0 ==> r.status == Ok
    ensures r.Transfer? ==> r.ret == 0 || r.ret == -1
    ensures corrected && r.Transfer? && r.status == Ok && r.bytesRecvd < r.fileLen ==> r.ret == -1
    ensures !sent ==> r == Transfer(-1, Ok, 0, 0, [])
  {
    if !sent then Transfer(-1, Ok, 0, 0, [])
    else if |chunks| == 0 then Transfer(if end == Failed || corrected then -1 else 0, Ok, 0, 0, [])
    else
      match HeaderView(chunks[0])
      case None => TransferUndefined
      case Some(view) =>
        var header := if corrected then ParseResponseHeaderCorrected(view) else ParseResponseHeader(view);
        match header
        case HeaderUndefined => TransferUndefined
        case Header(status, fileLen) => AfterHeader(corrected, chunks, view, status, fileLen, end)
  }

  /** The loop once the first chunk's header is decoded: a status other
      than OK ends it; otherwise everything after the blank line and every
      later chunk go to the write callback. */
  function AfterHeader(corrected: bool, chunks: seq<string>, view: string, status: Status, fileLen: nat,
                       end: End): (r: Transfer)
    requires ValidChunks(chunks) && |chunks| > 0 && view <= chunks[0]
    ensures r.Transfer? ==> r.bytesRecvd == |Flatten(r.delivered)| <= |Flatten(chunks)|
    ensures r.Transfer? ==> Flatten(r.delivered) == Flatten(chunks)[|Flatten(chunks)| - r.bytesRecvd..]
    ensures r.Transfer? ==> forall k :: 0 <= k < |r.delivered| ==> |r.delivered[k]| > 0
    ensures r.Transfer? && |r.delivered| > 0 ==> r.status == Ok
    ensures r.Transfer? ==> r.ret == 0 || r.ret == -1
    ensures corrected && r.Transfer? && r.status == Ok && r.bytesRecvd < r.fileLen ==> r.ret == -1
  {
    if status != Ok then
      Transfer(if corrected && status != Invalid then 0 else -1, status, fileLen, 0, [])
    else
      match FindFrom(view, CRLFCRLF, 0)
      case None => Transfer(-1, status, fileLen, 0, [])
      case Some(i) =>
        var body := chunks[0][i + 4..];
        var delivered := (if |body| > 0 then [body] else []) + chunks[1..];
        BodySplit(chunks, i + 4);
        var received := |body| + |Flatten(chunks[1..])|;
        Transfer(OkReturn(corrected, end, fileLen, received), Ok, fileLen, received, delivered)
  }

  /** The return value after an OK header: -1 when `recv` failed, and
      under the corrected client also when fewer than the announced bytes
      arrived before the server closed the connection. */
  function OkReturn(corrected: bool, end: End, fileLen: nat, received: nat): (ret: int)
    ensures ret == -1 <==> end == Failed || (corrected && received < fileLen)
    ensures ret == 0 || ret == -1
  {
    if end == Failed || (corrected && received < fileLen) then -1 else 0
  }

  /** `gfc_perform` as written: any status but OK returns -1, so it never
      reports success for FILE_NOT_FOUND or ERROR; a connection the server
      closes cleanly returns 0 whatever arrived. */
  function Perform(sent: bool, chunks: seq<string>, end: End): (r: Transfer)
    requires ValidChunks(chunks)
    ensures r.Transfer? && r.ret == 0 ==> r.status == Ok
  {
    PerformWith(false, sent, chunks, end)
  }

  /** `gfc_perform` as its interface documents: FILE_NOT_FOUND and ERROR
      are successful exchanges that return 0; an invalid header, a failed
      `recv`, and a connection closed before the header or before the
      announced length arrived return -1. */
  function PerformCorrected(sent: bool, chunks: seq<string>, end: End): (r: Transfer)
    requires ValidChunks(chunks)
    ensures r.Transfer? && (r.status == FileNotFound || r.status == Error) ==> r.ret == 0
    ensures r.Transfer? && r.status == Invalid ==> r.ret == -1
    ensures r.Transfer? && r.status == Ok && r.bytesRecvd < r.fileLen ==> r.ret == -1
    ensures |chunks| == 0 ==> r.Transfer? && r.ret == -1
  {
    PerformWith(true, sent, chunks, end)
  }

  lemma BodySplit(chunks: seq<string>, h: nat)
    requires |chunks| > 0 && h <= |chunks[0]|
    ensures var body := chunks[0][h..];
            var delivered := (if |body| > 0 then [body] else []) + chunks[1..];
            Flatten(delivered) == Flatten(chunks)[h..]
            && |Flatten(delivered)| == |body| + |Flatten(chunks[1..])|
  {
    var body := chunks[0][h..];
    FlattenAppend(if |body| > 0 then [body] else [], chunks[1..]);
    if |body| > 0 {
      assert Flatten([body]) == body + Flatten([body][1..]);
      assert [body][1..] == [];
    }
    assert Flatten(chunks) == chunks[0] + Flatten(chunks[1..]);
  }

  /** Past an OK header whose blank line ends at `h`, the loop delivers
      the rest of the first chunk and every later chunk. */
  lemma AfterOkHeader(corrected: bool, chunks: seq<string>, first: string, rest: seq<string>, end: End, n: nat, h: nat)
    requires chunks == [first] + rest && ValidChunks(chunks)
    requires 4 <= h <= |first| && FindFrom(first, CRLFCRLF, 0) == Some(h - 4)
    ensures var r := AfterHeader(corrected, chunks, first, Ok, n, end);
            r.Transfer? && r.ret == OkReturn(corrected, end, n, |first[h..] + Flatten(rest)|)
            && r.status == Ok && r.fileLen == n && Flatten(r.delivered) == first[h..] + Flatten(rest)
  {
    assert chunks[0] == first && chunks[1..] == rest;
    BodySplit(chunks, h);
    assert Flatten(chunks) == first + Flatten(rest);
    assert (first + Flatten(rest))[h..] == first[h..] + Flatten(rest);
  }

  /** A first chunk whose header the parser accepts as OK hands everything
      after the blank line, and every later chunk, to the write callback. */
  lemma PerformOkChunk(corrected: bool, first: string, rest: seq<string>, end: End, n: nat, h: nat)
    requires ValidChunks([first] + rest) && |first| < BUFSIZ && NUL !in first
    requires (if corrected then ParseResponseHeaderCorrected(first) else ParseResponseHeader(first)) == Header(Ok, n)
    requires 4 <= h <= |first| && FindFrom(first, CRLFCRLF, 0) == Some(h - 4)
    ensures var r := PerformWith(corrected, true, [first] + rest, end);
            r.Transfer? && r.ret == OkReturn(corrected, end, n, |first[h..] + Flatten(rest)|)
            && r.status == Ok && r.fileLen == n && Flatten(r.delivered) == first[h..] + Flatten(rest)
  {
    var chunks := [first] + rest;
    CStringOfNulFree(first);
    assert chunks[0] == first;
    assert HeaderView(chunks[0]) == Some(first);
    assert PerformWith(corrected, true, chunks, end) == AfterHeader(corrected, chunks, first, Ok, n, end);
    AfterOkHeader(corrected, chunks, first, rest, end, n, h);
  }

  lemma StatusHeaderEnd(tok: string, d: string, tail: string)
    requires ' ' !in tok && '\r' !in tok && NUL !in tok && AllDigits(d)
    ensures FindFrom(StatusHeader(tok, d) + tail, CRLFCRLF, 0) == Some(9 + |tok| + |d|)
    ensures NUL !in StatusHeader(tok, d)
  {
    var h := StatusHeader(tok, d);
    LaidOf(tok, d, tail);
    ScanLaid(h + tail, |tok|, |d|);
    forall k | 0 <= k < |h| ensures h[k] != NUL {
      if 8 <= k < 8 + |tok| { assert h[k] == tok[k - 8]; }
      else if 9 + |tok| <= k < 9 + |tok| + |d| { assert h[k] == d[k - 9 - |tok|]; }
    }
  }

  /** What the parser and `strstr` find in an OK header followed by
      `body`. */
  lemma OkChunk(first: string, n: nat, body: string)
    requires n <= SIZE_MAX && NUL !in body && first == HeaderText(0, n) + body
    ensures NUL !in first && |HeaderText(0, n)| <= |first| && first[|HeaderText(0, n)|..] == body
    ensures FindFrom(first, CRLFCRLF, 0) == Some(|HeaderText(0, n)| - 4)
  {
    OkHeaderText(n);
    assert StatusHeader(Token(Ok), Format(n)) + "" == StatusHeader(Token(Ok), Format(n));
    StatusHeaderEnd(Token(Ok), Format(n), body);
  }

  lemma OkFirstChunk(corrected: bool, first: string, n: nat, body: string)
    requires n <= SIZE_MAX && NUL !in body && (corrected || ' ' !in body)
    requires first == HeaderText(0, n) + body
    ensures NUL !in first && 4 <= |HeaderText(0, n)| <= |first| && first[|HeaderText(0, n)|..] == body
    ensures FindFrom(first, CRLFCRLF, 0) == Some(|HeaderText(0, n)| - 4)
    ensures (if corrected then ParseResponseHeaderCorrected(first) else ParseResponseHeader(first)) == Header(Ok, n)
  {
    OkChunk(first, n, body);
    if corrected {
      OkHeaderAnyBody(n, body);
    } else {
      OkHeaderRoundTrip(n, body);
    }
  }

  lemma PerformOkText(corrected: bool, first: string, n: nat, h: nat, body: string, rest: seq<string>, end: End)
    requires n <= SIZE_MAX && NUL !in body && (corrected || ' ' !in body)
    requires first == HeaderText(0, n) + body && h == |HeaderText(0, n)|
    requires |first| < BUFSIZ && ValidChunks(rest)
    ensures var r := PerformWith(corrected, true, [first] + rest, end);
            r.Transfer? && r.ret == OkReturn(corrected, end, n, |body + Flatten(rest)|)
            && r.status == Ok && r.fileLen == n && Flatten(r.delivered) == body + Flatten(rest)
  {
    OkFirstChunk(corrected, first, n, body);
    var chunks := [first] + rest;
    assert ValidChunks(chunks) by {
      forall k | 0 <= k < |chunks| ensures 0 < |chunks[k]| <= BUFSIZ {
        if k > 0 { assert chunks[k] == rest[k - 1]; }
      }
    }
    PerformOkChunk(corrected, first, rest, end, n, h);
    assert first[h..] == body;
  }

  /** The client receives what the server sent for an OK response: the
      status, the length from the header, and exactly the file bytes that
      followed it, split however `recv` delivered them. As written this
      needs file content without spaces in the first chunk. */
  lemma PerformReceivesFile(n: nat, body: string, rest: seq<string>, end: End)
    requires n <= SIZE_MAX && NUL !in body && ' ' !in body
    requires |HeaderText(0, n) + body| < BUFSIZ && ValidChunks(rest)
    ensures var r := Perform(true, [HeaderText(0, n) + body] + rest, end);
            r.Transfer? && r.ret == (if end == Failed then -1 else 0) && r.status == Ok && r.fileLen == n
            && Flatten(r.delivered) == body + Flatten(rest)
  {
    PerformOkText(false, HeaderText(0, n) + body, n, |HeaderText(0, n)|, body, rest, end);
  }

  /** The same exchange under the corrected client, for any file content;
      it succeeds only when the announced length arrived. */
  lemma PerformCorrectedReceivesFile(n: nat, body: string, rest: seq<string>, end: End)
    requires n <= SIZE_MAX && NUL !in body
    requires |HeaderText(0, n) + body| < BUFSIZ && ValidChunks(rest)
    ensures var r := PerformCorrected(true, [HeaderText(0, n) + body] + rest, end);
            r.Transfer? && r.ret == (if end == Failed || |body + Flatten(rest)| < n then -1 else 0)
            && r.status == Ok && r.fileLen == n && Flatten(r.delivered) == body + Flatten(rest)
  {
    PerformOkText(true, HeaderText(0, n) + body, n, |HeaderText(0, n)|, body, rest, end);
  }

  /** A first chunk whose header the parser reads as a status other than
      OK ends the exchange at once, with nothing written. */
  lemma PerformRefusedChunk(corrected: bool, first: string, rest: seq<string>, end: End, st: Status)
    requires ValidChunks([first] + rest) && |first| < BUFSIZ && NUL !in first && st != Ok
    requires (if corrected then ParseResponseHeaderCorrected(first) else ParseResponseHeader(first)) == Header(st, 0)
    ensures PerformWith(corrected, true, [first] + rest, end) ==
            Transfer(if corrected && st != Invalid then 0 else -1, st, 0, 0, [])
  {
    CStringOfNulFree(first);
    assert ([first] + rest)[0] == first;
  }

  lemma FileNotFoundChunk(first: string)
    requires first == StatusHeader(Token(FileNotFound), Format(0))
    ensures NUL !in first && |first| < BUFSIZ
    ensures ParseResponseHeader(first) == Header(Invalid, 0)
    ensures ParseResponseHeaderCorrected(first) == Header(FileNotFound, 0)
  {
    StatusHeaderEnd(Token(FileNotFound), Format(0), "");
    StatusTokenBound(FileNotFound, 0);
  }

  /** A two-space FILE_NOT_FOUND header: `gfc_perform` as written returns
      -1 (its parser already reads INVALID), the corrected one returns 0
      with the status recorded and nothing written. */
  lemma PerformFileNotFound(first: string, rest: seq<string>, end: End)
    requires first == StatusHeader(Token(FileNotFound), Format(0)) && ValidChunks([first] + rest)
    ensures Perform(true, [first] + rest, end) == Transfer(-1, Invalid, 0, 0, [])
    ensures PerformCorrected(true, [first] + rest, end) == Transfer(0, FileNotFound, 0, 0, [])
  {
    FileNotFoundChunk(first);
    PerformRefusedChunk(false, first, rest, end, Invalid);
    PerformRefusedChunk(true, first, rest, end, FileNotFound);
  }

  /** A short transfer: the OK header announces `n` bytes, fewer arrive
      and the server closes the connection. As written `gfc_perform`
      returns 0; the corrected one returns -1. */
  lemma PerformShortTransfer(n: nat, body: string, rest: seq<string>)
    requires n <= SIZE_MAX && NUL !in body && ' ' !in body
    requires |HeaderText(0, n) + body| < BUFSIZ && ValidChunks(rest)
    requires |body + Flatten(rest)| < n
    ensures var r := Perform(true, [HeaderText(0, n) + body] + rest, Closed); r.Transfer? && r.ret == 0
    ensures var r := PerformCorrected(true, [HeaderText(0, n) + body] + rest, Closed); r.Transfer? && r.ret == -1
  {
    PerformReceivesFile(n, body, rest, Closed);
    PerformCorrectedReceivesFile(n, body, rest, Closed);
  }

  /** The server closes before sending anything: 0 as written, -1 when
      corrected. */
  lemma PerformClosedBeforeHeader()
    ensures Perform(true, [], Closed) == Transfer(0, Ok, 0, 0, [])
    ensures PerformCorrected(true, [], Closed) == Transfer(-1, Ok, 0, 0, [])
  {
  }

  /** The header announces `n` bytes and the server closes right after
      it. */
  lemma PerformHeaderOnly(n: nat)
    requires 0 < n <= SIZE_MAX
    ensures ValidChunks([HeaderText(0, n)])
    ensures ValidChunks([HeaderText(0, n)]) &&
            var r := Perform(true, [HeaderText(0, n)], Closed); r.Transfer? && r.ret == 0 && r.fileLen == n
    ensures ValidChunks([HeaderText(0, n)]) &&
            var r := PerformCorrected(true, [HeaderText(0, n)], Closed); r.Transfer? && r.ret == -1
  {
    var h := HeaderText(0, n);
    assert h + "" == h;
    assert [h + ""] + [] == [h];
    assert Flatten<char>([]) == [];
    HeaderTextShape(Ok, n);
    PerformReceivesFile(n, "", [], Closed);
    PerformShortTransfer(n, "", []);
  }
}
