/** The GETFILE protocol vocabulary shared by the server and the client
    libraries: the status enumeration, its words, the limits and the exact
    text of a request line and of a response header. */
module Getfile {
  import opened Base
  import opened Decimal

  /** `gfstatus_t`. */
  datatype Status = Ok | FileNotFound | Error | Invalid

  /** Longest request the server reads, and the size of its path buffer. */
  const REQ_MAX_LEN: nat := 1024
  const FILE_PATH_MAX_LEN: nat := 1000

  const Scheme: string := "GETFILE"
  /** What precedes the path in a request line. */
  const RequestLead: string := "GETFILE GET "

  /** The integer value of each enumerator. */
  function Code(s: Status): (c: int)
    ensures 0 <= c <= 3
  {
    match s
    case Ok => 0
    case FileNotFound => 1
    case Error => 2
    case Invalid => 3
  }

  function FromCode(c: int): (r: Option<Status>)
    ensures r.Some? <==> 0 <= c <= 3
    ensures r.Some? ==> Code(r.value) == c
  {
    if c == 0 then Some(Ok)
    else if c == 1 then Some(FileNotFound)
    else if c == 2 then Some(Error)
    else if c == 3 then Some(Invalid)
    else None
  }

  lemma CodeInjective(a: Status, b: Status)
    ensures Code(a) == Code(b) ==> a == b
  {
  }

  lemma FromCodeOfCode(s: Status)
    ensures FromCode(Code(s)) == Some(s)
  {
    CodeInjective(FromCode(Code(s)).value, s);
  }

  /** The word that names a status on the wire. */
  function Token(s: Status): (r: string)
    ensures 2 <= |r| <= 14
    ensures ' ' !in r && '\r' !in r && NUL !in r
  {
    match s
    case Ok => "OK"
    case FileNotFound => "FILE_NOT_FOUND"
    case Error => "ERROR"
    case Invalid => "INVALID"
  }

  /** `gfc_strstatus`: the name of an enumerator value, "UNKNOWN" for any
      other integer. */
  function StrStatus(code: int): (r: string)
    ensures r == "UNKNOWN" <==> FromCode(code).None?
    ensures FromCode(code).Some? ==> r == Token(FromCode(code).value)
  {
    if code == 1 then "FILE_NOT_FOUND"
    else if code == 0 then "OK"
    else if code == 3 then "INVALID"
    else if code == 2 then "ERROR"
    else "UNKNOWN"
  }

  /** Distinct statuses have distinct names, none of them "UNKNOWN". */
  lemma StrStatusInjective(a: Status, b: Status)
    ensures StrStatus(Code(a)) == StrStatus(Code(b)) ==> a == b
    ensures StrStatus(Code(a)) != "UNKNOWN"
  {
    FromCodeOfCode(a);
    FromCodeOfCode(b);
  }

  /** The request line for `path`, before any truncation by a buffer. */
  function RequestText(path: string): (r: string)
    ensures |r| == |path| + 16
    ensures r[..12] == RequestLead && r[12..12 + |path|] == path && r[12 + |path|..] == CRLFCRLF
  {
    RequestLead + path + CRLFCRLF
  }

  /** `gfs_sendheader(ctx, status, file_len)`: the header the server writes.
      A status outside the enumeration writes nothing. */
  function HeaderText(status: int, fileLen: nat): (r: string)
    ensures r == "" <==> FromCode(status).None?
  {
    if status == 0 then Scheme + " OK " + Format(fileLen) + CRLFCRLF
    else if status == 3 then Scheme + " INVALID" + CRLFCRLF
    else if status == 2 then Scheme + " ERROR" + CRLFCRLF
    else if status == 1 then Scheme + " FILE_NOT_FOUND" + CRLFCRLF
    else ""
  }

  /** Every enumerator gets "GETFILE <word>", followed by the length only
      for OK, then the blank line; the header always fits the server's
      1024-byte header buffer, so `snprintf` never truncates it. */
  lemma HeaderTextShape(s: Status, fileLen: nat)
    requires fileLen <= SIZE_MAX
    ensures HeaderText(Code(s), fileLen) ==
            Scheme + " " + Token(s) + (if s == Ok then " " + Format(fileLen) else "") + CRLFCRLF
    ensures |HeaderText(Code(s), fileLen)| < REQ_MAX_LEN
  {
    FormatLength(fileLen);
  }
}
