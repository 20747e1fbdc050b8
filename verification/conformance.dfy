/** The GETFILE conformance script: a fixed catalog of requests with the
    status prefix each one must draw, the stripped reply or error string
    that `send_request` returns for one exchange, and the prefix verdict of
    `run_tests`. The network exchange itself is an input. */
module Conformance {
  import opened Base
  import opened Getfile
  import GfServer

  datatype TestCase = TestCase(request: string, expected: string, description: string)

  const ExpectOk: string := "GETFILE OK"
  const ExpectNotFound: string := "GETFILE FILE_NOT_FOUND"
  const ExpectInvalid: string := "GETFILE INVALID"

  /** The paths of the two short well-formed cases. */
  const YellowstonePath: string := "/courses/ud923/filecorpus/yellowstone.jpg"
  const MissingPath: string := "/nonexistent/file.txt"

  /** The path of the oversized-but-well-formed case. */
  const LongPath: string := "/path/too/long/" + Repeat('a', 500)

  /** `test_cases`, the eight entries that are not commented out, in
      order. Every request ends with the blank line and fits the server's
      1024-byte request buffer, so one `recv` can carry it whole. */
  function Catalog(): (c: seq<TestCase>)
    ensures |c| == 8
    ensures forall i :: 0 <= i < |c| ==>
              4 <= |c[i].request| < REQ_MAX_LEN && c[i].request[|c[i].request| - 4..] == CRLFCRLF
  {
    [
      TestCase("GETFILE GET " + YellowstonePath + "\r\n\r\n", ExpectOk,
               "Valid request with an existing file"),
      TestCase("GETFILE GET " + MissingPath + "\r\n\r\n", ExpectNotFound,
               "Request for a non-existing file"),
      TestCase("GETFILE GET no/leading/slash\r\n\r\n", ExpectInvalid,
               "Request without leading slash in path"),
      TestCase("INVALID REQUEST\r\n\r\n", ExpectInvalid, "Malformed request"),
      TestCase("GETFILE GET " + LongPath + "\r\n\r\n", ExpectNotFound,
               "Request for a non-existing file"),
      TestCase("GETFILEGET /valid/path\r\n\r\n", ExpectInvalid, "Malformed request without space"),
      TestCase("GETFILE    GET /valid/path\r\n\r\n", ExpectInvalid, "Malformed request with too many space"),
      TestCase("GETFILE GET      /valid/path\r\n\r\n", ExpectInvalid, "Malformed request with too many space")
    ]
  }

  /** Python's `str.isspace`: the ASCII white space and separator controls
      and the Unicode space separators, line and paragraph separators. */
  predicate IsPyWhitespace(c: char)
  {
    c == ' ' || ('\t' <= c <= '\r') || (0x1C as char <= c <= 0x1F as char)
    || c == 0x85 as char || c == 0xA0 as char || c == 0x1680 as char
    || (0x2000 as char <= c <= 0x200A as char) || c == 0x2028 as char || c == 0x2029 as char
    || c == 0x202F as char || c == 0x205F as char || c == 0x3000 as char
  }

  predicate AllWhitespace(s: string)
  {
    forall k :: 0 <= k < |s| ==> IsPyWhitespace(s[k])
  }

  /** `s.lstrip()`. */
  function StripLeft(s: string): (r: string)
    ensures |r| <= |s| && r == s[|s| - |r|..]
    ensures AllWhitespace(s[..|s| - |r|])
    ensures |r| > 0 ==> !IsPyWhitespace(r[0])
  {
    if |s| > 0 && IsPyWhitespace(s[0]) then
      var r := StripLeft(s[1..]);
      var w := s[1..][..|s| - 1 - |r|];
      var t := [s[0]] + w;
      assert s[..|s| - |r|] == t;
      assert AllWhitespace(t) by {
        forall k | 0 <= k < |t| ensures IsPyWhitespace(t[k]) {
          if k > 0 { assert t[k] == w[k - 1]; }
        }
      }
      r
    else s
  }

  /** `s.rstrip()`. */
  function StripRight(s: string): (r: string)
    ensures |r| <= |s| && r == s[..|r|]
    ensures AllWhitespace(s[|r|..])
    ensures |r| > 0 ==> !IsPyWhitespace(r[|r| - 1])
  {
    if |s| > 0 && IsPyWhitespace(s[|s| - 1]) then
      var r := StripRight(s[..|s| - 1]);
      var w := s[..|s| - 1][|r|..];
      var t := w + [s[|s| - 1]];
      assert s[|r|..] == t;
      assert AllWhitespace(t) by {
        forall k | 0 <= k < |t| ensures IsPyWhitespace(t[k]) {
          if k < |w| { assert t[k] == w[k]; }
        }
      }
      r
    else s
  }

  /** `s.strip()`: the text with white space removed from both ends. */
  function Strip(s: string): (r: string)
    ensures |r| <= |s|
    ensures |r| > 0 ==> !IsPyWhitespace(r[0]) && !IsPyWhitespace(r[|r| - 1])
  {
    StripRight(StripLeft(s))
  }

  /** Text whose ends are not white space survives stripping of trailing
      white space unchanged. */
  lemma {:induction false} StripTrailing(a: string, w: string)
    requires |a| > 0 && !IsPyWhitespace(a[0]) && !IsPyWhitespace(a[|a| - 1])
    requires AllWhitespace(w)
    ensures Strip(a + w) == a
    decreases |w|
  {
    assert StripLeft(a + w) == a + w by {
      assert (a + w)[0] == a[0];
    }
    if |w| == 0 {
      assert a + w == a;
    } else {
      var w' := w[..|w| - 1];
      assert (a + w)[..|a + w| - 1] == a + w';
      assert (a + w)[|a + w| - 1] == w[|w| - 1];
      assert AllWhitespace(w') by {
        forall k | 0 <= k < |w'| ensures IsPyWhitespace(w'[k]) { assert w'[k] == w[k]; }
      }
      StripTrailing(a, w');
      assert StripLeft(a + w') == a + w' by { assert (a + w')[0] == a[0]; }
    }
  }

  /** The outcome of one exchange: the text `.decode()` made of the at most
      1024 bytes of the single `recv`, as UTF-8, or the message of an
      exception raised on the way. A reply whose bytes are not valid UTF-8
      raises `UnicodeDecodeError` inside the `try`, so it is `Raised`. */
  datatype Exchange = Replied(data: string) | Raised(message: string)

  /** `send_request`: the stripped reply, or "ERROR: " and the exception
      text. The decoding of 1024 bytes has at most 1024 characters, so the
      cut below only bounds the model's input. */
  function SendRequest(ex: Exchange): (r: string)
    ensures ex.Raised? ==> r == "ERROR: " + ex.message
    ensures ex.Replied? ==> |r| <= 1024
  {
    match ex
    case Replied(data) => Strip(if |data| <= 1024 then data else data[..1024])
    case Raised(message) => "ERROR: " + message
  }

  /** The verdict of `run_tests` on one case: the response begins with the
      expected status prefix, case-sensitively. */
  predicate Passes(tc: TestCase, ex: Exchange)
  {
    StartsWith(SendRequest(ex), tc.expected)
  }

  /** `run_tests`: every case once, in catalog order, each with its own
      exchange; the i-th verdict belongs to the i-th case. */
  method RunTests(cases: seq<TestCase>, exchanges: seq<Exchange>) returns (verdicts: seq<bool>)
    requires |exchanges| == |cases|
    ensures |verdicts| == |cases|
    ensures forall i :: 0 <= i < |cases| ==> (verdicts[i] <==> Passes(cases[i], exchanges[i]))
  {
    verdicts := [];
    var i := 0;
    while i < |cases|
      invariant 0 <= i <= |cases| && |verdicts| == i
      invariant forall j :: 0 <= j < i ==> (verdicts[j] <==> Passes(cases[j], exchanges[j]))
    {
      verdicts := verdicts + [Passes(cases[i], exchanges[i])];
      i := i + 1;
    }
  }

  /** Every expected value is one of the three status prefixes. */
  lemma CatalogExpectations()
    ensures forall i :: 0 <= i < |Catalog()| ==>
              Catalog()[i].expected == ExpectOk || Catalog()[i].expected == ExpectNotFound
              || Catalog()[i].expected == ExpectInvalid
  {
  }

  /** A transport error never passes: "ERROR: " starts differently from
      every status prefix, so the case fails and the run goes on. */
  lemma RaisedFails(tc: TestCase, message: string)
    requires tc in Catalog()
    ensures !Passes(tc, Raised(message))
  {
    CatalogExpectations();
    var r := "ERROR: " + message;
    assert r[0] == 'E';
    assert tc.expected[0] == 'G';
    NotStartsWithAt(r, tc.expected, 0);
  }

  /** A run in which every exchange raised fails every case. */
  lemma AllRaisedAllFail(exchanges: seq<Exchange>, verdicts: seq<bool>)
    requires |exchanges| == |Catalog()| == |verdicts|
    requires forall i :: 0 <= i < |Catalog()| ==> exchanges[i].Raised?
    requires forall i :: 0 <= i < |Catalog()| ==> (verdicts[i] <==> Passes(Catalog()[i], exchanges[i]))
    ensures forall i :: 0 <= i < |verdicts| ==> !verdicts[i]
  {
    forall i | 0 <= i < |verdicts| ensures !verdicts[i] {
      RaisedFails(Catalog()[i], exchanges[i].message);
    }
  }

  /** The INVALID header `gfs_sendheader` writes meets the INVALID
      expectation once its blank line is stripped. */
  lemma InvalidHeaderPasses(tc: TestCase)
    requires tc.expected == ExpectInvalid
    ensures Passes(tc, Replied(HeaderText(Code(Invalid), 0)))
  {
    var h := HeaderText(Code(Invalid), 0);
    assert h == ExpectInvalid + CRLFCRLF;
    StripTrailing(ExpectInvalid, CRLFCRLF);
    assert ExpectInvalid[..|ExpectInvalid|] == ExpectInvalid;
  }

  /** A request that fails the "GETFILE GET /" prefix is answered with the
      INVALID header before any handler runs. */
  lemma PrefixRejected(req: string, k: nat)
    requires 0 < |req| < 1024 && NUL !in req
    requires k < |GfServer.RequestPrefix| && k < |req| && req[k] != GfServer.RequestPrefix[k]
    ensures GfServer.Serve(GfServer.Received(req)) == GfServer.Rejected(HeaderText(Code(Invalid), 0))
  {
    NotStartsWithAt(req, GfServer.RequestPrefix, k);
    GfServer.ValidateRequestIff(req);
  }

  /** The requests of the INVALID cases, each with a position where it
      departs from "GETFILE GET /". */
  const InvalidRequests: seq<(string, nat)> := [
    ("GETFILE GET no/leading/slash\r\n\r\n", 12), ("INVALID REQUEST\r\n\r\n", 0),
    ("GETFILEGET /valid/path\r\n\r\n", 7), ("GETFILE    GET /valid/path\r\n\r\n", 8),
    ("GETFILE GET      /valid/path\r\n\r\n", 12)
  ]

  lemma InvalidRequestRejected(req: string, k: nat)
    requires (req, k) in InvalidRequests
    ensures GfServer.Serve(GfServer.Received(req)) == GfServer.Rejected(HeaderText(Code(Invalid), 0))
  {
    PrefixRejected(req, k);
  }

  /** The no-leading-slash, malformed, missing-space and extra-space cases
      are all stopped by the prefix check, and each passes on the reply the
      server sends. */
  lemma InvalidCasesRejected(i: nat)
    requires i in {2, 3, 5, 6, 7}
    ensures Catalog()[i].expected == ExpectInvalid
    ensures GfServer.Serve(GfServer.Received(Catalog()[i].request)) == GfServer.Rejected(HeaderText(Code(Invalid), 0))
    ensures Passes(Catalog()[i], Replied(HeaderText(Code(Invalid), 0)))
  {
    var k := if i == 2 then 12 else if i == 3 then 0 else if i == 5 then 7 else if i == 6 then 8 else 12;
    InvalidRequestRejected(Catalog()[i].request, k);
    InvalidHeaderPasses(Catalog()[i]);
  }


  /** The 500-character path case passes the validator: the server hands
      the path to its handler, so a FILE_NOT_FOUND reply to it comes from
      the handler and not from validation. */
  lemma LongPathHandled()
    ensures Catalog()[4].request == RequestText(LongPath)
    ensures GfServer.Serve(GfServer.Received(Catalog()[4].request)) == GfServer.Handled(Some(LongPath))
  {
    LongCaseRequest();
    LongPathServable();
    GfServer.ServeRoundTrip(LongPath);
  }

  /** The fifth case's request is the request line of the long path. */
  lemma LongCaseRequest()
    ensures Catalog()[4].request == RequestText(LongPath)
  {
  }

  /** The long path is absolute, 515 characters long, with no space, CR
      or NUL. */
  lemma LongPathServable()
    ensures GfServer.ServablePath(LongPath) && NUL !in LongPath && |LongPath| == 515
  {
    var p := LongPath;
    forall k | 0 <= k < |p| ensures p[k] != ' ' && p[k] != '\r' && p[k] != NUL {
      if k < 15 { assert p[k] == "/path/too/long/"[k]; }
      else { assert p[k] == Repeat('a', 500)[k - 15]; }
    }
  }

  /** Lower-case letters, digits, '/' and '.': the characters of the
      catalogue's paths. */
  predicate PlainChar(c: char)
  {
    'a' <= c <= 'z' || '0' <= c <= '9' || c == '/' || c == '.'
  }

  /** An absolute path of plain characters is servable and NUL-free. */
  lemma PlainPathServable(p: string)
    requires |p| > 0 && p[0] == '/'
    requires forall k :: 0 <= k < |p| ==> PlainChar(p[k])
    ensures GfServer.ServablePath(p) && NUL !in p
  {
    assert forall c :: c in p ==> PlainChar(c);
  }

  /** The short paths are served: absolute, with no space, CR or NUL. */
  lemma ShortRequestHandled(p: string)
    requires p in [YellowstonePath, MissingPath]
    ensures GfServer.Serve(GfServer.Received(RequestText(p))) == GfServer.Handled(Some(p))
  {
    PlainPathServable(p);
    GfServer.ServeRoundTrip(p);
  }

  /** The two well-formed short cases are dispatched with their paths. */
  lemma WellFormedCasesHandled(i: nat)
    requires i < 2
    ensures Catalog()[i].request == RequestText([YellowstonePath, MissingPath][i])
    ensures GfServer.Serve(GfServer.Received(Catalog()[i].request)) == GfServer.Handled(Some([YellowstonePath, MissingPath][i]))
  {
    ShortRequestHandled([YellowstonePath, MissingPath][i]);
  }
}
