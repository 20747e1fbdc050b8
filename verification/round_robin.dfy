/** The round-robin test HTTP server: every request gets the next code of a
    fixed list of error statuses, cycling, under a mutex (so requests are
    served one at a time, in some order). */
module RoundRobin {
  import opened Getfile
  import Proxy

  /** `statusCodes`. */
  const StatusCodes: seq<int> := [400, 401, 404, 403, 500, 502, 503]
  const CODE_COUNT: nat := 7

  /** What `testHandler` answers and the `index` it leaves. */
  datatype Answered = Answered(code: int, index: nat)

  /** `testHandler`, given the shared `index`. */
  function TestHandler(index: nat): (r: Answered)
    requires index < CODE_COUNT
    ensures r.index < CODE_COUNT
    ensures r.code == StatusCodes[index]
    ensures r.index == if index == CODE_COUNT - 1 then 0 else index + 1
  {
    Answered(StatusCodes[index], (index + 1) % |StatusCodes|)
  }

  /** The codes of `n` requests served in turn from `index`, and the index
      after them. */
  datatype Served = Served(codes: seq<int>, index: nat)

  function Serve(index: nat, n: nat): (r: Served)
    requires index < CODE_COUNT
    ensures |r.codes| == n && r.index < CODE_COUNT
    decreases n
  {
    if n == 0 then Served([], index)
    else
      var a := TestHandler(index);
      var rest := Serve(a.index, n - 1);
      Served([a.code] + rest.codes, rest.index)
  }

  /** Starting from any index, the `k`-th later request gets the code `k`
      places further round the list, and `index` ends `n` places on. */
  lemma {:induction false} ServeRotates(index: nat, n: nat)
    requires index < CODE_COUNT
    ensures Serve(index, n).index == (index + n) % CODE_COUNT
    ensures forall k :: 0 <= k < n ==> Serve(index, n).codes[k] == StatusCodes[(index + k) % CODE_COUNT]
    decreases n
  {
    if n > 0 {
      var next := TestHandler(index).index;
      ServeRotates(next, n - 1);
      assert next == (index + 1) % CODE_COUNT;
      var r := Serve(index, n);
      forall k | 0 <= k < n ensures r.codes[k] == StatusCodes[(index + k) % CODE_COUNT] {
        if k > 0 {
          assert r.codes[k] == Serve(next, n - 1).codes[k - 1];
          assert (next + (k - 1)) % CODE_COUNT == (index + k) % CODE_COUNT;
        }
      }
    }
  }

  /** From the server's start, request `n` (counting from 0) gets
      `statusCodes[n mod 7]`. */
  lemma NthRequest(n: nat, k: nat)
    requires k < n
    ensures Serve(0, n).codes[k] == StatusCodes[k % CODE_COUNT]
    ensures Serve(0, n).index == n % CODE_COUNT
  {
    ServeRotates(0, n);
  }

  /** No code is listed twice. */
  lemma CodesDistinct()
    ensures forall i, j :: 0 <= i < j < CODE_COUNT ==> StatusCodes[i] != StatusCodes[j]
  {
  }

  lemma RotationMultiset<T>(s: seq<T>, r: nat)
    requires r <= |s|
    ensures multiset(s[r..] + s[..r]) == multiset(s)
  {
    assert s == s[..r] + s[r..];
  }

  lemma ModShift(m: nat, i: nat)
    requires i < CODE_COUNT
    ensures var r := m % CODE_COUNT;
            (m + i) % CODE_COUNT == if r + i < CODE_COUNT then r + i else r + i - CODE_COUNT
  {
    var q := m / CODE_COUNT;
    var r := m % CODE_COUNT;
    assert m + i == CODE_COUNT * q + (r + i);
    if r + i < CODE_COUNT {
      assert (m + i) / CODE_COUNT == q;
    } else {
      assert m + i == CODE_COUNT * (q + 1) + (r + i - CODE_COUNT);
      assert (m + i) / CODE_COUNT == q + 1;
    }
  }

  /** The list rotated left by `r` holds at `i` the code `(r + i) mod 7`. */
  lemma RotationAt(r: nat, i: nat)
    requires r < CODE_COUNT && i < CODE_COUNT
    ensures (StatusCodes[r..] + StatusCodes[..r])[i]
            == StatusCodes[if r + i < CODE_COUNT then r + i else r + i - CODE_COUNT]
  {
  }

  /** Any seven consecutive requests get every listed code once: their
      codes are the list rotated. */
  lemma WindowIsPermutation(n: nat, m: nat)
    requires m + CODE_COUNT <= n
    ensures var w := Serve(0, n).codes[m..m + CODE_COUNT];
            w == StatusCodes[m % CODE_COUNT..] + StatusCodes[..m % CODE_COUNT]
            && multiset(w) == multiset(StatusCodes)
  {
    var codes := Serve(0, n).codes;
    ServeRotates(0, n);
    var w := codes[m..m + CODE_COUNT];
    var r := m % CODE_COUNT;
    var rot := StatusCodes[r..] + StatusCodes[..r];
    forall i | 0 <= i < CODE_COUNT ensures w[i] == rot[i] {
      assert w[i] == codes[m + i];
      ModShift(m, i);
      RotationAt(r, i);
    }
    assert w == rot;
    RotationMultiset(StatusCodes, r);
  }

  /** Every answer is an RFC 9110 client or server error, so a proxy in
      front of this server never relays OK: `handle_with_curl` relays 404
      as FILE_NOT_FOUND and the rest as ERROR, and the cache's miss path
      also turns 403 into FILE_NOT_FOUND. */
  lemma NeverOk(i: nat)
    requires i < CODE_COUNT
    ensures Proxy.ClientError(StatusCodes[i]) || Proxy.ServerError(StatusCodes[i])
    ensures Proxy.CurlStatus(StatusCodes[i]) == (if i == 2 then FileNotFound else Error)
    ensures Proxy.CacheMissStatus(StatusCodes[i]) == (if i == 2 || i == 3 then FileNotFound else Error)
  {
    Proxy.ErrorClassesRelayed(StatusCodes[i]);
  }
}
