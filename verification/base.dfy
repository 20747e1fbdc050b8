/** Small shared vocabulary: an Option type, bytes, and the C string
    operations (strncmp prefix test, strstr, strchr, a space count, the
    NUL-terminated view of a buffer) that the GETFILE code is built from. */
module Base {

  datatype Option<+T> = None | Some(value: T)

  /** One octet of file or message content. */
  type Byte = b: int | 0 <= b < 256

  const NUL: char := 0 as char
  const CRLFCRLF: string := "\r\n\r\n"

  /** `strncmp(s, p, strlen(p)) == 0` on a C string `s`. */
  predicate StartsWith<T(==)>(s: seq<T>, p: seq<T>)
  {
    |p| <= |s| && s[..|p|] == p
  }

  predicate OccursAt<T(==)>(s: seq<T>, t: seq<T>, i: int)
  {
    0 <= i && i + |t| <= |s| && s[i..i + |t|] == t
  }

  predicate Contains<T(==)>(s: seq<T>, t: seq<T>)
  {
    exists i | 0 <= i <= |s| :: OccursAt(s, t, i)
  }

  /** The first occurrence of `t` in `s` at or after `from`: `strstr`
      (or `strchr` when `t` is one character) started at `s + from`. */
  function FindFrom<T(==)>(s: seq<T>, t: seq<T>, from: nat): (r: Option<nat>)
    ensures r.Some? ==> from <= r.value && OccursAt(s, t, r.value)
    ensures r.Some? ==> forall k :: from <= k < r.value ==> !OccursAt(s, t, k)
    ensures r.None? ==> forall k :: from <= k ==> !OccursAt(s, t, k)
    decreases |s| - from
  {
    if from + |t| > |s| then None
    else if s[from..from + |t|] == t then Some(from)
    else FindFrom(s, t, from + 1)
  }

  /** Pins down FindFrom from an occurrence that has no earlier one. */
  lemma FindFromIs<T>(s: seq<T>, t: seq<T>, from: nat, i: nat)
    requires from <= i && OccursAt(s, t, i)
    requires forall k :: from <= k < i ==> !OccursAt(s, t, k)
    ensures FindFrom(s, t, from) == Some(i)
  {
    var r := FindFrom(s, t, from);
  }

  /** `strchr(s + from, c)` finds position `i` when `c` is there and not
      before it. */
  lemma FindCharAt<T>(s: seq<T>, c: T, from: nat, i: nat)
    requires from <= i < |s| && s[i] == c
    requires forall k :: from <= k < i ==> s[k] != c
    ensures FindFrom(s, [c], from) == Some(i)
  {
    forall k | from <= k < i ensures !OccursAt(s, [c], k) {
      assert s[k..k + 1][0] == s[k];
    }
    assert s[i..i + 1] == [c];
    FindFromIs(s, [c], from, i);
  }

  /** A match found inside `a` is still the first one once `b` is appended. */
  lemma FindFromExtend<T>(a: seq<T>, b: seq<T>, t: seq<T>, from: nat)
    requires FindFrom(a, t, from).Some?
    ensures FindFrom(a + b, t, from) == FindFrom(a, t, from)
  {
    var i := FindFrom(a, t, from).value;
    assert (a + b)[i..i + |t|] == a[i..i + |t|];
    forall k | from <= k < i ensures !OccursAt(a + b, t, k) {
      assert !OccursAt(a, t, k);
      assert k + |t| <= |a|;
      assert (a + b)[k..k + |t|] == a[k..k + |t|];
    }
    FindFromIs(a + b, t, from, i);
  }

  lemma ContainsIffFound<T>(s: seq<T>, t: seq<T>)
    ensures Contains(s, t) <==> FindFrom(s, t, 0).Some?
  {
    if FindFrom(s, t, 0).Some? {
      var i := FindFrom(s, t, 0).value;
      assert 0 <= i <= |s| && OccursAt(s, t, i);
    }
  }

  /** Number of occurrences of `c`, as the `strchr` counting loops compute it. */
  function Count<T(==)>(s: seq<T>, c: T): nat
  {
    multiset(s)[c]
  }

  /** The characters a C string function sees in a buffer: those before the
      first NUL. */
  function CString(buf: string): (r: string)
    ensures |r| <= |buf| && r == buf[..|r|]
    ensures NUL !in r
    ensures |r| < |buf| ==> buf[|r|] == NUL
  {
    if |buf| == 0 || buf[0] == NUL then [] else [buf[0]] + CString(buf[1..])
  }

  lemma {:induction false} CStringOfNulFree(s: string)
    requires NUL !in s
    ensures CString(s) == s
  {
    if |s| > 0 {
      assert s[1..] == s[1..];
      assert NUL !in s[1..] by {
        forall k | 0 <= k < |s[1..]| ensures s[1..][k] != NUL {
          assert s[1..][k] == s[k + 1];
        }
      }
      CStringOfNulFree(s[1..]);
      assert s == [s[0]] + s[1..];
    }
  }

  lemma {:induction false} CStringOfConcat(a: string, b: string)
    requires NUL !in a
    ensures CString(a + b) == a + CString(b)
  {
    if |a| > 0 {
      assert (a + b)[0] == a[0];
      assert (a + b)[1..] == a[1..] + b;
      assert NUL !in a[1..] by {
        forall k | 0 <= k < |a[1..]| ensures a[1..][k] != NUL {
          assert a[1..][k] == a[k + 1];
        }
      }
      CStringOfConcat(a[1..], b);
      assert a == [a[0]] + a[1..];
    } else {
      assert a + b == b;
    }
  }

  /** `n` copies of `x`, as Python's `x * n`. */
  function Repeat<T>(x: T, n: nat): (r: seq<T>)
    ensures |r| == n
    ensures forall k :: 0 <= k < n ==> r[k] == x
  {
    seq(n, _ => x)
  }

  /** The concatenation of a sequence of pieces. */
  function Flatten<T>(pieces: seq<seq<T>>): seq<T>
  {
    if |pieces| == 0 then [] else pieces[0] + Flatten(pieces[1..])
  }

  lemma {:induction false} FlattenAppend<T>(a: seq<seq<T>>, b: seq<seq<T>>)
    ensures Flatten(a + b) == Flatten(a) + Flatten(b)
  {
    if |a| == 0 {
      assert a + b == b;
    } else {
      assert (a + b)[0] == a[0];
      assert (a + b)[1..] == a[1..] + b;
      FlattenAppend(a[1..], b);
    }
  }

  lemma FlattenSnoc<T>(a: seq<seq<T>>, x: seq<T>)
    ensures Flatten(a + [x]) == Flatten(a) + x
  {
    FlattenAppend(a, [x]);
    assert Flatten([x]) == x + Flatten([x][1..]);
    assert [x][1..] == [];
  }

  function Sum(xs: seq<nat>): nat
  {
    if |xs| == 0 then 0 else xs[0] + Sum(xs[1..])
  }

  lemma {:induction false} SumSnoc(xs: seq<nat>, x: nat)
    ensures Sum(xs + [x]) == Sum(xs) + x
  {
    if |xs| == 0 {
      assert xs + [x] == [x];
      assert Sum([x]) == x + Sum([x][1..]);
    } else {
      assert (xs + [x])[0] == xs[0];
      assert (xs + [x])[1..] == xs[1..] + [x];
      SumSnoc(xs[1..], x);
    }
  }

  lemma NotStartsWithAt<T>(s: seq<T>, p: seq<T>, k: nat)
    requires k < |p| && k < |s| && s[k] != p[k]
    ensures !StartsWith(s, p)
  {
    if |p| <= |s| {
      assert s[..|p|][k] == s[k];
    }
  }
}
