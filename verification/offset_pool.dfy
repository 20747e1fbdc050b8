/** The proxy's pool of free shared-memory segment offsets: a FIFO queue
    filled by `shm_offset_pool_init`, popped by
    `shm_channel_acquire_segment`, refilled by `shm_channel_release_segment`
    and drained by `shm_offset_pool_destroy`. The semaphore, mutex and
    malloc results are inputs; offsets are `size_t` values. */
module OffsetPool {
  import opened Base
  import opened Decimal

  /** 2^64: `size_t` arithmetic is modulo this. */
  const SIZE_MOD: nat := SIZE_MAX + 1
  const SSIZE_MAX: nat := 0x7FFF_FFFF_FFFF_FFFF
  const INT_MAX: nat := 0x7FFF_FFFF

  /** The segment size and the queue of free offsets, head first. */
  datatype Pool = Pool(segmentSize: nat, queue: seq<nat>)

  /** Every queued offset is a `size_t`. */
  predicate Valid(p: Pool)
  {
    p.segmentSize <= SIZE_MAX && forall i :: 0 <= i < |p.queue| ==> p.queue[i] <= SIZE_MAX
  }

  /** `i * segment_size` as the C expression computes it: `i` converted to
      `size_t` and the product taken modulo 2^64. */
  function Offset(s: nat, i: nat): (r: nat)
    ensures r <= SIZE_MAX
  {
    (i * s) % SIZE_MOD
  }

  /** `segment_size * segment_count`, the size `ipc_init` maps. */
  function RegionSize(s: nat, n: nat): (r: nat)
    ensures r <= SIZE_MAX
  {
    (s * n) % SIZE_MOD
  }

  /** `shm_offset_pool_init(s, n)`. `mallocFailsAt` is the iteration whose
      `malloc` returns NULL, if any; the offsets enqueued before it stay.
      The loop counter is an `int`, so `n` is at most `INT_MAX`. */
  method InitPool(s: nat, n: nat, mallocFailsAt: Option<nat>) returns (rc: int, pool: Pool)
    requires s <= SIZE_MAX && n <= INT_MAX
    ensures Valid(pool) && pool.segmentSize == s
    ensures rc == 0 || rc == -1
    ensures rc == 0 <==> !(mallocFailsAt.Some? && mallocFailsAt.value < n)
    ensures rc == 0 ==> |pool.queue| == n
    ensures rc == -1 ==> mallocFailsAt.Some? && |pool.queue| == mallocFailsAt.value
    ensures forall i :: 0 <= i < |pool.queue| ==> pool.queue[i] == Offset(s, i)
  {
    pool := Pool(s, []);
    var i := 0;
    while i < n
      invariant 0 <= i <= n
      invariant pool.segmentSize == s && |pool.queue| == i
      invariant forall k :: 0 <= k < i ==> pool.queue[k] == Offset(s, k)
      invariant forall k :: 0 <= k < i ==> mallocFailsAt != Some(k)
    {
      if mallocFailsAt == Some(i) {
        rc := -1;
        return;
      }
      pool := pool.(queue := pool.queue + [Offset(s, i)]);
      i := i + 1;
    }
    rc := 0;
  }

  lemma {:induction false} MulStep(i: nat, j: nat, s: nat)
    requires i < j
    ensures i * s + s <= j * s
    decreases j
  {
    assert j * s == (j - 1) * s + s;
    if i < j - 1 {
      MulStep(i, j - 1, s);
    }
  }

  /** Without wrap-around the pool holds the n multiples 0, s, ..., (n-1)s
      in increasing order, so no two are equal, and each segment lies
      inside the mapped region. */
  lemma OffsetsLayout(s: nat, n: nat)
    requires 0 < s && s * n <= SIZE_MAX
    ensures forall i :: 0 <= i < n ==> Offset(s, i) == i * s && Offset(s, i) + s <= RegionSize(s, n)
    ensures forall i, j :: 0 <= i < j < n ==> Offset(s, i) < Offset(s, j)
  {
    forall i | 0 <= i < n ensures Offset(s, i) == i * s && Offset(s, i) + s <= RegionSize(s, n) {
      MulStep(i, n, s);
    }
    forall i, j | 0 <= i < j < n ensures Offset(s, i) < Offset(s, j) {
      MulStep(i, n, s);
      MulStep(j, n, s);
      MulStep(i, j, s);
    }
  }

  /** The `ssize_t` the acquire returns for an offset: values above
      `SSIZE_MAX` come out negative. */
  function ToSsize(o: nat): (r: int)
    requires o <= SIZE_MAX
    ensures -(SSIZE_MAX as int) - 1 <= r <= SSIZE_MAX
    ensures o <= SSIZE_MAX ==> r == o
  {
    if o <= SSIZE_MAX then o else o - SIZE_MOD
  }

  /** The `size_t` an `ssize_t` becomes when passed back to the release. */
  function ToSize(x: int): (r: nat)
    ensures r <= SIZE_MAX
  {
    x % SIZE_MOD
  }

  /** Handing the acquired `ssize_t` back to the release restores the
      offset. */
  lemma SsizeRoundTrip(o: nat)
    requires o <= SIZE_MAX
    ensures ToSize(ToSsize(o)) == o
  {
  }

  /** Results of `sem_wait`, `pthread_mutex_lock` and `pthread_mutex_unlock`. */
  datatype AcquireIo = AcquireIo(semOk: bool, lockOk: bool, unlockOk: bool)

  datatype Taken = Taken(result: int, pool: Pool)

  /** `shm_channel_acquire_segment`: pop the head under the mutex. A failed
      unlock returns -1 after the pop, so that offset is lost. An empty
      queue is taken to pop NULL, which the source's `!ptr` check turns
      into -1. */
  function Acquire(p: Pool, io: AcquireIo): (r: Taken)
    requires Valid(p)
    ensures Valid(r.pool) && r.pool.segmentSize == p.segmentSize
    ensures !io.semOk || !io.lockOk || |p.queue| == 0 ==> r == Taken(-1, p)
    ensures io.semOk && io.lockOk && |p.queue| > 0 ==> r.pool.queue == p.queue[1..]
    ensures io.semOk && io.lockOk && |p.queue| > 0 ==> r.result == (if io.unlockOk then ToSsize(p.queue[0]) else -1)
  {
    if !io.semOk || !io.lockOk then Taken(-1, p)
    else
      var popped := if |p.queue| > 0 then p.(queue := p.queue[1..]) else p;
      if !io.unlockOk then Taken(-1, popped)
      else if |p.queue| == 0 then Taken(-1, popped)
      else Taken(ToSsize(p.queue[0]), popped)
  }

  /** Results of `malloc`, `pthread_mutex_lock`, `pthread_mutex_unlock` and
      `sem_post`. */
  datatype ReleaseIo = ReleaseIo(mallocOk: bool, lockOk: bool, unlockOk: bool, postOk: bool)

  datatype Released = Released(result: int, pool: Pool)

  /** `shm_channel_release_segment(o)`: append `o` at the tail. A failure
      after the enqueue still returns -1 with `o` queued. */
  function Release(p: Pool, o: nat, io: ReleaseIo): (r: Released)
    requires Valid(p) && o <= SIZE_MAX
    ensures Valid(r.pool) && r.pool.segmentSize == p.segmentSize
    ensures r.result == 0 || r.result == -1
    ensures r.result == 0 <==> io.mallocOk && io.lockOk && io.unlockOk && io.postOk
    ensures io.mallocOk && io.lockOk ==> r.pool.queue == p.queue + [o]
    ensures !(io.mallocOk && io.lockOk) ==> r.pool == p
  {
    if !io.mallocOk || !io.lockOk then Released(-1, p)
    else
      var after := p.(queue := p.queue + [o]);
      if !io.unlockOk || !io.postOk then Released(-1, after) else Released(0, after)
  }

  predicate AcquireIoOk(io: AcquireIo) { io.semOk && io.lockOk && io.unlockOk }

  predicate ReleaseIoOk(io: ReleaseIo) { io.mallocOk && io.lockOk && io.unlockOk && io.postOk }

  /** Acquiring a segment and releasing what came back keeps the same
      offsets in the pool, the acquired one now at the tail. */
  lemma AcquireReleaseConserves(p: Pool, aio: AcquireIo, rio: ReleaseIo)
    requires Valid(p) && |p.queue| > 0 && AcquireIoOk(aio) && ReleaseIoOk(rio)
    ensures var t := Acquire(p, aio);
            var r := Release(t.pool, ToSize(t.result), rio);
            r.result == 0
            && r.pool.queue == p.queue[1..] + [p.queue[0]]
            && multiset(r.pool.queue) == multiset(p.queue)
  {
    SsizeRoundTrip(p.queue[0]);
    assert p.queue == [p.queue[0]] + p.queue[1..];
  }

  /** Destroying the pool: pop and free every entry until it is empty. */
  method DestroyPool(p: Pool) returns (freed: seq<nat>, after: Pool)
    ensures freed == p.queue
    ensures after == p.(queue := [])
  {
    after := p;
    freed := [];
    while |after.queue| > 0
      invariant after.segmentSize == p.segmentSize
      invariant freed + after.queue == p.queue
      decreases |after.queue|
    {
      var ptr := after.queue[0];
      after := after.(queue := after.queue[1..]);
      freed := freed + [ptr];
    }
  }

  /** The pool together with the offsets its users hold and those lost to
      failed calls (the callers ignore the release's result and drop the
      offset either way). */
  datatype Ledger = Ledger(pool: Pool, held: multiset<nat>, lost: multiset<nat>)

  datatype PoolEvent = Take(aio: AcquireIo) | Give(offset: nat, rio: ReleaseIo)

  predicate LedgerValid(l: Ledger)
  {
    Valid(l.pool) && forall o :: o in l.held ==> o <= SIZE_MAX
  }

  /** One event. A take that pops but returns -1 (a failed unlock, or the
      offset whose `ssize_t` is -1) loses the popped offset; a give that
      fails before the enqueue loses the given one. */
  function Step(l: Ledger, e: PoolEvent): (r: Ledger)
    requires LedgerValid(l)
    requires e.Give? ==> e.offset in l.held
    ensures LedgerValid(r)
  {
    match e
    case Take(aio) =>
      var t := Acquire(l.pool, aio);
      if |t.pool.queue| == |l.pool.queue| then l.(pool := t.pool)
      else if t.result == -1 then Ledger(t.pool, l.held, l.lost + multiset{l.pool.queue[0]})
      else Ledger(t.pool, l.held + multiset{l.pool.queue[0]}, l.lost)
    case Give(o, rio) =>
      var r := Release(l.pool, o, rio);
      if |r.pool.queue| > |l.pool.queue| then Ledger(r.pool, l.held - multiset{o}, l.lost)
      else Ledger(r.pool, l.held - multiset{o}, l.lost + multiset{o})
  }

  /** Everything the ledger accounts for. */
  function Total(l: Ledger): multiset<nat>
  {
    multiset(l.pool.queue) + l.held + l.lost
  }

  /** No event creates or destroys an offset: it only moves between the
      queue, a holder and the lost ones. */
  lemma StepConserves(l: Ledger, e: PoolEvent)
    requires LedgerValid(l)
    requires e.Give? ==> e.offset in l.held
    ensures Total(Step(l, e)) == Total(l)
  {
    match e
    case Take(aio) => TakeConserves(l, aio);
    case Give(o, rio) => GiveConserves(l, o, rio);
  }

  lemma TakeConserves(l: Ledger, aio: AcquireIo)
    requires LedgerValid(l)
    ensures Total(Step(l, Take(aio))) == Total(l)
  {
    var q := l.pool.queue;
    var t := Acquire(l.pool, aio);
    if |t.pool.queue| != |q| {
      assert q == [q[0]] + t.pool.queue;
      assert multiset(q) == multiset{q[0]} + multiset(t.pool.queue);
    }
  }

  lemma GiveConserves(l: Ledger, o: nat, rio: ReleaseIo)
    requires LedgerValid(l) && o in l.held
    ensures Total(Step(l, Give(o, rio))) == Total(l)
  {
    var r := Release(l.pool, o, rio);
    assert l.held == (l.held - multiset{o}) + multiset{o};
    if |r.pool.queue| > |l.pool.queue| {
      assert multiset(r.pool.queue) == multiset(l.pool.queue) + multiset{o};
    }
  }

  /** Every give in `events` gives back an offset held at that point. */
  predicate Disciplined(l: Ledger, events: seq<PoolEvent>)
    requires LedgerValid(l)
    decreases |events|
  {
    |events| == 0
    || ((events[0].Give? ==> events[0].offset in l.held) && Disciplined(Step(l, events[0]), events[1..]))
  }

  function RunLedger(l: Ledger, events: seq<PoolEvent>): (r: Ledger)
    requires LedgerValid(l) && Disciplined(l, events)
    ensures LedgerValid(r)
    decreases |events|
  {
    if |events| == 0 then l else RunLedger(Step(l, events[0]), events[1..])
  }

  lemma {:induction false} RunConserves(l: Ledger, events: seq<PoolEvent>)
    requires LedgerValid(l) && Disciplined(l, events)
    ensures Total(RunLedger(l, events)) == Total(l)
    decreases |events|
  {
    if |events| > 0 {
      StepConserves(l, events[0]);
      RunConserves(Step(l, events[0]), events[1..]);
    }
  }

  /** No offset is accounted for twice. */
  predicate NoDuplicates(m: multiset<nat>)
  {
    forall o :: o in m ==> m[o] == 1
  }

  /** With every offset accounted for once, a successful take never hands
      out an offset somebody already holds. */
  lemma ExclusiveGrant(l: Ledger, aio: AcquireIo)
    requires LedgerValid(l) && NoDuplicates(Total(l))
    requires AcquireIoOk(aio) && |l.pool.queue| > 0
    ensures l.pool.queue[0] !in l.held
  {
    var o := l.pool.queue[0];
    assert o in multiset(l.pool.queue);
    assert Total(l)[o] == multiset(l.pool.queue)[o] + l.held[o] + l.lost[o];
  }

  /** `pmq_consume_request`: `received` is `mq_receive`'s byte count, `None`
      for its -1; anything but exactly one whole response is a failure. */
  function ConsumeRequest(received: Option<nat>, responseSize: nat): (rc: int)
    ensures rc == 0 || rc == -1
    ensures rc == 0 <==> received == Some(responseSize)
  {
    if received.None? then -1
    else if received.value != responseSize then -1
    else 0
  }
}
