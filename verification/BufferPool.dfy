/** The I/O buffer pool: first-fit reuse with swap-and-pop removal. */
module BufferPool {
  import opened Bits

  const PAGE := 4096
  const ADDRESSES := 0x1_0000_0000_0000_0000

  /** (size + 4095) & ~4095 in 32-bit arithmetic. */
  function AlignUp32(size: nat): nat {
    var sum := (size + (PAGE - 1)) % UINT32_RANGE;
    sum - sum % PAGE
  }

  /** The aligned size is a whole number of pages, and covers the request if and only
      if adding 4095 does not wrap. */
  lemma {:induction false} AlignCovers(size: nat)
    requires size < UINT32_RANGE
    ensures AlignUp32(size) % 4096 == 0
    ensures AlignUp32(size) >= size <==> size <= UINT32_RANGE - 4096
    ensures size <= UINT32_RANGE - 4096 ==> AlignUp32(size) < size + 4096
  {
    var sum := (size + (PAGE - 1)) % UINT32_RANGE;
    assert sum == size + (PAGE - 1) || sum == size + (PAGE - 1) - UINT32_RANGE;
  }

  datatype Entry = Entry(buf: nat, capacity: nat)

  /** The free buffers, the lent ones with their capacities, and every buffer
      allocated so far (owned). */
  datatype PoolState = PoolState(pool: seq<Entry>, outstanding: map<nat, nat>, owned: map<nat, nat>)

  predicate Pooled(pool: seq<Entry>, buf: nat) {
    exists i :: 0 <= i < |pool| && pool[i].buf == buf
  }

  /** Index of the first entry with enough capacity, or |pool|. */
  function FirstFit(pool: seq<Entry>, need: nat): (i: nat)
    ensures i <= |pool|
    ensures i < |pool| ==> pool[i].capacity >= need
    ensures forall j :: 0 <= j < i ==> pool[j].capacity < need
  {
    if pool == [] || pool[0].capacity >= need then 0 else 1 + FirstFit(pool[1..], need)
  }

  function SwapPop(pool: seq<Entry>, i: nat): seq<Entry>
    requires i < |pool|
  {
    pool[i := pool[|pool| - 1]][..|pool| - 1]
  }

  /** raw is the address the allocator would answer with. */
  function AfterAcquire(s: PoolState, size: nat, raw: nat): (r: (PoolState, nat)) {
    var need := AlignUp32(size);
    var i := FirstFit(s.pool, need);
    if i < |s.pool| then
      var e := s.pool[i];
      (s.(pool := SwapPop(s.pool, i), outstanding := s.outstanding[e.buf := e.capacity]), e.buf)
    else
      (s.(outstanding := s.outstanding[raw := need], owned := s.owned[raw := need]), raw)
  }

  function AfterRelease(s: PoolState, buf: nat): PoolState {
    if buf !in s.outstanding then s
    else s.(pool := s.pool + [Entry(buf, s.outstanding[buf])], outstanding := s.outstanding - {buf})
  }

  function AfterPrime(s: PoolState, size: nat, raws: seq<nat>): PoolState
    decreases |raws|
  {
    if raws == [] then s
    else
      var need := AlignUp32(size);
      var t := AfterPrime(s, size, raws[..|raws| - 1]);
      var raw := raws[|raws| - 1];
      t.(pool := t.pool + [Entry(raw, need)], owned := t.owned[raw := need])
  }

  // ----- the pool -----

  class Pool {
    var pool: seq<Entry>
    var outstanding: map<nat, nat>
    ghost var owned: map<nat, nat>

    ghost function View(): PoolState
      reads this
    {
      PoolState(pool, outstanding, owned)
    }

    constructor ()
      ensures View() == PoolState([], map[], map[])
    {
      pool, outstanding, owned := [], map[], map[];
    }

    /** The allocator would answer raw. */
    method Acquire(size: nat, raw: nat) returns (buf: nat)
      requires size < UINT32_RANGE
      modifies this
      ensures (View(), buf) == AfterAcquire(old(View()), size, raw)
    {
      var alignedSize := AlignUp32(size);
      var i := 0;
      while i < |pool|
        invariant 0 <= i <= |pool| && View() == old(View())
        invariant FirstFit(pool, alignedSize) == i + FirstFit(pool[i..], alignedSize)
      {
        if pool[i].capacity >= alignedSize {
          buf := pool[i].buf;
          var cap := pool[i].capacity;
          pool := pool[i := pool[|pool| - 1]];
          pool := pool[..|pool| - 1];
          outstanding := outstanding[buf := cap];
          return;
        }
        assert pool[i..][1..] == pool[i + 1..];
        i := i + 1;
      }
      outstanding := outstanding[raw := alignedSize];
      owned := owned[raw := alignedSize];
      buf := raw;
    }

    method Release(buf: nat)
      modifies this
      ensures View() == AfterRelease(old(View()), buf)
    {
      if buf !in outstanding {
        return;
      }
      var cap := outstanding[buf];
      outstanding := outstanding - {buf};
      pool := pool + [Entry(buf, cap)];
    }

    /** Allocates |raws| buffers; the allocator answers with raws, in order. */
    method Prime(size: nat, raws: seq<nat>)
      requires size < UINT32_RANGE
      modifies this
      ensures View() == AfterPrime(old(View()), size, raws)
    {
      var alignedSize := AlignUp32(size);
      for i := 0 to |raws|
        invariant View() == AfterPrime(old(View()), size, raws[..i])
      {
        assert raws[..i + 1][..i] == raws[..i];
        pool := pool + [Entry(raws[i], alignedSize)];
        owned := owned[raws[i] := alignedSize];
      }
      assert raws[..|raws|] == raws;
    }
  }

  // ----- safety -----

  /** Free and lent buffers are the owned ones, apart and each once, with the
      capacities they were allocated with. */
  ghost predicate Safe(s: PoolState) {
    && (forall i :: 0 <= i < |s.pool| ==>
          && s.pool[i].buf in s.owned && s.owned[s.pool[i].buf] == s.pool[i].capacity
          && s.pool[i].buf !in s.outstanding)
    && (forall i, j :: 0 <= i < j < |s.pool| ==> s.pool[i].buf != s.pool[j].buf)
    && (forall b :: b in s.outstanding ==> b in s.owned && s.owned[b] == s.outstanding[b])
    && (forall b :: b in s.owned ==> b in s.outstanding || Pooled(s.pool, b))
    && (forall b :: b in s.owned ==> b < ADDRESSES && s.owned[b] % PAGE == 0)
  }

  /** A live address is never handed out by the allocator. */
  predicate FreshFor(s: PoolState, raw: nat) {
    raw < ADDRESSES && raw !in s.owned
  }

  lemma {:induction false} SwapPopEntries(pool: seq<Entry>, i: nat)
    requires i < |pool|
    ensures forall j :: 0 <= j < |pool| - 1 ==> SwapPop(pool, i)[j] == if j == i then pool[|pool| - 1] else pool[j]
    ensures forall b :: Pooled(pool, b) ==> b == pool[i].buf || Pooled(SwapPop(pool, i), b)
  {
    var n := |pool| - 1;
    forall b | Pooled(pool, b) && b != pool[i].buf ensures Pooled(SwapPop(pool, i), b) {
      var k :| 0 <= k < |pool| && pool[k].buf == b;
      assert SwapPop(pool, i)[if k == n then i else k].buf == b;
    }
  }

  lemma {:induction false} ReuseSafe(s: PoolState, i: nat)
    requires Safe(s) && i < |s.pool|
    ensures var e := s.pool[i];
      Safe(s.(pool := SwapPop(s.pool, i), outstanding := s.outstanding[e.buf := e.capacity]))
  {
    SwapPopEntries(s.pool, i);
  }

  lemma {:induction false} LendFreshSafe(s: PoolState, size: nat, raw: nat)
    requires Safe(s) && FreshFor(s, raw) && size < UINT32_RANGE
    ensures var need := AlignUp32(size);
      Safe(s.(outstanding := s.outstanding[raw := need], owned := s.owned[raw := need]))
  {
    AlignCovers(size);
  }

  /** What a caller gets: a buffer nobody holds, of whole pages and at least the aligned
      size; nothing already lent changes. */
  lemma {:induction false} AcquireIsSafe(s: PoolState, size: nat, raw: nat)
    requires Safe(s) && FreshFor(s, raw) && size < UINT32_RANGE
    ensures var (t, buf) := AfterAcquire(s, size, raw);
      && Safe(t) && buf !in s.outstanding
      && buf in t.outstanding && t.outstanding == s.outstanding[buf := t.outstanding[buf]]
      && t.outstanding[buf] % PAGE == 0 && t.outstanding[buf] >= AlignUp32(size)
      && (size <= UINT32_RANGE - PAGE ==> t.outstanding[buf] >= size)
  {
    AlignCovers(size);
    var i := FirstFit(s.pool, AlignUp32(size));
    if i < |s.pool| {
      ReuseSafe(s, i);
    } else {
      LendFreshSafe(s, size, raw);
    }
  }

  lemma {:induction false} ReleaseIsSafe(s: PoolState, buf: nat)
    requires Safe(s)
    ensures Safe(AfterRelease(s, buf))
  {
    if buf in s.outstanding {
      var pool := s.pool + [Entry(buf, s.outstanding[buf])];
      forall b | Pooled(s.pool, b) || b == buf ensures Pooled(pool, b) {
        if b == buf {
          assert pool[|s.pool|].buf == b;
        } else {
          var k :| 0 <= k < |s.pool| && s.pool[k].buf == b;
          assert pool[k].buf == b;
        }
      }
    }
  }

  /** Releasing an unknown or already released buffer changes nothing. */
  lemma {:induction false} ReleaseTwice(s: PoolState, buf: nat)
    ensures AfterRelease(AfterRelease(s, buf), buf) == AfterRelease(s, buf)
    ensures AfterRelease(s, buf) == s <==> buf !in s.outstanding
  {
    if buf in s.outstanding {
      assert |AfterRelease(s, buf).pool| == |s.pool| + 1;
    }
  }

  /** A released buffer is the last choice of the next acquire: what was pooled before and
      fits is returned first, then the released one, then a fresh one. */
  lemma {:induction false} ReleasedThenAcquired(s: PoolState, buf: nat, size: nat, raw: nat)
    requires buf in s.outstanding
    ensures var need, i := AlignUp32(size), FirstFit(s.pool, AlignUp32(size));
      AfterAcquire(AfterRelease(s, buf), size, raw).1 ==
        if i < |s.pool| then s.pool[i].buf else if s.outstanding[buf] >= need then buf else raw
  {
    FirstFitMore(s.pool, Entry(buf, s.outstanding[buf]), AlignUp32(size));
  }

  lemma {:induction false} FirstFitMore(pool: seq<Entry>, e: Entry, need: nat)
    ensures FirstFit(pool + [e], need) ==
      if FirstFit(pool, need) < |pool| then FirstFit(pool, need) else if e.capacity >= need then |pool| else |pool| + 1
  {
    if pool == [] {
      assert [] + [e] == [e];
    } else {
      assert (pool + [e])[1..] == pool[1..] + [e];
      FirstFitMore(pool[1..], e, need);
    }
  }

  predicate AllFresh(s: PoolState, raws: seq<nat>) {
    && (forall i :: 0 <= i < |raws| ==> FreshFor(s, raws[i]))
    && (forall i, j :: 0 <= i < j < |raws| ==> raws[i] != raws[j])
  }

  lemma {:induction false} PrimeIsSafe(s: PoolState, size: nat, raws: seq<nat>)
    requires Safe(s) && AllFresh(s, raws) && size < UINT32_RANGE
    ensures Safe(AfterPrime(s, size, raws))
    ensures AfterPrime(s, size, raws).outstanding == s.outstanding
    ensures forall raw :: FreshFor(s, raw) && raw !in raws ==> FreshFor(AfterPrime(s, size, raws), raw)
    decreases |raws|
  {
    if raws != [] {
      var n := |raws| - 1;
      PrimeIsSafe(s, size, raws[..n]);
      AddFreeSafe(AfterPrime(s, size, raws[..n]), size, raws[n]);
    }
  }

  /** Priming adds one free buffer of the aligned size per address, in order. */
  lemma {:induction false} PrimeAdds(s: PoolState, size: nat, raws: seq<nat>)
    ensures var t, need := AfterPrime(s, size, raws), AlignUp32(size);
      && |t.pool| == |s.pool| + |raws| && t.pool[..|s.pool|] == s.pool
      && (forall i :: 0 <= i < |raws| ==> t.pool[|s.pool| + i] == Entry(raws[i], need))
      && t.outstanding == s.outstanding
      && t.owned.Keys == s.owned.Keys + (set r | r in raws)
      && (forall r :: r in t.owned ==> t.owned[r] == if r in raws then need else s.owned[r])
    decreases |raws|
  {
    if raws != [] {
      var n := |raws| - 1;
      PrimeAdds(s, size, raws[..n]);
      assert raws == raws[..n] + [raws[n]];
    }
  }

  lemma {:induction false} AddFreeSafe(s: PoolState, size: nat, raw: nat)
    requires Safe(s) && FreshFor(s, raw) && size < UINT32_RANGE
    ensures var need := AlignUp32(size);
      Safe(s.(pool := s.pool + [Entry(raw, need)], owned := s.owned[raw := need]))
  {
    LendFreshSafe(s, size, raw);
    var need := AlignUp32(size);
    var t := s.(outstanding := s.outstanding[raw := need], owned := s.owned[raw := need]);
    ReleaseIsSafe(t, raw);
    assert t.outstanding - {raw} == s.outstanding;
  }

  // ----- runs -----

  datatype Call = CallAcquire(size: nat, raw: nat) | CallRelease(buf: nat) | CallPrime(size: nat, raws: seq<nat>)

  /** The sizes are 32-bit words and the allocator hands out no live address. */
  predicate Allowed(s: PoolState, c: Call) {
    match c
    case CallAcquire(size, raw) => size < UINT32_RANGE && FreshFor(s, raw)
    case CallRelease(_) => true
    case CallPrime(size, raws) => size < UINT32_RANGE && AllFresh(s, raws)
  }

  function After(s: PoolState, c: Call): PoolState {
    match c
    case CallAcquire(size, raw) => AfterAcquire(s, size, raw).0
    case CallRelease(buf) => AfterRelease(s, buf)
    case CallPrime(size, raws) => AfterPrime(s, size, raws)
  }

  predicate IsRun(s: PoolState, calls: seq<Call>)
    decreases |calls|
  {
    calls == [] || (Allowed(s, calls[0]) && IsRun(After(s, calls[0]), calls[1..]))
  }

  function Exec(s: PoolState, calls: seq<Call>): PoolState
    decreases |calls|
  {
    if calls == [] then s else Exec(After(s, calls[0]), calls[1..])
  }

  lemma {:induction false} StepIsSafe(s: PoolState, c: Call)
    requires Safe(s) && Allowed(s, c)
    ensures Safe(After(s, c))
  {
    match c
    case CallAcquire(size, raw) => AcquireIsSafe(s, size, raw);
    case CallRelease(buf) => ReleaseIsSafe(s, buf);
    case CallPrime(size, raws) => PrimeIsSafe(s, size, raws);
  }

  lemma {:induction false} RunsAreSafe(s: PoolState, calls: seq<Call>)
    requires Safe(s) && IsRun(s, calls)
    ensures Safe(Exec(s, calls))
    decreases |calls|
  {
    if calls != [] {
      StepIsSafe(s, calls[0]);
      RunsAreSafe(After(s, calls[0]), calls[1..]);
    }
  }

  /** A lent buffer stays with its holder, at the same capacity, through every run in
      which it is not released; and no acquire of the run returns it. */
  lemma {:induction false} LentStaysLent(s: PoolState, calls: seq<Call>, buf: nat)
    requires Safe(s) && IsRun(s, calls) && buf in s.outstanding
    requires forall i :: 0 <= i < |calls| ==> calls[i] != CallRelease(buf)
    ensures buf in Exec(s, calls).outstanding && Exec(s, calls).outstanding[buf] == s.outstanding[buf]
    ensures buf !in Returned(s, calls)
    decreases |calls|
  {
    if calls != [] {
      assert calls[0] != CallRelease(buf);
      StepIsSafe(s, calls[0]);
      match calls[0] {
        case CallAcquire(size, raw) => AcquireIsSafe(s, size, raw);
        case CallRelease(other) =>
        case CallPrime(size, raws) => PrimeIsSafe(s, size, raws);
      }
      LentStaysLent(After(s, calls[0]), calls[1..], buf);
    }
  }

  /** The buffers the acquires of a run return, in order. */
  function Returned(s: PoolState, calls: seq<Call>): seq<nat>
    decreases |calls|
  {
    if calls == [] then []
    else
      var rest := Returned(After(s, calls[0]), calls[1..]);
      if calls[0].CallAcquire? then [AfterAcquire(s, calls[0].size, calls[0].raw).1] + rest else rest
  }

  /** A run one call longer goes on from where the run ended, and returns one buffer more if
      that call is an acquire. */
  lemma {:induction false} RunOneMore(s: PoolState, calls: seq<Call>, c: Call)
    ensures IsRun(s, calls + [c]) <==> IsRun(s, calls) && Allowed(Exec(s, calls), c)
    ensures Exec(s, calls + [c]) == After(Exec(s, calls), c)
    ensures Returned(s, calls + [c]) == Returned(s, calls) +
      if c.CallAcquire? then [AfterAcquire(Exec(s, calls), c.size, c.raw).1] else []
    decreases |calls|
  {
    hide After, Allowed, AfterAcquire;
    if calls == [] {
      assert [] + [c] == [c];
    } else {
      assert (calls + [c])[1..] == calls[1..] + [c];
      RunOneMore(After(s, calls[0]), calls[1..], c);
    }
  }

  /** A run of no calls. */
  lemma {:induction false} NoCalls(s: PoolState)
    ensures IsRun(s, []) && Exec(s, []) == s && Returned(s, []) == []
  {
  }

  // ----- capacity -----

  function PoolCapacity(pool: seq<Entry>): nat {
    if pool == [] then 0 else PoolCapacity(pool[..|pool| - 1]) + pool[|pool| - 1].capacity
  }

  /** Capacity lent out at addresses below a bound. */
  function LentCapacity(m: map<nat, nat>, bound: nat): nat {
    if bound == 0 then 0
    else LentCapacity(m, bound - 1) + if bound - 1 in m then m[bound - 1] else 0
  }

  /** top is any bound on addresses. */
  function Capacity(s: PoolState, top: nat): nat {
    PoolCapacity(s.pool) + LentCapacity(s.outstanding, top)
  }

  lemma {:induction false} LentMore(m: map<nat, nat>, buf: nat, cap: nat, bound: nat)
    requires buf !in m
    ensures LentCapacity(m[buf := cap], bound) == LentCapacity(m, bound) + if buf < bound then cap else 0
  {
    if bound > 0 {
      LentMore(m, buf, cap, bound - 1);
    }
  }

  lemma {:induction false} PoolLess(pool: seq<Entry>, i: nat)
    requires i < |pool|
    ensures PoolCapacity(pool) == PoolCapacity(SwapPop(pool, i)) + pool[i].capacity
  {
    var n := |pool| - 1;
    if i == n {
      assert SwapPop(pool, i) == pool[..n];
    } else {
      assert SwapPop(pool, i) == pool[..n][i := pool[n]];
      PoolUpdate(pool[..n], i, pool[n]);
    }
  }

  lemma {:induction false} PoolUpdate(pool: seq<Entry>, i: nat, e: Entry)
    requires i < |pool|
    ensures PoolCapacity(pool[i := e]) == PoolCapacity(pool) - pool[i].capacity + e.capacity
    decreases |pool|
  {
    var n := |pool| - 1;
    if i == n {
      assert pool[i := e][..n] == pool[..n];
    } else {
      assert pool[i := e][..n] == pool[..n][i := e];
      PoolUpdate(pool[..n], i, e);
    }
  }

  lemma {:induction false} PoolMore(pool: seq<Entry>, e: Entry)
    ensures PoolCapacity(pool + [e]) == PoolCapacity(pool) + e.capacity
  {
    assert (pool + [e])[..|pool|] == pool;
  }

  /** Capacity the pool holds or has lent grows only when nothing pooled fits, and then
      by the aligned size. */
  lemma {:induction false} AcquireCapacity(s: PoolState, size: nat, raw: nat, top: nat)
    requires ADDRESSES <= top
    requires Safe(s) && FreshFor(s, raw) && size < UINT32_RANGE
    ensures var need := AlignUp32(size);
      Capacity(AfterAcquire(s, size, raw).0, top) ==
        Capacity(s, top) + if exists i :: 0 <= i < |s.pool| && s.pool[i].capacity >= need then 0 else need
  {
    var need := AlignUp32(size);
    var i := FirstFit(s.pool, need);
    if i < |s.pool| {
      PoolLess(s.pool, i);
      LentMore(s.outstanding, s.pool[i].buf, s.pool[i].capacity, top);
    } else {
      LentMore(s.outstanding, raw, need, top);
    }
  }

  lemma {:induction false} ReleaseCapacity(s: PoolState, buf: nat, top: nat)
    requires ADDRESSES <= top
    requires Safe(s)
    ensures Capacity(AfterRelease(s, buf), top) == Capacity(s, top)
  {
    if buf in s.outstanding {
      var cap := s.outstanding[buf];
      PoolMore(s.pool, Entry(buf, cap));
      var rest := s.outstanding - {buf};
      LentMore(rest, buf, cap, top);
      assert rest[buf := cap] == s.outstanding;
    }
  }

  /** No capacity is lost: what the pool holds and has lent is what was ever allocated. */
  ghost predicate Conserved(s: PoolState, top: nat) {
    Capacity(s, top) == LentCapacity(s.owned, top)
  }

  lemma {:induction false} AcquireConserves(s: PoolState, size: nat, raw: nat, top: nat)
    requires ADDRESSES <= top
    requires Safe(s) && Conserved(s, top) && FreshFor(s, raw) && size < UINT32_RANGE
    ensures Conserved(AfterAcquire(s, size, raw).0, top)
  {
    AcquireCapacity(s, size, raw, top);
    LentMore(s.owned, raw, AlignUp32(size), top);
  }

  lemma {:induction false} AddFreeConserves(s: PoolState, need: nat, raw: nat, top: nat)
    requires ADDRESSES <= top
    requires Conserved(s, top) && FreshFor(s, raw)
    ensures Conserved(s.(pool := s.pool + [Entry(raw, need)], owned := s.owned[raw := need]), top)
  {
    PoolMore(s.pool, Entry(raw, need));
    LentMore(s.owned, raw, need, top);
  }

  lemma {:induction false} PrimeConserves(s: PoolState, size: nat, raws: seq<nat>, top: nat)
    requires ADDRESSES <= top
    requires Safe(s) && Conserved(s, top) && AllFresh(s, raws) && size < UINT32_RANGE
    ensures Conserved(AfterPrime(s, size, raws), top)
    decreases |raws|
  {
    if raws != [] {
      var n := |raws| - 1;
      PrimeConserves(s, size, raws[..n], top);
      PrimeIsSafe(s, size, raws[..n]);
      AddFreeConserves(AfterPrime(s, size, raws[..n]), AlignUp32(size), raws[n], top);
    }
  }

  lemma {:induction false} RunsConserve(s: PoolState, calls: seq<Call>, top: nat)
    requires ADDRESSES <= top
    requires Safe(s) && Conserved(s, top) && IsRun(s, calls)
    ensures Conserved(Exec(s, calls), top)
    decreases |calls|
  {
    if calls != [] {
      StepIsSafe(s, calls[0]);
      match calls[0] {
        case CallAcquire(size, raw) => AcquireConserves(s, size, raw, top);
        case CallRelease(buf) => ReleaseCapacity(s, buf, top);
        case CallPrime(size, raws) => PrimeConserves(s, size, raws, top);
      }
      RunsConserve(After(s, calls[0]), calls[1..], top);
    }
  }

  /** Every run of a new pool is safe and loses no capacity. */
  lemma {:induction false} NewPoolRuns(calls: seq<Call>, top: nat)
    requires ADDRESSES <= top
    requires IsRun(PoolState([], map[], map[]), calls)
    ensures Safe(Exec(PoolState([], map[], map[]), calls)) && Conserved(Exec(PoolState([], map[], map[]), calls), top)
  {
    var s := PoolState([], map[], map[]);
    RunsAreSafe(s, calls);
    RunsConserve(s, calls, top);
  }
}
