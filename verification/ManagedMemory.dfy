/** The managed-memory runtime: allocation table, the two memories and the page state,
    updated in place. Each method is one operation of `UnifiedMemory`. */
module ManagedMemory {
  import opened OrderedKeys
  import opened PageArithmetic
  import opened UnifiedMemory
  import opened ManagedSizing

  function PageNum(d: int, pageSize: nat): int
    requires pageSize > 0
  {
    d / pageSize
  }

  ghost function PageOf(pageSize: nat): PageMap
    requires pageSize > 0
  {
    (d: int) => PageNum(d, pageSize)
  }

  /** `get_data_size`: bytes from `d` to the end of its page. */
  function RoomInPage(d: nat, pageSize: nat): (n: nat)
    requires pageSize > 0
    ensures 0 < n <= pageSize
  {
    pageSize - d % pageSize
  }

  lemma SamePage(d: nat, k: nat, pageSize: nat)
    requires pageSize > 0 && k < RoomInPage(d, pageSize)
    ensures PageNum(d + k, pageSize) == PageNum(d, pageSize)
    ensures PageNum(d + RoomInPage(d, pageSize), pageSize) == PageNum(d, pageSize) + 1
  {
    QuotientIs(d + k, d / pageSize, d % pageSize + k, pageSize);
    QuotientIs(d + RoomInPage(d, pageSize), d / pageSize + 1, 0, pageSize);
  }

  /** Bytes `lo` to `hi - 1` of an allocation at `b` / `gpu`, written back where dirty. */
  ghost predicate RangeWritten(host': seq<Byte>, host: seq<Byte>, dev: seq<Byte>, page: PageMap, pages: set<int>,
                               b: nat, gpu: nat, n: nat)
    requires gpu + n <= |dev| && b + n <= |host|
  {
    && |host'| == |host|
    && forall x | 0 <= x < |host| ::
         host'[x] == if b <= x < b + n && page(gpu + (x - b)) in pages then dev[gpu + (x - b)] else host[x]
  }

  ghost predicate PagesOfRange(
    evicted': set<int>, evicted: set<int>, page: PageMap, dirty: set<int>, gpu: nat, n: nat)
  {
    forall p :: p in evicted' <==> p in evicted || (p in dirty && exists d :: gpu <= d < gpu + n && page(d) == p)
  }

  /** The bump allocator takes the next multiple of 256 bytes. */
  ghost predicate IsPadded(taken: int, n: nat) {
    taken % 256 == 0 && n <= taken < n + 256
  }

  class Gpgpu {
    const pageSize: nat
    var allocs: map<int, Alloc>
    var host: seq<Byte>
    var dev: seq<Byte>
    var dirty: set<int>
    var pending: set<int>
    var devTop: nat

    ghost function State(): Memory
      reads this
    {
      Memory(allocs, host, dev, dirty, pending)
    }

    ghost predicate Valid()
      reads this
    {
      pageSize > 0 && WellFormed(State()) && forall b: int | b in allocs :: allocs[b].gpu + allocs[b].size <= devTop
    }

    constructor (pageSize: nat, host: seq<Byte>, dev: seq<Byte>, heapStart: nat)
      requires pageSize > 0
      ensures Valid() && State() == Memory(map[], host, dev, {}, {}) && this.pageSize == pageSize
    {
      this.pageSize, this.host, this.dev := pageSize, host, dev;
      allocs, dirty, pending, devTop := map[], {}, {}, heapStart;
    }

    method MemcpyToGpu(d: nat, h: nat, n: nat)
      requires d + n <= |dev| && h + n <= |host|
      modifies this`dev
      ensures Copied(dev, old(dev), d, host, h, n)
    {
      for k := 0 to n
        invariant Copied(dev, old(dev), d, host, h, k)
      {
        dev := dev[d + k := host[h + k]];
      }
    }

    method MemcpyFromGpu(h: nat, d: nat, n: nat)
      requires d + n <= |dev| && h + n <= |host|
      modifies this`host
      ensures Copied(host, old(host), h, dev, d, n)
    {
      for k := 0 to n
        invariant Copied(host, old(host), h, dev, d, k)
      {
        host := host[h + k := dev[d + k]];
      }
    }

    /** `cudaSetupArgument`: a pointer to a managed allocation is replaced by the device
        pointer, after copying the allocation in if that has not been done yet. */
    method SetupArg(arg: int) returns (r: int)
      requires Valid()
      modifies this`allocs, this`dev
      ensures Valid()
      ensures arg in old(allocs) ==> r == old(allocs)[arg].gpu && SetupArgument(old(State()), arg, State())
      ensures arg !in old(allocs) ==> r == arg && State() == old(State())
    {
      r := arg;
      if arg in allocs {
        assert Fits(State(), arg);
        var a := allocs[arg];
        if !a.copied {
          MemcpyToGpu(a.gpu, arg, a.size);
          allocs := allocs[arg := a.(copied := true)];
        }
        r := a.gpu;
        assert SetupArgument(old(State()), arg, State());
        if !a.copied {
          RangesKept(old(State()), State());
        }
      }
    }

    /** One round of the write-back loop: the part of an allocation on one page. */
    method WriteBackChunk(h: nat, d: nat, len: nat, evicted: set<int>) returns (evicted': set<int>)
      requires pageSize > 0 && h + len <= |host| && d + len <= |dev| && 0 < len <= RoomInPage(d, pageSize)
      modifies this`host
      ensures RangeWritten(host, old(host), dev, PageOf(pageSize), dirty, h, d, len)
      ensures PagesOfRange(evicted', evicted, PageOf(pageSize), dirty, d, len)
    {
      var p := PageNum(d, pageSize);
      ghost var page := PageOf(pageSize);
      forall y | d <= y < d + len ensures page(y) == p {
        SamePage(d, y - d, pageSize);
      }
      assert page(d) == p;
      evicted' := evicted;
      if p in dirty {
        MemcpyFromGpu(h, d, len);
        evicted' := evicted' + {p};
      }
    }

    /** The write-back loop for one allocation, page by page. */
    method WriteBackRange(b: nat, gpu: nat, n: nat, evicted: set<int>) returns (evicted': set<int>)
      requires pageSize > 0 && b + n <= |host| && gpu + n <= |dev|
      modifies this`host
      ensures RangeWritten(host, old(host), dev, PageOf(pageSize), dirty, b, gpu, n)
      ensures PagesOfRange(evicted', evicted, PageOf(pageSize), dirty, gpu, n)
    {
      var size: nat, devPtr: nat, hostPtr: nat := n, gpu, b;
      evicted' := evicted;
      while size != 0
        invariant size <= n && |host| == |old(host)|
        invariant size != 0 ==> devPtr == gpu + (n - size) && hostPtr == b + (n - size)
        invariant RangeWritten(host, old(host), dev, PageOf(pageSize), dirty, b, gpu, n - size)
        invariant PagesOfRange(evicted', evicted, PageOf(pageSize), dirty, gpu, n - size)
      {
        var room := RoomInPage(devPtr, pageSize);
        var len := if size > room then room else size;
        ghost var before, done, seen := host, n - size, evicted';
        evicted' := WriteBackChunk(hostPtr, devPtr, len, evicted');
        RangesJoin(host, before, old(host), dev, PageOf(pageSize), dirty, b, gpu, done, len);
        PagesJoin(evicted', seen, evicted, PageOf(pageSize), dirty, gpu, done, len);
        size := if size <= room then 0 else size - room;
        devPtr := devPtr + room;
        hostPtr := hostPtr + room;
      }
    }

    /** How far the synchronisation of memory `m` has come. */
    ghost predicate SyncedUpTo(m: Memory, done: set<int>, evicted: set<int>)
      requires pageSize > 0 && WellFormed(m)
      reads this
    {
      && dev == m.dev && dirty == m.dirty && allocs == ClearCopied(m.allocs, done)
      && WrittenFor(m, PageOf(pageSize), m.dirty, done, host)
      && EvictedFor(m, PageOf(pageSize), done, evicted)
    }

    /** One round of the synchronisation loop. */
    method SyncAlloc(b: int, evicted: set<int>, ghost m: Memory, ghost done: set<int>) returns (evicted': set<int>)
      requires pageSize > 0 && WellFormed(m) && b in m.allocs && b !in done && SyncedUpTo(m, done, evicted)
      modifies this`allocs, this`host
      ensures SyncedUpTo(m, done + {b}, evicted')
    {
      assert Fits(m, b) && allocs[b] == m.allocs[b];
      evicted' := evicted;
      ghost var page := PageOf(pageSize);
      if allocs[b].copied {
        allocs := allocs[b := allocs[b].(copied := false)];
        evicted' := WriteBackRange(b, allocs[b].gpu, allocs[b].size, evicted);
      }
      ClearOne(m.allocs, done, b);
      AllocWritten(m, page, m.dirty, done, b, old(host), host);
      AllocEvicted(m, page, done, b, evicted, evicted');
    }

    /** The loop over the allocations, in the order of their host addresses. */
    method SyncAll(ghost m: Memory) returns (evicted: set<int>, ghost done: set<int>)
      requires pageSize > 0 && WellFormed(m) && m == State()
      modifies this`allocs, this`host
      ensures SyncedUpTo(m, done, evicted) && forall b: int | b in m.allocs :: b in done
    {
      evicted, done := {}, {};
      var keys := Enumerate(allocs.Keys);
      AscendingIn(keys, allocs.Keys);
      assert ClearCopied(m.allocs, done) == m.allocs;
      for i := 0 to |keys|
        invariant IsPrefixSet(done, keys, i)
        invariant SyncedUpTo(m, done, evicted)
      {
        NextKey(done, keys, i, m.allocs.Keys);
        evicted := SyncAlloc(keys[i], evicted, m, done);
        done := done + {keys[i]};
      }
      AllKeys(done, keys, m.allocs.Keys);
    }

    /** `cudaDeviceSynchronize`, after all kernels and transfers have completed. */
    method DeviceSynchronize() returns (evicted: set<int>)
      requires Valid() && pending == {}
      modifies this`allocs, this`host, this`dirty
      ensures Valid() && Synchronize(old(State()), PageOf(pageSize), evicted, State())
    {
      ghost var m, done := State(), {};
      evicted, done := SyncAll(m);
      AllWritten(m, PageOf(pageSize), done, host, evicted);
      dirty := dirty - evicted;
      RangesKept(m, State());
    }

    /** `cudaMallocManaged`. `cpuPtr` is the range returned by the host's `malloc` for the
        rounded size; the device range comes from a bump allocator. */
    method MallocManaged(cpuPtr: int, request: nat) returns (ok: bool)
      requires Valid()
      requires request > 0 ==>
        && 0 <= cpuPtr && cpuPtr + Rounded(request) <= |host| && cpuPtr !in allocs
        && (forall b: int | b in allocs :: Disjoint(cpuPtr, Rounded(request), b, allocs[b].size))
        && devTop + Rounded(request) <= |dev|
      modifies this`allocs, this`dev, this`devTop
      ensures ok <==> request > 0
      ensures !ok ==> State() == old(State())
      ensures ok ==> Allocate(old(State()), cpuPtr, old(devTop), Rounded(request), State())
      ensures if ok then IsPadded(devTop - old(devTop), Rounded(request)) else devTop == old(devTop)
      ensures Valid()
    {
      if request == 0 {
        return false;
      }
      var n := RoundSize(request);
      var gpu := devTop;
      devTop := devTop + n;
      if n % 256 != 0 {
        devTop := devTop + (256 - n % 256);
        QuotientIs(n + (256 - n % 256), n / 256 + 1, 0, 256);
      }
      allocs := allocs[cpuPtr := Alloc(gpu, n, false)];
      MemcpyToGpu(gpu, cpuPtr, n);
      ok := true;
      AllocationFits(old(State()), cpuPtr, gpu, n, State());
    }

    /** A kernel stores one byte through a pointer into a copied-in allocation. */
    method KernelStore(b: int, x: int, v: Byte)
      requires Valid() && b in allocs && Within(State(), b, x) && allocs[b].copied
      modifies this`dev, this`dirty
      ensures Valid() && KernelWrite(old(State()), PageOf(pageSize), b, x, v, State())
    {
      assert Fits(State(), b);
      var d := allocs[b].gpu + (x - b);
      dev := dev[d := v];
      dirty := dirty + {PageNum(d, pageSize)};
      RangesKept(old(State()), State());
    }

    /** Scheduling the write-back of an evicted page. */
    method ScheduleEviction(p: int)
      requires Valid()
      modifies this`dirty, this`pending
      ensures Valid() && EvictStart(old(State()), p, State())
    {
      dirty := dirty - {p};
      pending := pending + {p};
      RangesKept(old(State()), State());
    }

    /** The part of one allocation that lies on page `p`, which starts at device address
        `base`, goes back to the host. */
    method WriteBackOnPage(b: nat, gpu: nat, n: nat, p: int, base: int)
      requires pageSize > 0 && b + n <= |host| && gpu + n <= |dev| && base == p * pageSize
      modifies this`host
      ensures RangeWritten(host, old(host), dev, PageOf(pageSize), {p}, b, gpu, n)
    {
      forall d: int ensures PageNum(d, pageSize) == p <==> base <= d < base + pageSize {
        PageBounds(d, p, pageSize);
      }
      PageOrder(gpu, gpu + n, p, pageSize);
      if PageNum(gpu, pageSize) <= p <= PageNum(gpu + n, pageSize) {
        if p == PageNum(gpu, pageSize) {
          var onPage := pageSize - (gpu - base);
          MemcpyFromGpu(b, gpu, if onPage > n then n else onPage);
        } else {
          var remaining := n - (base - gpu);
          MemcpyFromGpu(b + (base - gpu), base, if remaining > pageSize then pageSize else remaining);
        }
      }
    }

    /** The loop of `gpu_writeback` over the allocations. */
    method WriteBackAll(p: int, ghost m: Memory) returns (ghost done: set<int>)
      requires pageSize > 0 && WellFormed(m) && m == State()
      modifies this`host
      ensures WrittenFor(m, PageOf(pageSize), {p}, done, host) && forall b: int | b in m.allocs :: b in done
    {
      var keys := Enumerate(allocs.Keys);
      AscendingIn(keys, allocs.Keys);
      done := {};
      for i := 0 to |keys|
        invariant IsPrefixSet(done, keys, i)
        invariant WrittenFor(m, PageOf(pageSize), {p}, done, host)
      {
        NextKey(done, keys, i, m.allocs.Keys);
        WriteBackAlloc(keys[i], p, m, done);
        done := done + {keys[i]};
      }
      AllKeys(done, keys, m.allocs.Keys);
    }

    method WriteBackAlloc(b: int, p: int, ghost m: Memory, ghost done: set<int>)
      requires pageSize > 0 && WellFormed(m) && allocs == m.allocs && dev == m.dev && b in m.allocs && b !in done
      requires WrittenFor(m, PageOf(pageSize), {p}, done, host)
      modifies this`host
      ensures WrittenFor(m, PageOf(pageSize), {p}, done + {b}, host)
    {
      assert Fits(m, b);
      if allocs[b].copied {
        WriteBackOnPage(b, allocs[b].gpu, allocs[b].size, p, p * pageSize);
      }
      AllocWritten(m, PageOf(pageSize), {p}, done, b, old(host), host);
    }

    /** `gpu_writeback` of the page that starts at a device address, when its transfer ends. */
    method GpuWriteback(p: int)
      requires Valid()
      modifies this`host, this`pending
      ensures Valid() && EvictFinish(old(State()), PageOf(pageSize), p, State())
    {
      ghost var m := State();
      ghost var done := WriteBackAll(p, m);
      forall x: int | 0 <= x < |m.host| && HostOwns(m, x) ensures host[x] == m.host[x] {
        assert Untouched(m, done, x);
      }
      pending := pending - {p};
      RangesKept(m, State());
    }
  }

  /** `done` holds the first `i` keys. */
  ghost predicate IsPrefixSet(done: set<int>, keys: seq<int>, i: nat)
    requires i <= |keys|
  {
    forall b :: b in done <==> b in keys[..i]
  }

  lemma NextKey(done: set<int>, keys: seq<int>, i: nat, all: set<int>)
    requires i < |keys| && IsAscending(keys, all) && IsPrefixSet(done, keys, i)
    ensures keys[i] in all && keys[i] !in done && IsPrefixSet(done + {keys[i]}, keys, i + 1)
  {
    AscendingIn(keys, all);
    var b: int := keys[i];
    assert b !in keys[..i];
    assert b in done <==> b in keys[..i];
    assert keys[..i + 1] == keys[..i] + [b];
  }

  lemma AllKeys(done: set<int>, keys: seq<int>, all: set<int>)
    requires IsAscending(keys, all) && IsPrefixSet(done, keys, |keys|)
    ensures done == all
  {
    assert keys[..|keys|] == keys;
    forall b: int ensures b in done <==> b in all {
      assert b in done <==> b in keys;
    }
  }

  lemma AllocationFits(m: Memory, b: int, gpu: nat, size: nat, m': Memory)
    requires WellFormed(m) && Allocate(m, b, gpu, size, m')
    ensures WellFormed(m')
  {
    forall c: int, e: int | c in m'.allocs && e in m'.allocs && c != e ensures Apart(m', c, e) {
      if c != b && e != b {
        assert Apart(m, c, e);
      }
    }
    forall c: int | c in m'.allocs ensures Fits(m', c) {
      if c != b {
        assert Fits(m, c);
      }
    }
  }

  lemma PageBounds(d: int, p: int, pageSize: nat)
    requires pageSize > 0
    ensures PageNum(d, pageSize) == p <==> p * pageSize <= d < p * pageSize + pageSize
  {
    if p * pageSize <= d < p * pageSize + pageSize {
      QuotientIs(d, p, d - p * pageSize, pageSize);
    } else {
      assert d == d / pageSize * pageSize + d % pageSize;
    }
  }

  /** Where the page of `p` lies relative to a range of device addresses. */
  lemma PageOrder(lo: nat, hi: nat, p: int, pageSize: nat)
    requires pageSize > 0 && lo <= hi
    ensures p < PageNum(lo, pageSize) ==> p * pageSize + pageSize <= lo
    ensures p > PageNum(lo, pageSize) ==> lo < p * pageSize
    ensures p <= PageNum(hi, pageSize) ==> p * pageSize <= hi
    ensures p > PageNum(hi, pageSize) ==> hi < p * pageSize
  {
    PageBounds(lo, PageNum(lo, pageSize), pageSize);
    PageBounds(hi, PageNum(hi, pageSize), pageSize);
    var q, r := PageNum(lo, pageSize), PageNum(hi, pageSize);
    if p < q {
      MultipleAtMost(p + 1, q, pageSize);
      assert (p + 1) * pageSize == p * pageSize + pageSize;
    } else if p > q {
      MultipleAtMost(q + 1, p, pageSize);
      assert (q + 1) * pageSize == q * pageSize + pageSize;
    }
    if p <= r {
      MultipleAtMost(p, r, pageSize);
    } else {
      MultipleAtMost(r + 1, p, pageSize);
      assert (r + 1) * pageSize == r * pageSize + pageSize;
    }
  }

  // ----- allocation by allocation ----------------------------------------------------------------

  ghost function ClearCopied(allocs: map<int, Alloc>, done: set<int>): map<int, Alloc> {
    map b | b in allocs :: if b in done then allocs[b].(copied := false) else allocs[b]
  }

  /** The allocations of `done` have been written back, nothing else. */
  ghost predicate WrittenFor(m: Memory, page: PageMap, pages: set<int>, done: set<int>, host': seq<Byte>)
    requires WellFormed(m)
  {
    && |host'| == |m.host|
    && (forall b: int, x: int | b in m.allocs && b in done && Within(m, b, x) && m.allocs[b].copied ::
          var d := m.allocs[b].gpu + (x - b);
          host'[x] == if page(d) in pages then m.dev[d] else m.host[x])
    && (forall x: int | 0 <= x < |m.host| && Untouched(m, done, x) :: host'[x] == m.host[x])
  }

  ghost predicate Untouched(m: Memory, done: set<int>, x: int) {
    forall b: int | b in m.allocs && b in done && Within(m, b, x) :: !m.allocs[b].copied
  }

  ghost predicate EvictedFor(m: Memory, page: PageMap, done: set<int>, evicted: set<int>) {
    forall p :: p in evicted <==>
      p in m.dirty && exists b: int, x: int ::
        b in m.allocs && b in done && Within(m, b, x) && m.allocs[b].copied && page(m.allocs[b].gpu + (x - b)) == p
  }

  lemma Alone(m: Memory, b: int, x: int)
    requires WellFormed(m) && b in m.allocs && Within(m, b, x)
    ensures forall c: int | c in m.allocs && c != b :: !Within(m, c, x)
  {
    forall c: int | c in m.allocs && c != b ensures !Within(m, c, x) {
      assert Apart(m, b, c);
    }
  }

  lemma ClearOne(allocs: map<int, Alloc>, done: set<int>, b: int)
    requires b in allocs
    ensures ClearCopied(allocs, done + {b}) == ClearCopied(allocs, done)[b := allocs[b].(copied := false)]
  {
  }

  lemma AllocWritten(
    m: Memory, page: PageMap, pages: set<int>, done: set<int>, b: int, before: seq<Byte>, after: seq<Byte>)
    requires WellFormed(m) && b in m.allocs && b !in done && WrittenFor(m, page, pages, done, before)
    requires m.allocs[b].copied ==>
      Fits(m, b) && RangeWritten(after, before, m.dev, page, pages, b, m.allocs[b].gpu, m.allocs[b].size)
    requires !m.allocs[b].copied ==> after == before
    ensures WrittenFor(m, page, pages, done + {b}, after)
  {
    forall c: int, x: int | c in m.allocs && c in done + {b} && Within(m, c, x) && m.allocs[c].copied
      ensures 0 <= x < |after|
      ensures var d := m.allocs[c].gpu + (x - c);
        0 <= d < |m.dev| && after[x] == if page(d) in pages then m.dev[d] else m.host[x]
    {
      assert Fits(m, c);
      if c != b {
        assert Apart(m, b, c);
      } else {
        Alone(m, b, x);
        assert Untouched(m, done, x);
      }
    }
    forall x: int | 0 <= x < |m.host| && Untouched(m, done + {b}, x) ensures after[x] == m.host[x] {
      assert Untouched(m, done, x);
      assert m.allocs[b].copied ==> !Within(m, b, x);
    }
  }

  lemma AllocEvicted(m: Memory, page: PageMap, done: set<int>, b: int, before: set<int>, after: set<int>)
    requires b in m.allocs && EvictedFor(m, page, done, before)
    requires m.allocs[b].copied ==> PagesOfRange(after, before, page, m.dirty, m.allocs[b].gpu, m.allocs[b].size)
    requires !m.allocs[b].copied ==> after == before
    ensures EvictedFor(m, page, done + {b}, after)
  {
    var a := m.allocs[b];
    forall p ensures p in after <==>
        p in m.dirty && exists c: int, x: int ::
          && c in m.allocs && c in done + {b} && Within(m, c, x) && m.allocs[c].copied
          && page(m.allocs[c].gpu + (x - c)) == p
    {
      if p in after && p !in before {
        var d :| a.gpu <= d < a.gpu + a.size && page(d) == p;
        var x := b + (d - a.gpu);
        assert Within(m, b, x) && a.gpu + (x - b) == d;
      }
      if c: int, x: int :|
          (&& c in m.allocs && c in done + {b} && Within(m, c, x) && m.allocs[c].copied
           && page(m.allocs[c].gpu + (x - c)) == p) {
        if c == b {
          var d := a.gpu + (x - b);
          assert a.gpu <= d < a.gpu + a.size && page(d) == p;
        }
      }
    }
  }

  lemma AllWritten(m: Memory, page: PageMap, done: set<int>, host': seq<Byte>, evicted: set<int>)
    requires WellFormed(m) && (forall b: int | b in m.allocs :: b in done)
    requires WrittenFor(m, page, m.dirty, done, host') && EvictedFor(m, page, done, evicted)
    ensures WrittenBack(m, page, m.dirty, host') && IsEvicted(m, page, evicted)
    ensures ClearCopied(m.allocs, done) == NoneCopied(m.allocs)
  {
    forall x: int | 0 <= x < |m.host| && HostOwns(m, x) ensures host'[x] == m.host[x] {
      assert Untouched(m, done, x);
    }
    var cleared, none := ClearCopied(m.allocs, done), NoneCopied(m.allocs);
    assert cleared.Keys == none.Keys;
    assert forall b: int | b in m.allocs :: cleared[b] == none[b];
  }

  lemma RangesJoin(
    after: seq<Byte>, before: seq<Byte>, start: seq<Byte>, dev: seq<Byte>, page: PageMap, dirty: set<int>,
                   b: nat, gpu: nat, n: nat, k: nat)
    requires b + n + k <= |start| && gpu + n + k <= |dev|
    requires RangeWritten(before, start, dev, page, dirty, b, gpu, n)
    requires RangeWritten(after, before, dev, page, dirty, b + n, gpu + n, k)
    ensures RangeWritten(after, start, dev, page, dirty, b, gpu, n + k)
  {
  }

  lemma PagesJoin(after: set<int>, before: set<int>, start: set<int>, page: PageMap, dirty: set<int>,
                  gpu: nat, n: nat, k: nat)
    requires PagesOfRange(before, start, page, dirty, gpu, n) && PagesOfRange(after, before, page, dirty, gpu + n, k)
    ensures PagesOfRange(after, start, page, dirty, gpu, n + k)
  {
  }
}
