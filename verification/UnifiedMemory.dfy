/** Unified memory emulated with two copies.

Every managed allocation has a host copy and a device copy. Argument setup copies
it to the device and sets `copied`; kernels write the device copy and mark pages
dirty; device synchronisation, and evictions while kernels run, write dirty pages
back. Together the two copies behave like one flat memory. */
module UnifiedMemory {

  type Byte = bv8
  type PageMap = int -> int

  datatype Alloc = Alloc(gpu: nat, size: nat, copied: bool)

  /** `pending`: pages whose write-back was scheduled and is not finished. */
  datatype Memory = Memory(
    allocs: map<int, Alloc>, host: seq<Byte>, dev: seq<Byte>, dirty: set<int>, pending: set<int>)

  // ----- well-formedness ------------------------------------------------------------------

  ghost predicate Fits(m: Memory, b: int)
    requires b in m.allocs
  {
    0 <= b && b + m.allocs[b].size <= |m.host| && m.allocs[b].gpu + m.allocs[b].size <= |m.dev|
  }

  ghost predicate Disjoint(s: int, n: int, t: int, k: int) {
    s + n <= t || t + k <= s
  }

  ghost predicate Apart(m: Memory, b: int, c: int)
    requires b in m.allocs && c in m.allocs
  {
    var x, y := m.allocs[b], m.allocs[c];
    Disjoint(b, x.size, c, y.size) && Disjoint(x.gpu, x.size, y.gpu, y.size)
  }

  ghost predicate WellFormed(m: Memory) {
    && (forall b: int | b in m.allocs :: Fits(m, b))
    && (forall b: int, c: int | b in m.allocs && c in m.allocs && b != c :: Apart(m, b, c))
  }

  // ----- the flat memory ---------------------------------------------------------------------

  ghost predicate Within(m: Memory, b: int, x: int)
    requires b in m.allocs
  {
    b <= x < b + m.allocs[b].size
  }

  ghost predicate Unmanaged(m: Memory, x: int) {
    forall b: int | b in m.allocs :: !Within(m, b, x)
  }

  /** The current byte at host address `x` of allocation `b`: the device's once the
      allocation was copied in, the host's otherwise. */
  ghost function Current(m: Memory, b: int, x: int): Byte
    requires b in m.allocs && Fits(m, b) && Within(m, b, x)
  {
    if m.allocs[b].copied then m.dev[m.allocs[b].gpu + (x - b)] else m.host[x]
  }

  ghost predicate Represents(m: Memory, flat: seq<Byte>)
    requires WellFormed(m)
  {
    && |flat| == |m.host|
    && (forall b: int, x: int | b in m.allocs && Within(m, b, x) :: flat[x] == Current(m, b, x))
    && (forall x: int | 0 <= x < |flat| && Unmanaged(m, x) :: flat[x] == m.host[x])
  }

  /** A copied-in byte whose page needs no write-back is the same on both sides. */
  ghost predicate CleanByte(m: Memory, page: PageMap, b: int, x: int)
    requires b in m.allocs && Fits(m, b) && Within(m, b, x)
  {
    var d := m.allocs[b].gpu + (x - b);
    m.allocs[b].copied && page(d) !in m.dirty && page(d) !in m.pending ==> m.host[x] == m.dev[d]
  }

  ghost predicate Coherent(m: Memory, page: PageMap) {
    && WellFormed(m)
    && (forall b: int, x: int | b in m.allocs && Within(m, b, x) :: CleanByte(m, page, b, x))
  }

  // ----- operations -----------------------------------------------------------------------------

  /** `to` is `from` with `n` bytes at `at` taken from `src` starting at `s`. */
  ghost predicate Copied(to: seq<Byte>, from: seq<Byte>, at: int, src: seq<Byte>, s: int, n: int)
    requires 0 <= s && 0 <= n && s + n <= |src|
  {
    && |to| == |from|
    && forall i | 0 <= i < |to| :: to[i] == if at <= i < at + n then src[s + (i - at)] else from[i]
  }

  /** `cudaMallocManaged`: a fresh host range, a fresh device range that starts as its copy. */
  ghost predicate Allocate(m: Memory, b: int, gpu: nat, size: nat, m': Memory) {
    && b !in m.allocs
    && m'.allocs == m.allocs[b := Alloc(gpu, size, false)]
    && m'.host == m.host && m'.dirty == m.dirty && m'.pending == m.pending
    && 0 <= b && b + size <= |m.host| && gpu + size <= |m.dev|
    && (forall c: int | c in m.allocs ::
          Disjoint(b, size, c, m.allocs[c].size) && Disjoint(gpu, size, m.allocs[c].gpu, m.allocs[c].size))
    && Copied(m'.dev, m.dev, gpu, m.host, b, size)
  }

  ghost predicate HostWrite(m: Memory, x: int, v: Byte, m': Memory) {
    0 <= x < |m.host| && m' == m.(host := m.host[x := v])
  }

  /** The host owns `x`: no copied-in allocation contains it. */
  ghost predicate HostOwns(m: Memory, x: int) {
    forall b: int | b in m.allocs && Within(m, b, x) :: !m.allocs[b].copied
  }

  /** `cudaSetupArgument` with a pointer to an allocation: copy in, once. */
  ghost predicate SetupArgument(m: Memory, b: int, m': Memory) {
    && b in m.allocs && Fits(m, b)
    && if m.allocs[b].copied then m' == m else
       && m'.allocs == m.allocs[b := m.allocs[b].(copied := true)]
       && m'.host == m.host && m'.dirty == m.dirty && m'.pending == m.pending
       && Copied(m'.dev, m.dev, m.allocs[b].gpu, m.host, b, m.allocs[b].size)
  }

  /** A kernel stores through a pointer it was given; the page becomes dirty. */
  ghost predicate KernelWrite(m: Memory, page: PageMap, b: int, x: int, v: Byte, m': Memory) {
    && b in m.allocs && Fits(m, b) && Within(m, b, x) && m.allocs[b].copied
    && var d := m.allocs[b].gpu + (x - b);
       m' == m.(dev := m.dev[d := v], dirty := m.dirty + {page(d)})
  }

  /** Bytes of copied-in allocations on the given pages go back to the host, no others. */
  ghost predicate WrittenBack(m: Memory, page: PageMap, pages: set<int>, host': seq<Byte>)
    requires WellFormed(m)
  {
    && |host'| == |m.host|
    && (forall b: int, x: int | b in m.allocs && Within(m, b, x) && m.allocs[b].copied ::
          var d := m.allocs[b].gpu + (x - b);
          host'[x] == if page(d) in pages then m.dev[d] else m.host[x])
    && (forall x: int | 0 <= x < |m.host| && HostOwns(m, x) :: host'[x] == m.host[x])
  }

  ghost function NoneCopied(allocs: map<int, Alloc>): map<int, Alloc> {
    map b | b in allocs :: allocs[b].(copied := false)
  }

  /** Dirty pages met while walking the copied-in allocations. */
  ghost predicate IsEvicted(m: Memory, page: PageMap, evicted: set<int>)
    requires WellFormed(m)
  {
    forall p :: p in evicted <==>
      p in m.dirty && exists b: int, x: int ::
        b in m.allocs && Within(m, b, x) && m.allocs[b].copied && page(m.allocs[b].gpu + (x - b)) == p
  }

  /** `cudaDeviceSynchronize`, once all transfers have completed. */
  ghost predicate Synchronize(m: Memory, page: PageMap, evicted: set<int>, m': Memory) {
    && WellFormed(m) && m.pending == {}
    && WrittenBack(m, page, m.dirty, m'.host)
    && IsEvicted(m, page, evicted)
    && m'.allocs == NoneCopied(m.allocs)
    && m'.dev == m.dev && m'.pending == {} && m'.dirty == m.dirty - evicted
  }

  /** An eviction is scheduled: the page stops being dirty and waits for its write-back. */
  ghost predicate EvictStart(m: Memory, p: int, m': Memory) {
    m' == m.(dirty := m.dirty - {p}, pending := m.pending + {p})
  }

  /** The write-back of an evicted page: `gpu_writeback`. */
  ghost predicate EvictFinish(m: Memory, page: PageMap, p: int, m': Memory) {
    && WellFormed(m)
    && WrittenBack(m, page, {p}, m'.host)
    && m'.allocs == m.allocs && m'.dev == m.dev && m'.dirty == m.dirty && m'.pending == m.pending - {p}
  }

  // ----- every operation keeps the invariant and acts on the flat memory -----------------------

  lemma AllocateRefines(m: Memory, page: PageMap, flat: seq<Byte>, b: int, gpu: nat, size: nat, m': Memory)
    requires Coherent(m, page) && Represents(m, flat) && Allocate(m, b, gpu, size, m')
    ensures Coherent(m', page) && Represents(m', flat)
  {
    assert forall c: int | c in m'.allocs :: Fits(m', c);
    forall c: int, e: int | c in m'.allocs && e in m'.allocs && c != e ensures Apart(m', c, e) {
      if c != b && e != b {
        assert Apart(m, c, e);
      }
    }
    forall c: int, x: int | c in m'.allocs && Within(m', c, x)
      ensures CleanByte(m', page, c, x) && flat[x] == Current(m', c, x)
    {
      if c != b {
        assert Within(m, c, x) && Fits(m, c) && CleanByte(m, page, c, x);
      } else {
        assert Unmanaged(m, x);
      }
    }
    forall x: int | 0 <= x < |flat| && Unmanaged(m', x) ensures flat[x] == m'.host[x] {
      assert forall c: int | c in m.allocs :: Within(m', c, x) <==> Within(m, c, x);
      assert Unmanaged(m, x);
    }
  }

  /** Same ranges on both sides, whatever the flags and bytes. */
  ghost predicate SameRanges(m: Memory, m': Memory) {
    && m'.allocs.Keys == m.allocs.Keys
    && |m'.host| == |m.host| && |m'.dev| == |m.dev|
    && (forall b: int | b in m.allocs :: m'.allocs[b].gpu == m.allocs[b].gpu && m'.allocs[b].size == m.allocs[b].size)
  }

  lemma RangesKept(m: Memory, m': Memory)
    requires WellFormed(m) && SameRanges(m, m')
    ensures WellFormed(m')
    ensures forall b: int, x: int | b in m.allocs :: Within(m', b, x) <==> Within(m, b, x)
    ensures forall x: int :: Unmanaged(m', x) <==> Unmanaged(m, x)
  {
    assert forall b: int, x: int | b in m.allocs :: Within(m', b, x) <==> Within(m, b, x);
    forall b: int | b in m'.allocs ensures Fits(m', b) {
      assert Fits(m, b);
    }
    forall b: int, c: int | b in m'.allocs && c in m'.allocs && b != c ensures Apart(m', b, c) {
      assert Apart(m, b, c);
    }
  }

  /** Addresses of different allocations never meet, on either side. */
  lemma OwnAddress(m: Memory, b: int, x: int, c: int, y: int)
    requires WellFormed(m) && b in m.allocs && c in m.allocs && Within(m, b, x) && Within(m, c, y) && b != c
    ensures x != y && m.allocs[b].gpu + (x - b) != m.allocs[c].gpu + (y - c)
  {
    assert Apart(m, b, c);
  }

  lemma HostWriteKeeps(m: Memory, page: PageMap, flat: seq<Byte>, x: int, v: Byte, m': Memory)
    requires Coherent(m, page) && Represents(m, flat) && HostWrite(m, x, v, m') && HostOwns(m, x)
    ensures Coherent(m', page) && Represents(m', flat[x := v])
  {
    RangesKept(m, m');
    forall b: int, y: int | b in m'.allocs && Within(m', b, y)
      ensures CleanByte(m', page, b, y) && flat[x := v][y] == Current(m', b, y)
    {
      assert Within(m, b, y) && Fits(m, b) && CleanByte(m, page, b, y);
    }
  }

  /** A host write acts on the flat memory if and only if the host owns the address, or
      the write changes nothing. */
  lemma HostWriteRefines(m: Memory, page: PageMap, flat: seq<Byte>, x: int, v: Byte, m': Memory)
    requires Coherent(m, page) && Represents(m, flat) && HostWrite(m, x, v, m')
    ensures WellFormed(m')
    ensures Represents(m', flat[x := v]) <==> HostOwns(m, x) || flat[x] == v
    ensures HostOwns(m, x) || flat[x] == v ==> Coherent(m', page)
  {
    RangesKept(m, m');
    if HostOwns(m, x) {
      HostWriteKeeps(m, page, flat, x, v, m');
    } else {
      var b: int :| b in m.allocs && Within(m, b, x) && m.allocs[b].copied;
      assert Fits(m, b) && Within(m', b, x);
      assert Current(m', b, x) == Current(m, b, x) == flat[x];
      if flat[x] == v {
        UnseenWrite(m, page, flat, x, v, m', b);
      }
    }
  }

  /** Writing the current byte over a copied-in allocation changes nothing. */
  lemma UnseenWrite(m: Memory, page: PageMap, flat: seq<Byte>, x: int, v: Byte, m': Memory, b: int)
    requires Coherent(m, page) && WellFormed(m') && Represents(m, flat) && HostWrite(m, x, v, m')
    requires b in m.allocs && Within(m, b, x) && m.allocs[b].copied && flat[x] == v
    ensures Represents(m', flat) && Coherent(m', page)
  {
    RangesKept(m, m');
    forall c: int, y: int | c in m'.allocs && Within(m', c, y)
      ensures flat[y] == Current(m', c, y) && CleanByte(m', page, c, y)
    {
      assert Within(m, c, y) && Fits(m, c) && CleanByte(m, page, c, y);
      if c != b {
        OwnAddress(m, b, x, c, y);
      }
    }
  }

  /** Copying in changes no current byte; a second setup before the next synchronisation
      leaves the device results alone. */
  lemma SetupArgumentRefines(m: Memory, page: PageMap, flat: seq<Byte>, b: int, m': Memory)
    requires Coherent(m, page) && Represents(m, flat) && SetupArgument(m, b, m')
    ensures Coherent(m', page) && Represents(m', flat)
    ensures m.allocs[b].copied ==> m'.dev == m.dev
  {
    if !m.allocs[b].copied {
      RangesKept(m, m');
      forall c: int, y: int | c in m'.allocs && Within(m', c, y)
        ensures CleanByte(m', page, c, y) && flat[y] == Current(m', c, y)
      {
        CopiedInByte(m, page, b, m', c, y);
      }
    }
  }

  lemma CopiedInByte(m: Memory, page: PageMap, b: int, m': Memory, c: int, y: int)
    requires Coherent(m, page) && WellFormed(m') && SetupArgument(m, b, m') && !m.allocs[b].copied
    requires c in m.allocs && Within(m, c, y) && Within(m', c, y)
    ensures CleanByte(m', page, c, y) && Current(m', c, y) == Current(m, c, y)
  {
    assert Fits(m, c) && CleanByte(m, page, c, y);
    if c != b {
      assert Apart(m, b, c);
      var d := m.allocs[c].gpu + (y - c);
      assert m'.dev[d] == m.dev[d];
    } else {
      assert m'.dev[m.allocs[b].gpu + (y - b)] == m.host[y];
    }
  }

  lemma KernelWriteRefines(m: Memory, page: PageMap, flat: seq<Byte>, b: int, x: int, v: Byte, m': Memory)
    requires Coherent(m, page) && Represents(m, flat) && KernelWrite(m, page, b, x, v, m')
    ensures Coherent(m', page) && Represents(m', flat[x := v])
  {
    RangesKept(m, m');
    forall c: int, y: int | c in m'.allocs && Within(m', c, y)
      ensures CleanByte(m', page, c, y) && flat[x := v][y] == Current(m', c, y)
    {
      assert Within(m, c, y) && Fits(m, c) && CleanByte(m, page, c, y);
      if c != b {
        OwnAddress(m, b, x, c, y);
      }
    }
    forall y: int | 0 <= y < |flat| && Unmanaged(m', y) ensures flat[x := v][y] == m'.host[y] {
      assert Unmanaged(m, y) && !Within(m, b, y);
    }
  }

  /** Writing back pages changes no current byte and leaves the two copies equal on them. */
  lemma WrittenBackBytes(m: Memory, page: PageMap, pages: set<int>, host': seq<Byte>, b: int, x: int)
    requires WellFormed(m) && WrittenBack(m, page, pages, host') && b in m.allocs && Within(m, b, x)
    ensures 0 <= x < |host'|
    ensures m.allocs[b].copied ==>
      var d := m.allocs[b].gpu + (x - b);
      0 <= d < |m.dev| && host'[x] == if page(d) in pages then m.dev[d] else m.host[x]
    ensures !m.allocs[b].copied ==> host'[x] == m.host[x]
  {
    assert Fits(m, b);
    if !m.allocs[b].copied {
      forall c: int | c in m.allocs && Within(m, c, x) ensures !m.allocs[c].copied {
        if c != b {
          OwnAddress(m, b, x, c, x);
        }
      }
      assert HostOwns(m, x);
    }
  }

  /** After synchronisation every host byte is current and no allocation is copied in. */
  lemma SynchronizeRefines(m: Memory, page: PageMap, flat: seq<Byte>, evicted: set<int>, m': Memory)
    requires Coherent(m, page) && Represents(m, flat) && Synchronize(m, page, evicted, m')
    ensures Coherent(m', page) && Represents(m', flat)
    ensures m'.host == flat
    ensures forall b: int | b in m'.allocs :: !m'.allocs[b].copied
  {
    RangesKept(m, m');
    forall c: int, y: int | c in m'.allocs && Within(m', c, y)
      ensures 0 <= y < |flat| && m'.host[y] == flat[y]
    {
      assert Within(m, c, y) && Fits(m, c) && CleanByte(m, page, c, y);
      WrittenBackBytes(m, page, m.dirty, m'.host, c, y);
      assert flat[y] == Current(m, c, y);
    }
    forall y: int | 0 <= y < |flat| && Unmanaged(m', y) ensures m'.host[y] == flat[y] {
      assert Unmanaged(m, y);
      assert HostOwns(m, y);
    }
  }

  lemma EvictStartRefines(m: Memory, page: PageMap, flat: seq<Byte>, p: int, m': Memory)
    requires Coherent(m, page) && Represents(m, flat) && EvictStart(m, p, m')
    ensures Coherent(m', page) && Represents(m', flat)
  {
    RangesKept(m, m');
    forall c: int, y: int | c in m'.allocs && Within(m', c, y)
      ensures CleanByte(m', page, c, y) && flat[y] == Current(m', c, y)
    {
      assert Within(m, c, y) && Fits(m, c) && CleanByte(m, page, c, y);
    }
  }

  lemma EvictFinishRefines(m: Memory, page: PageMap, flat: seq<Byte>, p: int, m': Memory)
    requires Coherent(m, page) && Represents(m, flat) && EvictFinish(m, page, p, m')
    ensures Coherent(m', page) && Represents(m', flat)
  {
    RangesKept(m, m');
    forall c: int, y: int | c in m'.allocs && Within(m', c, y)
      ensures CleanByte(m', page, c, y) && flat[y] == Current(m', c, y)
    {
      assert Within(m, c, y) && Fits(m, c) && CleanByte(m, page, c, y);
      WrittenBackBytes(m, page, {p}, m'.host, c, y);
    }
    forall y: int | 0 <= y < |flat| && Unmanaged(m', y) ensures m'.host[y] == flat[y] {
      assert Unmanaged(m, y);
      assert HostOwns(m, y);
    }
  }

  // ----- whole runs ---------------------------------------------------------------------------------

  datatype Op =
    | DoAllocate(b: int, gpu: nat, size: nat)
    | DoHostWrite(x: int, v: Byte)
    | DoSetupArgument(b: int)
    | DoKernelWrite(b: int, x: int, v: Byte)
    | DoEvictStart(p: int)
    | DoEvictFinish(p: int)
    | DoSynchronize(evicted: set<int>)

  ghost predicate Next(m: Memory, page: PageMap, op: Op, m': Memory) {
    match op
    case DoAllocate(b, gpu, size) => Allocate(m, b, gpu, size, m')
    case DoHostWrite(x, v) => HostWrite(m, x, v, m')
    case DoSetupArgument(b) => SetupArgument(m, b, m')
    case DoKernelWrite(b, x, v) => KernelWrite(m, page, b, x, v, m')
    case DoEvictStart(p) => EvictStart(m, p, m')
    case DoEvictFinish(p) => EvictFinish(m, page, p, m')
    case DoSynchronize(evicted) => Synchronize(m, page, evicted, m')
  }

  /** What the program sees: only its own stores change the one memory. */
  ghost function FlatNext(flat: seq<Byte>, op: Op): seq<Byte> {
    match op
    case DoHostWrite(x, v) => if 0 <= x < |flat| then flat[x := v] else flat
    case DoKernelWrite(b, x, v) => if 0 <= x < |flat| then flat[x := v] else flat
    case _ => flat
  }

  /** A host write goes to an address the host owns, or writes the byte that is current. */
  ghost predicate Harmless(m: Memory, flat: seq<Byte>, op: Op) {
    op.DoHostWrite? ==> HostOwns(m, op.x) || (0 <= op.x < |flat| && flat[op.x] == op.v)
  }

  ghost predicate IsRun(ms: seq<Memory>, page: PageMap, ops: seq<Op>) {
    && |ms| == |ops| + 1
    && ms[0].allocs == map[]
    && forall i | 0 <= i < |ops| :: Next(ms[i], page, ops[i], ms[i + 1])
  }

  ghost function FlatRun(flat: seq<Byte>, ops: seq<Op>): seq<Byte> {
    if ops == [] then flat else FlatNext(FlatRun(flat, ops[..|ops| - 1]), ops[|ops| - 1])
  }

  ghost predicate HarmlessAt(ms: seq<Memory>, ops: seq<Op>, i: nat)
    requires i < |ops| && |ms| == |ops| + 1
  {
    Harmless(ms[i], FlatRun(ms[0].host, ops[..i]), ops[i])
  }

  ghost predicate FlatAt(ms: seq<Memory>, ops: seq<Op>, i: nat)
    requires i <= |ops| && |ms| == |ops| + 1
  {
    WellFormed(ms[i]) && Represents(ms[i], FlatRun(ms[0].host, ops[..i]))
  }

  /** One operation acts on the flat memory if and only if it is harmless. */
  lemma NextRefines(m: Memory, page: PageMap, flat: seq<Byte>, op: Op, m': Memory)
    requires Coherent(m, page) && Represents(m, flat) && Next(m, page, op, m')
    ensures WellFormed(m') && (Represents(m', FlatNext(flat, op)) <==> Harmless(m, flat, op))
    ensures Harmless(m, flat, op) ==> Coherent(m', page)
  {
    match op
    case DoAllocate(b, gpu, size) => AllocateRefines(m, page, flat, b, gpu, size, m');
    case DoHostWrite(x, v) => HostWriteRefines(m, page, flat, x, v, m');
    case DoSetupArgument(b) => SetupArgumentRefines(m, page, flat, b, m');
    case DoKernelWrite(b, x, v) => KernelWriteRefines(m, page, flat, b, x, v, m');
    case DoEvictStart(p) => EvictStartRefines(m, page, flat, p, m');
    case DoEvictFinish(p) => EvictFinishRefines(m, page, flat, p, m');
    case DoSynchronize(evicted) => SynchronizeRefines(m, page, flat, evicted, m');
  }

  lemma NextAt(ms: seq<Memory>, page: PageMap, ops: seq<Op>, i: nat)
    requires IsRun(ms, page, ops) && i < |ops| && Coherent(ms[i], page) && FlatAt(ms, ops, i)
    ensures FlatAt(ms, ops, i + 1) <==> HarmlessAt(ms, ops, i)
    ensures HarmlessAt(ms, ops, i) ==> Coherent(ms[i + 1], page)
  {
    assert Next(ms[i], page, ops[i], ms[i + 1]);
    NextRefines(ms[i], page, FlatRun(ms[0].host, ops[..i]), ops[i], ms[i + 1]);
    assert ops[..i + 1][..i] == ops[..i];
  }

  lemma {:induction false} HarmlessRun(ms: seq<Memory>, page: PageMap, ops: seq<Op>, i: nat)
    requires IsRun(ms, page, ops) && i <= |ops| && forall k: nat | k < i :: HarmlessAt(ms, ops, k)
    ensures Coherent(ms[i], page) && FlatAt(ms, ops, i)
  {
    if i > 0 {
      HarmlessRun(ms, page, ops, i - 1);
      NextAt(ms, page, ops, i - 1);
    }
  }

  lemma {:induction false} FirstHarm(ms: seq<Memory>, ops: seq<Op>, k: nat) returns (i: nat)
    requires |ms| == |ops| + 1 && k < |ops| && !HarmlessAt(ms, ops, k)
    ensures i <= k && !HarmlessAt(ms, ops, i) && forall j: nat | j < i :: HarmlessAt(ms, ops, j)
  {
    if j: nat :| j < k && !HarmlessAt(ms, ops, j) {
      i := FirstHarm(ms, ops, j);
    } else {
      i := k;
    }
  }

  /** Over every run the two-copy memory is, at every point, the one flat memory that only the
      program's own stores change, if and only if every host write is harmless. */
  lemma RunRefinesFlat(ms: seq<Memory>, page: PageMap, ops: seq<Op>)
    requires IsRun(ms, page, ops)
    ensures (forall i: nat | i <= |ops| :: FlatAt(ms, ops, i)) <==>
      (forall i: nat | i < |ops| :: HarmlessAt(ms, ops, i))
  {
    if forall i: nat | i < |ops| :: HarmlessAt(ms, ops, i) {
      forall i: nat | i <= |ops| ensures FlatAt(ms, ops, i) {
        HarmlessRun(ms, page, ops, i);
      }
    } else {
      var k: nat :| k < |ops| && !HarmlessAt(ms, ops, k);
      var i := FirstHarm(ms, ops, k);
      HarmlessRun(ms, page, ops, i);
      NextAt(ms, page, ops, i);
      assert !FlatAt(ms, ops, i + 1);
    }
  }

  // ----- a lost write -------------------------------------------------------------------------------

  /** `bytes` on the host, and an allocation of all of it, copied in or not. */
  ghost function Whole(bytes: seq<Byte>, dev: seq<Byte>, copied: bool): Memory {
    Memory(map[0 := Alloc(0, |bytes|, copied)], bytes, dev, {}, {})
  }

  /** Allocate, set up an argument, then write: the value written is not the current one. */
  lemma LostWriteExample(bytes: seq<Byte>, v: Byte, page: PageMap) returns (ms: seq<Memory>, ops: seq<Op>)
    requires bytes != [] && bytes[0] != v
    ensures IsRun(ms, page, ops) && |ops| == 3 && ops[2] == DoHostWrite(0, v) && !FlatAt(ms, ops, 3)
  {
    var m0 := Memory(map[], bytes, bytes, {}, {});
    var m1, m2 := Whole(bytes, bytes, false), Whole(bytes, bytes, true);
    var m3 := Whole(bytes[0 := v], bytes, true);
    ms, ops := [m0, m1, m2, m3], [DoAllocate(0, 0, |bytes|), DoSetupArgument(0), DoHostWrite(0, v)];
    assert Next(m0, page, ops[0], m1);
    assert Fits(m1, 0) && Next(m1, page, ops[1], m2);
    assert Next(m2, page, ops[2], m3);
    HarmlessRun(ms, page, ops, 2);
    assert Within(m2, 0, 0) && !HostOwns(m2, 0);
    assert FlatRun(bytes, ops[..2]) == bytes by {
      assert ops[..2][..1] == ops[..1] && ops[..1][..0] == [];
    }
    assert !HarmlessAt(ms, ops, 2);
    NextAt(ms, page, ops, 2);
  }
}
