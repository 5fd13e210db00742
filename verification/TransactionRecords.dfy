/** What a queued access records, in terms of the bytes that threads use. */
module TransactionRecords {
  import opened OrderedKeys
  import opened Coalescer
  import opened CoalescingUnit
  import opened SegmentRules

  /** Some use lies in the lower, and some in the upper, half of the `n` bytes it is in. */
  ghost predicate BothHalves(us: set<Use>, n: nat)
    requires n > 0
  {
    && (exists u :: u in us && u.byte % n < n / 2)
    && (exists u :: u in us && u.byte % n >= n / 2)
  }

  /** An aligned window of 32, 64 or 128 bytes around all uses, and no larger than they need. */
  ghost predicate IsTightWindow(a: nat, size: nat, us: set<Use>) {
    && (size == 32 || size == 64 || size == 128) && a % size == 0
    && (forall u | u in us :: a <= u.byte < a + size)
    && (size == 64 ==> BothHalves(us, 64)) && (size == 128 ==> BothHalves(us, 128))
  }

  /** The access stands for exactly the uses `us`: their threads, their bytes within 128, the
      32-byte chunks they lie in, in the smallest window. */
  ghost predicate IsRecord(m: MemAccess, us: set<Use>) {
    && m.info.active == (set u | u in us :: u.thread)
    && m.info.bytes == (set u | u in us :: u.byte % 128)
    && m.info.chunks == (set u | u in us :: u.byte % 128 / 32)
    && IsTightWindow(m.addr, m.size, us)
  }

  ghost function ChunksOf(us: set<Use>): set<nat> {
    set u | u in us :: u.byte % 128 / 32
  }

  lemma ChunkOfUse(x: nat, b: nat, g: nat)
    requires IsSegmentSize(g) && Segment(x, g) == b
    ensures ChunkAddr(b, x % 128 / 32) == x - x % 32
  {
    ChunkInSegment(x, g);
    var q, c, o := ChunkForm(x);
    var p, e, u := ChunkForm(b);
    SegmentForm(x, g, q, c, o);
  }

  lemma HalfOfUse(x: nat, a: nat, size: nat)
    requires size == 64 || size == 128
    requires a % size == 0 && a <= x < a + size
    ensures x % size < size / 2 ==> a <= x - x % 32 && x - x % 32 + 32 <= a + size / 2
    ensures x % size >= size / 2 ==> a + size / 2 <= x - x % 32 && x - x % 32 + 32 <= a + size
  {
    if size == 64 {
      HalfOf64(x, a);
    } else {
      HalfOf128(x, a);
    }
  }

  lemma HalfOf64(x: nat, a: nat)
    requires a % 64 == 0 && a <= x < a + 64
    ensures x % 64 < 32 ==> a <= x - x % 32 && x - x % 32 + 32 <= a + 32
    ensures x % 64 >= 32 ==> a + 32 <= x - x % 32 && x - x % 32 + 32 <= a + 64
  {
    var q, c, o := ChunkForm(x);
    var p := a / 64;
    assert a == 64 * p;
    assert p == 2 * q + c / 2;
  }

  lemma HalfOf128(x: nat, a: nat)
    requires a % 128 == 0 && a <= x < a + 128
    ensures x % 128 < 64 ==> a <= x - x % 32 && x - x % 32 + 32 <= a + 64
    ensures x % 128 >= 64 ==> a + 64 <= x - x % 32 && x - x % 32 + 32 <= a + 128
  {
    var q, c, o := ChunkForm(x);
    var p := a / 128;
    assert a == 128 * p;
    assert p == q;
  }

  lemma HalfAligned(a: nat, size: nat)
    requires (size == 64 || size == 128) && a % size == 0
    ensures a % (size / 2) == 0 && (a + size / 2) % (size / 2) == 0
  {
    if size == 64 {
      Mod32(2 * (a / 64), 0);
      Mod32(2 * (a / 64) + 1, 0);
    } else {
      Mod64(2 * (a / 128), 0);
      Mod64(2 * (a / 128) + 1, 0);
    }
  }

  /** A best window larger than 32 bytes has uses in both halves. */
  lemma HalvesUsed(a: nat, size: nat, b: nat, g: nat, us: set<Use>)
    requires IsSegmentSize(g) && us != {} && size > 32
    requires forall u | u in us :: Segment(u.byte, g) == b && a <= u.byte < a + size
    requires BestWindow(a, size, b, g, ChunksOf(us))
    ensures BothHalves(us, size)
  {
    forall u | u in us
      ensures ChunkAddr(b, u.byte % 128 / 32) == u.byte - u.byte % 32
    {
      ChunkOfUse(u.byte, b, g);
    }
    if forall u | u in us :: u.byte % size >= size / 2 {
      HalfCovers(a, size, a + size / 2, b, us);
      assert false;
    }
    if forall u | u in us :: u.byte % size < size / 2 {
      HalfCovers(a, size, a, b, us);
      assert false;
    }
  }

  lemma HalfCovers(a: nat, size: nat, h: nat, b: nat, us: set<Use>)
    requires (size == 64 || size == 128) && a % size == 0 && (h == a || h == a + size / 2)
    requires forall u | u in us :: a <= u.byte < a + size && (u.byte % size < size / 2 <==> h == a)
    requires forall u | u in us :: ChunkAddr(b, u.byte % 128 / 32) == u.byte - u.byte % 32
    ensures Covers(h, size / 2, b, ChunksOf(us))
  {
    HalfAligned(a, size);
    forall u | u in us
      ensures h <= ChunkAddr(b, u.byte % 128 / 32) && ChunkAddr(b, u.byte % 128 / 32) + 32 <= h + size / 2
    {
      HalfOfUse(u.byte, a, size);
    }
  }

  /** Bytes of a segment whose chunks a window covers lie in the window. */
  lemma UseInWindow(x: nat, a: nat, size: nat, b: nat, g: nat, chunks: set<nat>)
    requires IsSegmentSize(g) && Segment(x, g) == b && x % 128 / 32 in chunks && Covers(a, size, b, chunks)
    ensures a <= x < a + size
  {
    ChunkOfUse(x, b, g);
  }

  lemma RecordOfSegment(m: MemAccess, us: set<Use>, b: nat, g: nat)
    requires IsSegmentSize(g) && us != {} && m.info == Exact(us)
    requires forall u | u in us :: Segment(u.byte, g) == b
    requires BestWindow(m.addr, m.size, b, g, m.info.chunks)
    ensures IsRecord(m, us)
  {
    assert m.info.chunks == ChunksOf(us);
    forall u | u in us ensures m.addr <= u.byte < m.addr + m.size {
      UseInWindow(u.byte, m.addr, m.size, b, g, m.info.chunks);
    }
    if m.size > 32 {
      HalvesUsed(m.addr, m.size, b, g, us);
    }
  }

  /** `us` are the uses of the part in block `q`. */
  ghost predicate AreBlockUses(
    us: set<Use>, addrs: seq<seq<nat>>, active: set<nat>, lo: nat, hi: nat, d: nat, n: nat, q: int)
    requires hi <= |addrs| && n > 0
  {
    forall u :: u in us <==> UsesByte(addrs, active, lo, hi, d, u.thread, u.byte) && u.byte / n == q
  }

  /** The access records the uses of its block. */
  ghost predicate RecordsBlock(
    m: MemAccess, addrs: seq<seq<nat>>, active: set<nat>, lo: nat, hi: nat, d: nat, n: nat)
    requires hi <= |addrs| && n > 0
  {
    exists us :: AreBlockUses(us, addrs, active, lo, hi, d, n, m.addr / n) && IsRecord(m, us)
  }

  /** No access of the part leaves its 32-byte chunk, as none does that is aligned. */
  ghost predicate InsideChunks(addrs: seq<seq<nat>>, active: set<nat>, lo: nat, hi: nat, d: nat)
    requires hi <= |addrs|
  {
    forall t: nat, k: nat | lo <= t < hi && t in active && SlotUsed(addrs[t], k) :: addrs[t][k] % 32 + d <= 32
  }

  lemma {:induction false} ThreadInsideChunks(t: nat, slots: seq<nat>, n: nat, d: nat)
    requires n <= |slots| && forall k: nat | k < n :: slots[k] % 32 + d <= 32
    ensures forall a | a in ThreadAccesses(t, slots, n) :: InOneChunk(a, d)
  {
    if n > 0 {
      ThreadInsideChunks(t, slots, n - 1, d);
    }
  }

  lemma {:induction false} PartInsideChunks(addrs: seq<seq<nat>>, active: set<nat>, lo: nat, hi: nat, d: nat)
    requires hi <= |addrs| && InsideChunks(addrs, active, lo, hi, d)
    ensures forall a | a in PartAccesses(addrs, active, lo, hi) :: InOneChunk(a, d)
    decreases hi
  {
    if hi > lo {
      var t := hi - 1;
      PartInsideChunks(addrs, active, lo, t, d);
      if t in active {
        forall k: nat | k < UsedSlots(addrs[t]) ensures addrs[t][k] % 32 + d <= 32 {
          SlotsUsed(addrs[t], k);
        }
        ThreadInsideChunks(t, addrs[t], UsedSlots(addrs[t]), d);
      }
    }
  }

  lemma SameSegment(x: nat, y: nat, g: nat)
    requires IsSegmentSize(g)
    ensures Segment(x, g) == Segment(y, g) <==> x / g == y / g
  {
    SegmentIsBlock(x, g);
    SegmentIsBlock(y, g);
    SameBlockSegment(x, y / g, g);
  }

  /** `own` are the uses in the block of address `a`. */
  ghost predicate AreUsesAt(own: set<Use>, us: set<Use>, g: nat, a: nat)
    requires g > 0
  {
    forall u :: u in own <==> u in us && u.byte / g == a / g
  }

  lemma SegmentUses(us: set<Use>, b: int, g: nat, a: nat)
    requires IsSegmentSize(g) && b in ExactTransactions(us, g) && b == Segment(a, g)
    ensures Within(us, b, g) != {} && AreUsesAt(Within(us, b, g), us, g, a)
  {
    var u :| u in us && Segment(u.byte, g) as int == b;
    assert u in Within(us, b, g);
    forall u ensures u in Within(us, b, g) <==> u in us && u.byte / g == a / g {
      SameSegment(u.byte, a, g);
    }
  }

  lemma SentSegment(l: seq<Access>, d: nat, g: nat, write: bool, batch: Batch, i: nat) returns (b: nat)
    requires IsSegmentSize(g) && IsDataSize(d) && forall a | a in l :: InOneChunk(a, d)
    requires SentFor(batch, MarkAll(l, d, g), write) && i < |batch.sent|
    ensures b in ExactTransactions(Uses(l, d), g) && b == Segment(batch.sent[i].addr, g)
    ensures batch.sent[i] == Queued(b, Exact(Within(Uses(l, d), b, g)), write)
    ensures BestWindow(batch.sent[i].addr, batch.sent[i].size, b, g, batch.sent[i].info.chunks)
  {
    MarkAllExact(l, d, g);
    MarkAllChunksOk(l, d, g);
    b := SentFrom(Uses(l, d), g, write, batch, i);
    assert b in MarkAll(l, d, g);
    WindowIsBest(b, g, batch.sent[i].info.chunks);
    SegmentUnique(batch.sent[i].addr, b, g);
  }

  /** The access records `own`, which are the uses of its block. */
  ghost predicate RecordsOwn(m: MemAccess, us: set<Use>, g: nat, own: set<Use>)
    requires g > 0
  {
    IsRecord(m, own) && AreUsesAt(own, us, g, m.addr)
  }

  lemma RecordOfBlock(m: MemAccess, us: set<Use>, b: nat, g: nat, write: bool) returns (own: set<Use>)
    requires IsSegmentSize(g) && b in ExactTransactions(us, g) && b == Segment(m.addr, g)
    requires m == Queued(b, Exact(Within(us, b, g)), write)
    requires BestWindow(m.addr, m.size, b, g, m.info.chunks)
    ensures RecordsOwn(m, us, g, own)
  {
    own := Within(us, b, g);
    SegmentUses(us, b, g, m.addr);
    RecordOfSegment(m, own, b, g);
  }

  lemma SentRecord(l: seq<Access>, d: nat, g: nat, write: bool, batch: Batch, i: nat) returns (own: set<Use>)
    requires IsSegmentSize(g) && IsDataSize(d) && forall a | a in l :: InOneChunk(a, d)
    requires SentFor(batch, MarkAll(l, d, g), write) && i < |batch.sent|
    ensures RecordsOwn(batch.sent[i], Uses(l, d), g, own)
  {
    var b := SentSegment(l, d, g, write, batch, i);
    own := RecordOfBlock(batch.sent[i], Uses(l, d), b, g, write);
  }

  lemma SentDirection(l: seq<Access>, d: nat, g: nat, write: bool, batch: Batch)
    requires d > 0 && SentFor(batch, MarkAll(l, d, g), write)
    ensures forall m | m in batch.sent :: m.write == write
  {
    forall i | 0 <= i < |batch.sent| ensures batch.sent[i].write == write {
      QueuedAt(MarkAll(l, d, g), batch.keys, write, i);
    }
  }

  /** What a part queues for aligned loads and stores: each access records the uses of its block. */
  lemma PartRecords(
    addrs: seq<seq<nat>>, active: set<nat>, lo: nat, hi: nat, d: nat, g: nat, write: bool, batch: Batch)
    requires hi <= |addrs| && IsSegmentSize(g) && IsDataSize(d) && InsideChunks(addrs, active, lo, hi, d)
    requires SentFor(batch, MarkAll(PartAccesses(addrs, active, lo, hi), d, g), write)
    ensures forall m | m in batch.sent :: RecordsBlock(m, addrs, active, lo, hi, d, g)
  {
    var l := PartAccesses(addrs, active, lo, hi);
    PartInsideChunks(addrs, active, lo, hi, d);
    forall i | 0 <= i < |batch.sent| ensures RecordsBlock(batch.sent[i], addrs, active, lo, hi, d, g)
    {
      var us := SentRecord(l, d, g, write, batch, i);
      forall u ensures u in us <==>
        UsesByte(addrs, active, lo, hi, d, u.thread, u.byte) && u.byte / g == batch.sent[i].addr / g
      {
        PartUses(addrs, active, lo, hi, d, u);
      }
      assert AreBlockUses(us, addrs, active, lo, hi, d, g, batch.sent[i].addr / g);
    }
  }
}
