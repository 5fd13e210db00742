/** The coalescing loops of a warp instruction, the access queue they fill, and what
    the queued windows amount to. */
module CoalescingUnit {
  import opened OrderedKeys
  import opened Coalescer

  // ----- the accesses of a part of the warp -------------------------------------------------

  /** Address slots are used up to the first zero one. */
  function UsedSlots(slots: seq<nat>, from: nat := 0): (n: nat)
    requires from <= |slots|
    ensures from <= n <= |slots| && (forall i | from <= i < n :: slots[i] != 0) && (n < |slots| ==> slots[n] == 0)
    decreases |slots| - from
  {
    if from == |slots| || slots[from] == 0 then from else UsedSlots(slots, from + 1)
  }

  function ThreadAccesses(t: nat, slots: seq<nat>, n: nat): seq<Access>
    requires n <= |slots|
  {
    if n == 0 then [] else ThreadAccesses(t, slots, n - 1) + [Access(t, slots[n - 1])]
  }

  /** Accesses of the active threads `lo` to `hi - 1`, in thread order. */
  function PartAccesses(addrs: seq<seq<nat>>, active: set<nat>, lo: nat, hi: nat): seq<Access>
    requires hi <= |addrs|
    decreases hi
  {
    if hi <= lo then [] else
    PartAccesses(addrs, active, lo, hi - 1) +
    if hi - 1 in active then ThreadAccesses(hi - 1, addrs[hi - 1], UsedSlots(addrs[hi - 1])) else []
  }

  // ----- queue contents -----------------------------------------------------------------------

  function LowestChunk(chunks: set<nat>): nat {
    if 0 in chunks then 0 else if 1 in chunks then 1 else if 2 in chunks then 2 else 3
  }

  function HighestChunk(chunks: set<nat>): nat {
    if 3 in chunks then 3 else if 2 in chunks then 2 else if 1 in chunks then 1 else 0
  }

  /** Number of chunks of the window: one, an aligned pair, or the whole block. */
  function WindowChunks(lo: nat, hi: nat): nat {
    if lo == hi then 1 else if lo / 2 == hi / 2 then 2 else 4
  }

  function Window(b: nat, chunks: set<nat>): (nat, nat) {
    var lo := LowestChunk(chunks);
    var n := WindowChunks(lo, HighestChunk(chunks));
    (b - b % 128 + 32 * (if n == 1 then lo else if n == 2 then lo - lo % 2 else 0), 32 * n)
  }

  /** The access queued for the transaction `info` of the segment at `b`. */
  function Queued(b: nat, info: Transaction, write: bool): MemAccess {
    var (addr, size) := Window(b, info.chunks);
    MemAccess(addr, size, write, info)
  }

  /** The accesses queued for the segments `keys`, in that order. */
  function QueuedAll(tx: map<int, Transaction>, keys: seq<int>, write: bool): (sent: seq<MemAccess>)
    requires KeysIn(keys, tx)
    ensures |sent| == |keys|
  {
    if keys == [] then [] else
    var n := |keys| - 1;
    QueuedAll(tx, keys[..n], write) + [Queued(keys[n], tx[keys[n]], write)]
  }

  lemma {:induction false} QueuedAt(tx: map<int, Transaction>, keys: seq<int>, write: bool, i: nat)
    requires KeysIn(keys, tx)
    requires i < |keys|
    ensures QueuedAll(tx, keys, write)[i] == Queued(keys[i], tx[keys[i]], write)
  {
    if i < |keys| - 1 {
      QueuedAt(tx, keys[..|keys| - 1], write, i);
    }
  }

  /** What one part of the warp queued: segments and accesses, in order. */
  datatype Batch = Batch(keys: seq<int>, sent: seq<MemAccess>)

  ghost predicate KeysIn<T>(keys: seq<int>, tx: map<int, T>) {
    forall i | 0 <= i < |keys| :: keys[i] >= 0 && keys[i] in tx
  }

  /** One access per transaction, in ascending segment order. */
  ghost predicate SentFor(batch: Batch, tx: map<int, Transaction>, write: bool) {
    && IsAscending(batch.keys, tx.Keys)
    && KeysIn(batch.keys, tx)
    && batch.sent == QueuedAll(tx, batch.keys, write)
  }

  ghost predicate ChunksOk(tx: map<int, Transaction>, g: nat) {
    forall b: int | b in tx :: b >= 0 && ChunksInSegment(b, g, tx[b].chunks)
  }

  lemma ChunkInSegment(x: nat, g: nat)
    requires IsSegmentSize(g)
    ensures var b := Segment(x, g);
      && b % g == 0 && Chunk(x) < 4
      && b <= ChunkAddr(b, Chunk(x)) <= x < ChunkAddr(b, Chunk(x)) + 32 <= b + g
  {
    var q, c, o := ChunkForm(x);
    SegmentForm(x, g, q, c, o);
    var b, i := Segment(x, g), SegmentStart(c, g);
    Mod128(q, i);
    assert b - b % 128 == 128 * q;
    match g
    case 32 =>
      assert b == 32 * (4 * q + c) + 0;
      Mod32(4 * q + c, 0);
    case 64 =>
      assert b == 64 * (2 * q + (c - c % 2) / 2) + 0;
      Mod64(2 * q + (c - c % 2) / 2, 0);
    case 128 =>
  }

  lemma TouchChunksOk(tx: map<int, Transaction>, t: nat, x: nat, d: nat, g: nat)
    requires IsSegmentSize(g) && ChunksOk(tx, g)
    ensures ChunksOk(Touch(tx, Segment(x, g), t, x, d), g)
  {
    ChunkInSegment(x, g);
    var b, r := Segment(x, g), Touch(tx, Segment(x, g), t, x, d);
    assert forall k | k in r && k != b :: k in tx && r[k] == tx[k];
    assert forall c | c in r[b].chunks :: c == Chunk(x) || (b in tx && c in tx[b].chunks);
    assert Chunk(x) in r[b].chunks;
  }

  lemma MarkAccessCases(tx: map<int, Transaction>, a: Access, d: nat, g: nat) returns (tx1: map<int, Transaction>)
    requires IsSegmentSize(g) && d > 0
    ensures tx1 == Touch(tx, Segment(a.addr, g), a.thread, a.addr, d)
    ensures var last := a.addr + d - 1;
      MarkAccess(tx, a, d, g) in {tx1, Touch(tx1, Segment(last, g), a.thread, last, d)}
  {
    tx1 := Touch(tx, Segment(a.addr, g), a.thread, a.addr, d);
  }

  lemma MarkChunksOk(tx: map<int, Transaction>, a: Access, d: nat, g: nat)
    requires IsSegmentSize(g) && d > 0 && ChunksOk(tx, g)
    ensures ChunksOk(MarkAccess(tx, a, d, g), g)
  {
    var tx1 := MarkAccessCases(tx, a, d, g);
    TouchChunksOk(tx, a.thread, a.addr, d, g);
    TouchChunksOk(tx1, a.thread, a.addr + d - 1, d, g);
  }

  lemma {:induction false} MarkAllChunksOk(l: seq<Access>, d: nat, g: nat)
    requires IsSegmentSize(g) && d > 0
    ensures ChunksOk(MarkAll(l, d, g), g)
  {
    if l != [] {
      var rest, a := l[..|l| - 1], l[|l| - 1];
      MarkAllChunksOk(rest, d, g);
      MarkChunksOk(MarkAll(rest, d, g), a, d, g);
      assert MarkAll(l, d, g) == MarkAccess(MarkAll(rest, d, g), a, d, g);
    }
  }

  // ----- the loops -------------------------------------------------------------------------------

  /** `memreqaddr` has eight slots per thread. */
  const MAX_ACCESSES: nat := 8

  method TouchTransaction(tx: map<int, Transaction>, b: int, t: nat, x: nat, d: nat)
    returns (r: map<int, Transaction>)
    ensures r == Touch(tx, b, t, x, d)
  {
    var info := if b in tx then tx[b] else NO_TRANSACTION;
    info := info.(chunks := info.chunks + {Chunk(x)});
    info := info.(active := info.active + {t});
    var idx, bytes := x % 128, info.bytes;
    for i := 0 to d
      invariant bytes == info.bytes + ByteRun(idx, i)
    {
      if idx + i < 128 {
        bytes := bytes + {idx + i};
      }
    }
    r := tx[b := info.(bytes := bytes)];
  }

  method MarkOne(tx: map<int, Transaction>, a: Access, d: nat, g: nat) returns (r: map<int, Transaction>)
    requires IsSegmentSize(g) && d > 0
    ensures r == Marker(d, g)(tx, a)
  {
    var addr := a.addr;
    r := TouchTransaction(tx, Segment(addr, g), a.thread, addr, d);
    if Segment(addr, g) != Segment(addr + d - 1, g) {
      addr := addr + d - 1;
      r := TouchTransaction(r, Segment(addr, g), a.thread, addr, d);
    }
  }

  /** The slots of one thread, one after the other. */
  function FoldSlots<M>(f: (M, Access) -> M, start: M, t: nat, slots: seq<nat>, n: nat): M
    requires n <= |slots|
  {
    if n == 0 then start else f(FoldSlots(f, start, t, slots, n - 1), Access(t, slots[n - 1]))
  }

  /** The active threads `lo` to `hi - 1`, one after the other. */
  function FoldThreads<M>(f: (M, Access) -> M, start: M, addrs: seq<seq<nat>>, active: set<nat>, lo: nat, hi: nat): M
    requires hi <= |addrs|
    decreases hi
  {
    if hi <= lo then start else
    var m := FoldThreads(f, start, addrs, active, lo, hi - 1);
    if hi - 1 in active then FoldSlots(f, m, hi - 1, addrs[hi - 1], UsedSlots(addrs[hi - 1])) else m
  }

  lemma {:induction false} FoldSlotsIsFold<M>(
    f: (M, Access) -> M, start: M, l: seq<Access>, t: nat, slots: seq<nat>, n: nat)
    requires n <= |slots|
    ensures FoldSlots(f, Fold(f, start, l), t, slots, n) == Fold(f, start, l + ThreadAccesses(t, slots, n))
  {
    var m := l + ThreadAccesses(t, slots, n);
    if n == 0 {
      assert m == l;
    } else {
      FoldSlotsIsFold(f, start, l, t, slots, n - 1);
      assert m[|m| - 1] == Access(t, slots[n - 1]) && m[..|m| - 1] == l + ThreadAccesses(t, slots, n - 1);
    }
  }

  lemma {:induction false} FoldThreadsIsFold<M>(
    f: (M, Access) -> M, start: M, addrs: seq<seq<nat>>, active: set<nat>, lo: nat, hi: nat)
    requires hi <= |addrs|
    ensures FoldThreads(f, start, addrs, active, lo, hi) == Fold(f, start, PartAccesses(addrs, active, lo, hi))
    decreases hi
  {
    if hi > lo {
      FoldThreadsIsFold(f, start, addrs, active, lo, hi - 1);
      var l := PartAccesses(addrs, active, lo, hi - 1);
      if hi - 1 in active {
        FoldSlotsIsFold(f, start, l, hi - 1, addrs[hi - 1], UsedSlots(addrs[hi - 1]));
      } else {
        assert l + [] == l;
      }
    }
  }

  lemma NextSlot<M>(f: (M, Access) -> M, start: M, t: nat, slots: seq<nat>, k: nat)
    requires k < |slots|
    ensures FoldSlots(f, start, t, slots, k + 1) == f(FoldSlots(f, start, t, slots, k), Access(t, slots[k]))
  {
  }

  method MarkThread(tx: map<int, Transaction>, t: nat, slots: seq<nat>, d: nat, g: nat)
    returns (r: map<int, Transaction>)
    requires |slots| == MAX_ACCESSES && IsSegmentSize(g) && d > 0
    ensures r == FoldSlots(Marker(d, g), tx, t, slots, UsedSlots(slots))
  {
    r := tx;
    var k := 0;
    ghost var n, mark := UsedSlots(slots), Marker(d, g);
    while k < MAX_ACCESSES && slots[k] != 0
      invariant k <= n <= MAX_ACCESSES
      invariant r == FoldSlots(mark, tx, t, slots, k)
    {
      r := MarkOne(r, Access(t, slots[k]), d, g);
      NextSlot(mark, tx, t, slots, k);
      k := k + 1;
    }
  }

  /** Step 1 of `memory_coalescing_arch` for one subwarp. */
  method MarkSubwarp(addrs: seq<seq<nat>>, active: set<nat>, lo: nat, hi: nat, d: nat, g: nat)
    returns (tx: map<int, Transaction>)
    requires lo <= hi <= |addrs| && (forall t | 0 <= t < |addrs| :: |addrs[t]| == MAX_ACCESSES)
    requires IsSegmentSize(g) && d > 0
    ensures tx == MarkAll(PartAccesses(addrs, active, lo, hi), d, g)
  {
    tx := map[];
    for t := lo to hi
      invariant tx == FoldThreads(Marker(d, g), map[], addrs, active, lo, t)
    {
      if t in active {
        tx := MarkThread(tx, t, addrs[t], d, g);
      }
    }
    FoldThreadsIsFold(Marker(d, g), map[], addrs, active, lo, hi);
  }

  // ----- window reduction -------------------------------------------------------------------------

  /** The segment `b` is chunks `start` to `start + g / 32 - 1` of its 128-byte block. */
  lemma SegmentChunks(b: nat, g: nat, chunks: set<nat>) returns (start: nat)
    requires ChunksInSegment(b, g, chunks)
    ensures b % 128 == 32 * start && 32 * start + g <= 128
    ensures g == 128 ==> start == 0
    ensures g == 64 ==> start == 0 || start == 2
    ensures forall c | c in chunks :: start <= c && 32 * c + 32 <= 32 * start + g
  {
    var q, c, o := ChunkForm(b);
    start := c;
    assert o == 0 && (g == 128 ==> c == 0) && (g == 64 ==> c % 2 == 0);
  }

  ghost predicate Spans(first: nat, n: nat, chunks: set<nat>) {
    && (n == 1 || (n == 2 && first % 2 == 0) || (n == 4 && first == 0)) && first + n <= 4
    && (forall c | c in chunks :: first <= c < first + n)
    && (n == 2 ==> first in chunks && first + 1 in chunks)
    && (n == 4 ==> exists c, e :: c in chunks && e in chunks && c < 2 <= e)
  }

  lemma WindowAligned(q: nat, first: nat, n: nat)
    requires n == 1 || (n == 2 && first % 2 == 0) || (n == 4 && first == 0)
    ensures (128 * q + 32 * first) % (32 * n) == 0
  {
    match n
    case 1 => Mod32(4 * q + first, 0);
    case 2 => Mod64(2 * q + first / 2, 0);
    case 4 => Mod128(q, 0);
  }

  /** A window of `n` chunks is best when it spans the used ones tightly. */
  lemma SpanIsBest(first: nat, n: nat, start: nat, b: nat, g: nat, chunks: set<nat>)
    requires ChunksInSegment(b, g, chunks) && Spans(first, n, chunks)
    requires b % 128 == 32 * start && start <= first && 32 * first + 32 * n <= 32 * start + g
    ensures BestWindow(b + 32 * (first - start), 32 * n, b, g, chunks)
  {
    var a := b + 32 * (first - start);
    var q := b / 128;
    assert a == 128 * q + 32 * first;
    WindowAligned(q, first, n);
    forall a2, size2 | Covers(a2, size2, b, chunks) ensures 32 * n <= size2 {
      if n == 2 {
        TwoChunksNeed64(a2, size2, b, chunks, first, first + 1);
      } else if n == 4 {
        var c, e :| c in chunks && e in chunks && c < 2 <= e;
        TwoChunksNeed64(a2, size2, b, chunks, c, e);
      }
    }
  }

  /** The window is the smallest aligned one that covers all used chunks, and it stays
      inside the segment. */
  lemma WindowIsBest(b: nat, g: nat, chunks: set<nat>)
    requires ChunksInSegment(b, g, chunks)
    ensures BestWindow(Window(b, chunks).0, Window(b, chunks).1, b, g, chunks)
  {
    var start := SegmentChunks(b, g, chunks);
    var w := Pick(chunks);
    var lo, hi := LowestChunk(chunks), HighestChunk(chunks);
    assert lo in chunks && hi in chunks && forall c | c in chunks :: lo <= c <= hi;
    var n := WindowChunks(lo, hi);
    var first := if n == 1 then lo else if n == 2 then lo - lo % 2 else 0;
    assert n == 2 ==> lo == first && hi == first + 1;
    assert Spans(first, n, chunks);
    SpanIsBest(first, n, start, b, g, chunks);
    assert Window(b, chunks) == (b - b % 128 + 32 * first, 32 * n);
  }

  /** The window as `memory_coalescing_arch_reduce_and_send` computes it, half by half. */
  method ReduceWindow(b: nat, g: nat, chunks: set<nat>) returns (addr: nat, size: nat)
    requires ChunksInSegment(b, g, chunks)
    ensures (addr, size) == Window(b, chunks)
  {
    ghost var start := SegmentChunks(b, g, chunks);
    ghost var w := Pick(chunks);
    addr, size := b, g;
    var low, high := false, false;
    if g == 128 {
      var lowerUsed := 0 in chunks || 1 in chunks;
      var upperUsed := 2 in chunks || 3 in chunks;
      if lowerUsed && !upperUsed {
        size := 64;
        low, high := 0 in chunks, 1 in chunks;
      } else if !lowerUsed && upperUsed {
        addr, size := addr + 64, 64;
        low, high := 2 in chunks, 3 in chunks;
      } else {
        assert lowerUsed && upperUsed;
      }
    } else if g == 64 {
      if addr % 128 == 0 {
        low, high := 0 in chunks, 1 in chunks;
      } else {
        assert addr % 128 == 64;
        low, high := 2 in chunks, 3 in chunks;
      }
    }
    if size == 64 {
      if low && !high {
        size := 32;
      } else if !low && high {
        addr, size := addr + 32, 32;
      } else {
        assert low && high;
      }
    }
  }

  // ----- what the queued windows amount to ----------------------------------------------------------

  predicate InWindow(m: MemAccess, x: nat) {
    m.addr <= x < m.addr + m.size
  }

  lemma SegmentUnique(x: nat, b: nat, g: nat)
    requires IsSegmentSize(g) && b % g == 0 && b <= x < b + g
    ensures Segment(x, g) == b
  {
    match g
    case 32 => Mod32(b / 32, x - b);
    case 64 => Mod64(b / 64, x - b);
    case 128 => Mod128(b / 128, x - b);
  }

  lemma SegmentsApart(b: nat, c: nat, g: nat)
    requires IsSegmentSize(g) && Segment(b, g) == b && Segment(c, g) == c && b < c
    ensures b + g <= c
  {
    match g
    case 32 =>
    case 64 =>
    case 128 =>
  }

  /** The uses inside the window of a segment's access are those inside the segment. */
  lemma WindowUses(m: MemAccess, us: set<Use>, b: nat, g: nat)
    requires IsSegmentSize(g) && b % g == 0 && m.info == Exact(Within(us, b, g))
    requires BestWindow(m.addr, m.size, b, g, m.info.chunks)
    ensures forall u | u in us :: InWindow(m, u.byte) <==> Segment(u.byte, g) == b
  {
    forall u | u in us ensures InWindow(m, u.byte) <==> Segment(u.byte, g) == b {
      if InWindow(m, u.byte) {
        SegmentUnique(u.byte, b, g);
      } else if Segment(u.byte, g) == b {
        ChunkIsUsed(us, u, g);
        ChunkInSegment(u.byte, g);
        assert false;
      }
    }
  }

  /** The `i`-th queued access is that of the `i`-th segment. */
  lemma SentFrom(us: set<Use>, g: nat, write: bool, batch: Batch, i: nat) returns (b: nat)
    requires IsSegmentSize(g) && SentFor(batch, ExactTransactions(us, g), write) && i < |batch.sent|
    ensures i < |batch.keys| && b == batch.keys[i] && b in ExactTransactions(us, g)
    ensures batch.sent[i] == Queued(b, Exact(Within(us, b, g)), write)
  {
    b := batch.keys[i];
    QueuedAt(ExactTransactions(us, g), batch.keys, write, i);
  }

  /** Its window lies in the segment and holds exactly the uses of the segment. */
  lemma QueuedUses(us: set<Use>, g: nat, write: bool, b: nat)
    requires IsSegmentSize(g) && ChunksInSegment(b, g, Exact(Within(us, b, g)).chunks)
    ensures var m := Queued(b, Exact(Within(us, b, g)), write);
      && Segment(b, g) == b && b <= m.addr && m.addr + m.size <= b + g
      && forall u | u in us :: InWindow(m, u.byte) <==> Segment(u.byte, g) == b
  {
    SegmentUnique(b, b, g);
    WindowIsBest(b, g, Exact(Within(us, b, g)).chunks);
    WindowUses(Queued(b, Exact(Within(us, b, g)), write), us, b, g);
  }

  lemma SentInOrder(us: set<Use>, g: nat, write: bool, batch: Batch, i: nat, j: nat)
    requires IsSegmentSize(g) && ChunksOk(ExactTransactions(us, g), g)
    requires SentFor(batch, ExactTransactions(us, g), write) && i < j < |batch.sent|
    ensures batch.sent[i].addr + batch.sent[i].size <= batch.sent[j].addr
  {
    var b := SentFrom(us, g, write, batch, i);
    QueuedUses(us, g, write, b);
    var c := SentFrom(us, g, write, batch, j);
    QueuedUses(us, g, write, c);
    SegmentsApart(b, c, g);
  }

  lemma UseIsSent(us: set<Use>, g: nat, write: bool, batch: Batch, u: Use) returns (i: nat)
    requires IsSegmentSize(g) && ChunksOk(ExactTransactions(us, g), g)
    requires SentFor(batch, ExactTransactions(us, g), write) && u in us
    ensures i < |batch.sent| && InWindow(batch.sent[i], u.byte)
  {
    var b: int := Segment(u.byte, g);
    assert b in ExactTransactions(us, g).Keys;
    i :| 0 <= i < |batch.keys| && batch.keys[i] == b;
    var c := SentFrom(us, g, write, batch, i);
    QueuedUses(us, g, write, c);
  }

  lemma SentInfo(us: set<Use>, g: nat, write: bool, batch: Batch, i: nat)
    requires IsSegmentSize(g) && ChunksOk(ExactTransactions(us, g), g)
    requires SentFor(batch, ExactTransactions(us, g), write) && i < |batch.sent|
    ensures batch.sent[i].info == Exact(set u | u in us && InWindow(batch.sent[i], u.byte))
  {
    var b := SentFrom(us, g, write, batch, i);
    QueuedUses(us, g, write, b);
    assert Within(us, b, g) == set u | u in us && InWindow(batch.sent[i], u.byte);
  }

  lemma SentCovers(us: set<Use>, g: nat, write: bool, batch: Batch)
    requires IsSegmentSize(g) && ChunksOk(ExactTransactions(us, g), g)
    requires SentFor(batch, ExactTransactions(us, g), write)
    ensures forall i, j | 0 <= i < j < |batch.sent| :: batch.sent[i].addr + batch.sent[i].size <= batch.sent[j].addr
    ensures forall u | u in us :: exists i :: 0 <= i < |batch.sent| && InWindow(batch.sent[i], u.byte)
  {
    forall i, j | 0 <= i < j < |batch.sent|
      ensures batch.sent[i].addr + batch.sent[i].size <= batch.sent[j].addr
    {
      SentInOrder(us, g, write, batch, i, j);
    }
    forall u | u in us ensures exists i :: 0 <= i < |batch.sent| && InWindow(batch.sent[i], u.byte) {
      var i := UseIsSent(us, g, write, batch, u);
    }
  }

  lemma SentIsExact(us: set<Use>, g: nat, write: bool, batch: Batch)
    requires IsSegmentSize(g) && ChunksOk(ExactTransactions(us, g), g)
    requires SentFor(batch, ExactTransactions(us, g), write)
    ensures |batch.sent| == |set u | u in us :: Segment(u.byte, g)|
    ensures forall i | 0 <= i < |batch.sent| ::
      batch.sent[i].info == Exact(set u | u in us && InWindow(batch.sent[i], u.byte))
  {
    assert ExactTransactions(us, g).Keys == set u | u in us :: Segment(u.byte, g);
    AscendingCard(batch.keys, ExactTransactions(us, g).Keys);
    forall i | 0 <= i < |batch.sent|
      ensures batch.sent[i].info == Exact(set u | u in us && InWindow(batch.sent[i], u.byte))
    {
      SentInfo(us, g, write, batch, i);
    }
  }

  /** One access per segment touched; the windows are disjoint and ascending; every used
      byte is in one of them; and each access carries exactly the chunks, bytes and threads
      of the uses inside its own window. */
  lemma CoalescingExact(l: seq<Access>, d: nat, g: nat, write: bool, batch: Batch)
    requires IsSegmentSize(g) && d > 0 && forall a | a in l :: InOneChunk(a, d)
    requires SentFor(batch, MarkAll(l, d, g), write)
    ensures var us, sent := Uses(l, d), batch.sent;
      && |sent| == |set u | u in us :: Segment(u.byte, g)|
      && (forall i, j | 0 <= i < j < |sent| :: sent[i].addr + sent[i].size <= sent[j].addr)
      && (forall u | u in us :: exists i :: 0 <= i < |sent| && InWindow(sent[i], u.byte))
      && (forall i | 0 <= i < |sent| :: sent[i].info == Exact(set u | u in us && InWindow(sent[i], u.byte)))
  {
    MarkAllChunksOk(l, d, g);
    MarkAllExact(l, d, g);
    SentCovers(Uses(l, d), g, write, batch);
    SentIsExact(Uses(l, d), g, write, batch);
  }
}
