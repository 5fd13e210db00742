/** How many transactions the atomics of a part take: in each block as many as the threads of its
    most-hit address. */
module AtomicRules {
  import opened OrderedKeys
  import opened Coalescer
  import opened CoalescingUnit
  import opened AtomicCoalescer
  import opened WarpMemory
  import opened AtomicQueue
  import opened SegmentRules
  import opened TransactionRecords

  /** The active threads of the part whose atomic is at address `x`. */
  ghost function ThreadsAt(addrs: seq<seq<nat>>, active: set<nat>, lo: nat, hi: nat, x: nat): set<nat>
    requires hi <= |addrs| && HasSlots(addrs)
  {
    set t: nat | lo <= t < hi && t in active && addrs[t][0] == x
  }

  lemma OneMoreAt(addrs: seq<seq<nat>>, active: set<nat>, lo: nat, t: nat, x: nat)
    requires lo <= t < |addrs| && HasSlots(addrs)
    ensures |ThreadsAt(addrs, active, lo, t + 1, x)| ==
      |ThreadsAt(addrs, active, lo, t, x)| + if t in active && addrs[t][0] == x then 1 else 0
  {
    var before, after := ThreadsAt(addrs, active, lo, t, x), ThreadsAt(addrs, active, lo, t + 1, x);
    assert after == if t in active && addrs[t][0] == x then before + {t} else before;
  }

  lemma HitsAppend(l: seq<Access>, a: Access, x: nat)
    ensures Hits(l + [a], x) == Hits(l, x) + if a.addr == x then 1 else 0
  {
    assert (l + [a])[..|l|] == l;
  }

  lemma {:induction false} HitsAreThreads(addrs: seq<seq<nat>>, active: set<nat>, lo: nat, hi: nat, x: nat)
    requires hi <= |addrs| && HasSlots(addrs)
    ensures Hits(AtomicAccesses(addrs, active, lo, hi), x) == |ThreadsAt(addrs, active, lo, hi, x)|
    decreases hi
  {
    if hi > lo {
      var t := hi - 1;
      HitsAreThreads(addrs, active, lo, t, x);
      OneMoreAt(addrs, active, lo, t, x);
      var l := AtomicAccesses(addrs, active, lo, t);
      if t in active {
        HitsAppend(l, Access(t, addrs[t][0]), x);
      } else {
        assert l + [] == l;
      }
    } else {
      assert ThreadsAt(addrs, active, lo, hi, x) == {};
    }
  }

  /** `count` is the largest number of threads with one and the same address of block `q`. */
  ghost predicate IsMostHit(
    count: nat, addrs: seq<seq<nat>>, active: set<nat>, lo: nat, hi: nat, n: nat, q: int)
    requires hi <= |addrs| && HasSlots(addrs) && n > 0
  {
    && (forall x: nat | x / n == q :: |ThreadsAt(addrs, active, lo, hi, x)| <= count)
    && (count > 0 ==> exists x: nat :: x / n == q && |ThreadsAt(addrs, active, lo, hi, x)| == count)
  }

  lemma MostHit(addrs: seq<seq<nat>>, active: set<nat>, lo: nat, hi: nat, g: nat, q: int)
    requires hi <= |addrs| && HasSlots(addrs) && IsSegmentSize(g)
    ensures IsMostHit(MaxHits(AtomicAccesses(addrs, active, lo, hi), g * q, g), addrs, active, lo, hi, g, q)
  {
    var l, b := AtomicAccesses(addrs, active, lo, hi), g * q;
    MaxHitsBounds(l, b, g);
    forall x: nat
      ensures Hits(l, x) == |ThreadsAt(addrs, active, lo, hi, x)| && (Segment(x, g) == b <==> x / g == q)
    {
      HitsAreThreads(addrs, active, lo, hi, x);
      if q >= 0 {
        SameBlockSegment(x, q, g);
      } else {
        BelowZero(q, g);
      }
    }
    if MaxHits(l, b, g) > 0 {
      var x: nat :| Segment(x, g) == b && Hits(l, x) == MaxHits(l, b, g);
      assert x / g == q && |ThreadsAt(addrs, active, lo, hi, x)| == MaxHits(l, b, g);
    }
  }

  lemma BelowZero(q: int, g: nat)
    requires IsSegmentSize(g) && q < 0
    ensures g * q < 0
  {
  }

  /** The accesses of block `q` are the `count` ones from `p` on. */
  ghost predicate BlockRun(sent: seq<MemAccess>, n: nat, q: int, p: nat, count: nat)
    requires n > 0
  {
    && p + count <= |sent|
    && forall i | 0 <= i < |sent| :: sent[i].addr / n == q <==> p <= i < p + count
  }

  /** Block `q` is queued in one run, as long as its most-hit address has threads. */
  ghost predicate BlockServed(
    sent: seq<MemAccess>, addrs: seq<seq<nat>>, active: set<nat>, lo: nat, hi: nat, n: nat, q: int)
    requires hi <= |addrs| && HasSlots(addrs) && n > 0
  {
    exists p: nat, count: nat :: BlockRun(sent, n, q, p, count) && IsMostHit(count, addrs, active, lo, hi, n, q)
  }

  /** Every access lies in one block of `n` bytes, and every block is served. */
  ghost predicate ServesHits(sent: seq<MemAccess>, addrs: seq<seq<nat>>, active: set<nat>, lo: nat, hi: nat, n: nat)
    requires hi <= |addrs| && HasSlots(addrs) && n > 0
  {
    && (forall i | 0 <= i < |sent| :: sent[i].addr % n + sent[i].size <= n)
    && forall q: int :: BlockServed(sent, addrs, active, lo, hi, n, q)
  }

  lemma RunOfSegment(sent: seq<MemAccess>, batch: Batch, g: nat, q: int, p: nat, count: nat)
    requires IsSegmentSize(g) && sent == batch.sent && Consecutive(batch, g * q, g, p, count)
    ensures BlockRun(sent, g, q, p, count)
  {
    forall i | 0 <= i < |sent| ensures sent[i].addr / g == q <==> Segment(sent[i].addr, g) == g * q {
      if q >= 0 {
        SameBlockSegment(sent[i].addr, q, g);
      } else {
        BelowZero(q, g);
      }
    }
  }

  lemma InsideBlock(a: nat, size: nat, g: nat, chunks: set<nat>)
    requires IsSegmentSize(g) && BestWindow(a, size, Segment(a, g), g, chunks)
    ensures a % g + size <= g
  {
    SegmentIsBlock(a, g);
  }

  /** Each block of the segment size has as many accesses as its most-hit address has threads. */
  lemma PartServesHits(
    addrs: seq<seq<nat>>, active: set<nat>, lo: nat, hi: nat, d: nat, g: nat, write: bool, batch: Batch)
    requires IsPart(addrs, active, lo, hi, d, g, write, batch)
    ensures ServesHits(batch.sent, addrs, active, lo, hi, g)
  {
    var l, sent := AtomicAccesses(addrs, active, lo, hi), batch.sent;
    forall i | 0 <= i < |sent| ensures sent[i].addr % g + sent[i].size <= g {
      AtomicRecord(addrs, active, lo, hi, d, g, write, batch, i);
      InsideBlock(sent[i].addr, sent[i].size, g, sent[i].info.chunks);
    }
    EverySegmentConsecutive(addrs, active, lo, hi, d, g, write, batch);
    forall q: int ensures BlockServed(sent, addrs, active, lo, hi, g, q) {
      var b := g * q;
      assert SegmentQueued(l, batch, b, g);
      var p: nat :| Consecutive(batch, b, g, p, MaxHits(l, b, g));
      RunOfSegment(sent, batch, g, q, p, MaxHits(l, b, g));
      MostHit(addrs, active, lo, hi, g, q);
    }
  }

  // ----- what each access records -------------------------------------------------------------------

  /** `us` are the bytes that the atomics of `threads` use. */
  ghost predicate AreThreadUses(us: set<Use>, addrs: seq<seq<nat>>, threads: set<nat>, d: nat)
    requires HasSlots(addrs)
  {
    forall u :: u in us <==>
      u.thread in threads && u.thread < |addrs| && addrs[u.thread][0] <= u.byte < addrs[u.thread][0] + d
  }

  /** The access records exactly what the atomics of its threads use. */
  ghost predicate RecordsThreads(m: MemAccess, addrs: seq<seq<nat>>, d: nat)
    requires HasSlots(addrs)
  {
    exists us :: AreThreadUses(us, addrs, m.info.active, d) && IsRecord(m, us)
  }

  lemma AtomicUse(addrs: seq<seq<nat>>, active: set<nat>, lo: nat, hi: nat, d: nat, u: Use)
    requires hi <= |addrs| && HasSlots(addrs)
    ensures u in Uses(AtomicAccesses(addrs, active, lo, hi), d) <==>
      lo <= u.thread < hi && u.thread in active && addrs[u.thread][0] <= u.byte < addrs[u.thread][0] + d
  {
    var l := AtomicAccesses(addrs, active, lo, hi);
    OnePerThread(addrs, active, lo, hi);
    if u in Uses(l, d) {
      var a :| a in l && u in AccessUses(a, d);
      var k :| 0 <= k < |l| && l[k] == a;
    }
    if lo <= u.thread < hi && u.thread in active && addrs[u.thread][0] <= u.byte < addrs[u.thread][0] + d {
      var k := AccessOfThread(addrs, active, lo, hi, u.thread);
      assert l[k] in l && u in AccessUses(l[k], d);
    }
  }

  /** The uses of the threads of a queued access. */
  ghost function OwnUses(l: seq<Access>, d: nat, m: MemAccess): set<Use> {
    set u | u in Uses(l, d) && u.thread in m.info.active
  }

  /** They all lie in the segment of the access. */
  lemma OwnSegment(l: seq<Access>, d: nat, g: nat, write: bool, batch: Batch, i: nat, u: Use)
    requires Sent(l, d, g, write, batch) && i < |batch.sent| && u in OwnUses(l, d, batch.sent[i])
    ensures Segment(u.byte, g) == Segment(batch.sent[i].addr, g)
  {
    var j, k := QueuedBest(l, d, g, write, batch, i);
    var b := batch.keys[j];
    AtomicLayered(l, b, d, g);
    var layer := Layer(l, b, k, d, g);
    assert batch.sent[i].info == Exact(layer);
    var v :| v in layer && v.thread == u.thread;
    LayerUses(l, b, k, d, g, u);
    LayerSegment(l, b, k, d, g, u);
  }

  lemma OwnExact(l: seq<Access>, d: nat, g: nat, write: bool, batch: Batch, i: nat)
    requires Sent(l, d, g, write, batch) && i < |batch.sent|
    ensures OwnUses(l, d, batch.sent[i]) != {} && batch.sent[i].info == Exact(OwnUses(l, d, batch.sent[i]))
    ensures batch.sent[i].write == write
  {
    var us := OwnUses(l, d, batch.sent[i]);
    QueuedExact(l, d, g, write, batch, i);
    var j, k := SlotOf(l, d, g, write, batch, i);
    AtomicAllOk(l, d, g);
    assert ListOk(batch.keys[j], AtomicAll(l, d, g)[batch.keys[j]], g);
    var c := Pick(batch.sent[i].info.chunks);
    assert us == set u | u in Uses(l, d) && u.thread in batch.sent[i].info.active;
    var u :| u in us && Chunk(u.byte) == c;
  }

  lemma AtomicIsRecord(l: seq<Access>, d: nat, g: nat, write: bool, batch: Batch, i: nat)
    requires Sent(l, d, g, write, batch) && i < |batch.sent|
    ensures IsRecord(batch.sent[i], OwnUses(l, d, batch.sent[i]))
  {
    var m := batch.sent[i];
    var us := OwnUses(l, d, m);
    OwnExact(l, d, g, write, batch, i);
    forall u | u in us ensures Segment(u.byte, g) == Segment(m.addr, g) {
      OwnSegment(l, d, g, write, batch, i, u);
    }
    var j, k := QueuedBest(l, d, g, write, batch, i);
    RecordOfSegment(m, us, Segment(m.addr, g), g);
  }

  /** Every access queued for the atomics of a part records its threads' atomics. */
  lemma PartRecordsThreads(
    addrs: seq<seq<nat>>, active: set<nat>, lo: nat, hi: nat, d: nat, g: nat, write: bool, batch: Batch)
    requires IsPart(addrs, active, lo, hi, d, g, write, batch)
    ensures forall m | m in batch.sent :: m.write == write && RecordsThreads(m, addrs, d)
  {
    var l := AtomicAccesses(addrs, active, lo, hi);
    PartIsSent(addrs, active, lo, hi, d, g, write, batch);
    forall i | 0 <= i < |batch.sent|
      ensures batch.sent[i].write == write && RecordsThreads(batch.sent[i], addrs, d)
    {
      var m := batch.sent[i];
      OwnExact(l, d, g, write, batch, i);
      AtomicIsRecord(l, d, g, write, batch, i);
      AtomicConflictFree(addrs, active, lo, hi, d, g, write, batch, i);
      forall u
        ensures u in OwnUses(l, d, m) <==>
          u.thread in m.info.active && u.thread < |addrs| && addrs[u.thread][0] <= u.byte < addrs[u.thread][0] + d
      {
        AtomicUse(addrs, active, lo, hi, d, u);
      }
      assert AreThreadUses(OwnUses(l, d, m), addrs, m.info.active, d);
    }
  }

  // ----- by architecture --------------------------------------------------------------------------------

  /** The accesses queued for the atomics of the threads `lo` to `hi - 1`, by the architecture and
      the size of the data: each records its threads' atomics, and every active thread is in one. */
  ghost predicate FollowsAtomicRules(
    w: WarpInst, sent: seq<MemAccess>, write: bool, arch: int, bypassL1: bool, lo: nat, hi: nat)
    requires w.Valid() && hi <= w.warpSize
    reads w
  {
    && (forall m | m in sent :: m.write == write && RecordsThreads(m, w.addrs, w.dataSize))
    && (forall t: nat | lo <= t < hi && t in w.active :: OnceIn(sent, t))
    && if arch >= 40 || (20 <= arch < 39 && bypassL1) || w.dataSize == 1 then
      (forall m | m in sent :: m.size == 32) && ServesHits(sent, w.addrs, w.active, lo, hi, 32)
    else if w.dataSize == 2 then ServesHits(sent, w.addrs, w.active, lo, hi, 64)
    else ServesHits(sent, w.addrs, w.active, lo, hi, 128)
  }

  /** One of the accesses is made for thread `t`. */
  ghost predicate OnceIn(sent: seq<MemAccess>, t: nat) {
    && (exists i :: 0 <= i < |sent| && t in sent[i].info.active)
    && forall i, j | 0 <= i < j < |sent| :: t !in sent[i].info.active || t !in sent[j].info.active
  }

  lemma ThreadsOnce(
    addrs: seq<seq<nat>>, active: set<nat>, lo: nat, hi: nat, d: nat, g: nat, write: bool, batch: Batch)
    requires IsPart(addrs, active, lo, hi, d, g, write, batch)
    ensures forall t: nat | lo <= t < hi && t in active :: OnceIn(batch.sent, t)
  {
    EveryThreadOnce(addrs, active, lo, hi, d, g, write, batch);
    forall t: nat | lo <= t < hi && t in active ensures OnceIn(batch.sent, t) {
      var i: nat :| OnlyIn(batch, t, i);
      assert t in batch.sent[i].info.active;
    }
  }

  /** What `CoalesceAtomic` queues for aligned atomics. */
  lemma PartFollowsAtomicRules(
    w: WarpInst, batch: Batch, write: bool, arch: int, bypassL1: bool, lo: nat, hi: nat)
    requires w.Valid() && hi <= w.warpSize
    requires forall t | lo <= t < hi && t in w.active :: w.addrs[t][0] % w.dataSize == 0
    requires w.PartSentAtomic(batch, lo, hi, write, w.PartSegment(arch, bypassL1))
    ensures FollowsAtomicRules(w, batch.sent, write, arch, bypassL1, lo, hi)
  {
    var d, g := w.dataSize, w.PartSegment(arch, bypassL1);
    PartServesHits(w.addrs, w.active, lo, hi, d, g, write, batch);
    PartRecordsThreads(w.addrs, w.active, lo, hi, d, g, write, batch);
    ThreadsOnce(w.addrs, w.active, lo, hi, d, g, write, batch);
    w.PartAtomicSectors(batch, write, arch, bypassL1, lo, hi);
  }
}
