/** A warp instruction that fills its access queue, for plain and atomic accesses to
    global memory. */
module WarpMemory {
  import opened OrderedKeys
  import opened Coalescer
  import opened CoalescingUnit
  import opened AtomicCoalescer
  import opened SegmentRules
  import opened TransactionRecords
  import opened WarpParts

  // ----- atomics: the loops of step 1 ------------------------------------------------------

  /** `transaction_info::test_bytes`. */
  method TestBytes(info: Transaction, idx: nat, d: nat) returns (used: bool)
    ensures used <==> Conflicts(info, idx, d)
  {
    for i := 0 to d
      invariant forall y | idx <= y < idx + i :: y !in info.bytes
    {
      if idx + i in info.bytes {
        return true;
      }
    }
    return false;
  }

  /** The first transaction that uses none of the bytes. */
  method FindFree(ts: seq<Transaction>, idx: nat, d: nat) returns (i: nat)
    ensures i == FirstFree(ts, idx, d) && (i < |ts| ==> !Conflicts(ts[i], idx, d))
  {
    i := 0;
    while i < |ts|
      invariant 0 <= i <= |ts|
      invariant forall k | 0 <= k < i :: Conflicts(ts[k], idx, d)
    {
      var used := TestBytes(ts[i], idx, d);
      if !used {
        break;
      }
      i := i + 1;
    }
    FirstFreeIs(ts, idx, d, 0, i);
  }

  /** Each byte is set once, as the source asserts. */
  method SetBytes(info: Transaction, idx: nat, d: nat) returns (bytes: set<nat>)
    requires !Conflicts(info, idx, d) && idx + d <= 128
    ensures bytes == info.bytes + ByteRun(idx, d)
  {
    bytes := info.bytes;
    for k := 0 to d
      invariant bytes == info.bytes + ByteRun(idx, k)
    {
      ByteRunIs(idx, k);
      assert idx + k !in bytes;
      bytes := bytes + {idx + k};
    }
  }

  method MarkAtomic(tx: Lists, a: Access, d: nat, g: nat) returns (r: Lists)
    requires IsSegmentSize(g) && d > 0 && Segment(a.addr, g) == Segment(a.addr + d - 1, g)
    ensures r == AtomicMarker(d, g)(tx, a)
  {
    var b, idx := Segment(a.addr, g), a.addr % 128;
    var ts := if b in tx then tx[b] else [];
    var i := FindFree(ts, idx, d);
    var info := if i < |ts| then ts[i] else NO_TRANSACTION;
    OffsetsOrdered(a.addr, a.addr + d - 1, g);
    var bytes := SetBytes(info, idx, d);
    info := Transaction(info.chunks + {Chunk(a.addr)}, bytes, info.active + {a.thread});
    r := tx[b := if i < |ts| then ts[i := info] else ts + [info]];
  }

  /** One access, at slot 0, for every active thread. */
  function AtomicAccesses(addrs: seq<seq<nat>>, active: set<nat>, lo: nat, hi: nat): seq<Access>
    requires hi <= |addrs| && forall t | 0 <= t < |addrs| :: |addrs[t]| == MAX_ACCESSES
    decreases hi
  {
    if hi <= lo then [] else
    AtomicAccesses(addrs, active, lo, hi - 1) + if hi - 1 in active then [Access(hi - 1, addrs[hi - 1][0])] else []
  }

  lemma FoldAppend<M>(f: (M, Access) -> M, start: M, l: seq<Access>, a: Access)
    ensures Fold(f, start, l + [a]) == f(Fold(f, start, l), a)
  {
    assert (l + [a])[..|l|] == l;
  }

  method MarkAtomicSubwarp(addrs: seq<seq<nat>>, active: set<nat>, lo: nat, hi: nat, d: nat, g: nat)
    returns (tx: Lists)
    requires lo <= hi <= |addrs| && (forall t | 0 <= t < |addrs| :: |addrs[t]| == MAX_ACCESSES)
    requires IsSegmentSize(g) && d > 0
    requires forall t | lo <= t < hi && t in active :: Segment(addrs[t][0], g) == Segment(addrs[t][0] + d - 1, g)
    ensures tx == AtomicAll(AtomicAccesses(addrs, active, lo, hi), d, g)
  {
    tx := map[];
    ghost var mark := AtomicMarker(d, g);
    for t := lo to hi
      invariant tx == Fold(mark, map[], AtomicAccesses(addrs, active, lo, t))
    {
      ghost var l := AtomicAccesses(addrs, active, lo, t);
      if t in active {
        tx := MarkAtomic(tx, Access(t, addrs[t][0]), d, g);
        FoldAppend(mark, map[], l, Access(t, addrs[t][0]));
      } else {
        assert l + [] == l;
      }
    }
  }

  // ----- chunks of atomic transactions --------------------------------------------------------

  ghost predicate ListOk(b: int, ts: seq<Transaction>, g: nat) {
    b >= 0 && forall i | 0 <= i < |ts| :: ChunksInSegment(b, g, ts[i].chunks)
  }

  ghost predicate ListsOk(tx: Lists, g: nat) {
    forall b: int | b in tx :: ListOk(b, tx[b], g)
  }

  lemma PlaceOk(ts: seq<Transaction>, a: Access, d: nat, g: nat)
    requires IsSegmentSize(g) && ListOk(Segment(a.addr, g), ts, g)
    ensures ListOk(Segment(a.addr, g), Place(ts, a, d), g)
  {
    ChunkInSegment(a.addr, g);
    var ts' := Place(ts, a, d);
    forall i | 0 <= i < |ts'| ensures ChunksInSegment(Segment(a.addr, g), g, ts'[i].chunks) {
      if i >= |ts| || ts'[i] != ts[i] {
        assert ts'[i].chunks == (if i < |ts| then ts[i].chunks else {}) + {Chunk(a.addr)};
        assert Chunk(a.addr) in ts'[i].chunks;
      }
    }
  }

  lemma AtomicMarkOk(tx: Lists, a: Access, d: nat, g: nat)
    requires IsSegmentSize(g) && ListsOk(tx, g)
    ensures ListsOk(AtomicMark(tx, a, d, g), g)
  {
    PlaceOk(ListAt(tx, Segment(a.addr, g)), a, d, g);
  }

  lemma {:induction false} AtomicAllOk(l: seq<Access>, d: nat, g: nat)
    requires IsSegmentSize(g)
    ensures ListsOk(AtomicAll(l, d, g), g)
  {
    if l != [] {
      AtomicAllOk(l[..|l| - 1], d, g);
      AtomicMarkOk(AtomicAll(l[..|l| - 1], d, g), l[|l| - 1], d, g);
    }
  }

  // ----- sending ---------------------------------------------------------------------------------

  function QueuedList(b: nat, ts: seq<Transaction>, n: nat, write: bool): seq<MemAccess>
    requires n <= |ts|
  {
    if n == 0 then [] else QueuedList(b, ts, n - 1, write) + [Queued(b, ts[n - 1], write)]
  }

  /** The accesses queued for all transactions of the segments `keys`, in that order. */
  function QueuedLists(tx: Lists, keys: seq<int>, write: bool): seq<MemAccess>
    requires KeysIn(keys, tx)
  {
    if keys == [] then [] else
    var n := |keys| - 1;
    QueuedLists(tx, keys[..n], write) + QueuedList(keys[n], tx[keys[n]], |tx[keys[n]]|, write)
  }

  /** With 32-byte segments every access is a whole segment. */
  lemma {:induction false} ListsAreSectors(tx: Lists, keys: seq<int>, write: bool)
    requires KeysIn(keys, tx) && ListsOk(tx, 32)
    ensures forall m | m in QueuedLists(tx, keys, write) :: m.size == 32 && m.addr % 32 == 0
  {
    if keys != [] {
      var n := |keys| - 1;
      var b: int := keys[n];
      assert b in tx && ListOk(b, tx[b], 32);
      ListsAreSectors(tx, keys[..n], write);
      ListIsSectors(b, tx[b], |tx[b]|, write);
    }
  }

  lemma {:induction false} ListIsSectors(b: nat, ts: seq<Transaction>, n: nat, write: bool)
    requires n <= |ts| && ListOk(b, ts, 32)
    ensures forall m | m in QueuedList(b, ts, n, write) :: m.size == 32 && m.addr % 32 == 0
  {
    if n > 0 {
      ListIsSectors(b, ts, n - 1, write);
      SmallWindow(b, ts[n - 1], write);
    }
  }

  lemma NextList(queue: seq<MemAccess>, tx: Lists, keys: seq<int>, i: nat, write: bool)
    requires KeysIn(keys, tx) && i < |keys|
    ensures KeysIn(keys[..i], tx) && KeysIn(keys[..i + 1], tx)
    ensures var ts := tx[keys[i]];
      (queue + QueuedLists(tx, keys[..i], write)) + QueuedList(keys[i], ts, |ts|, write) ==
        queue + QueuedLists(tx, keys[..i + 1], write)
  {
    assert keys[..i + 1][..i] == keys[..i];
  }

  ghost predicate SentLists(batch: Batch, tx: Lists, write: bool) {
    && IsAscending(batch.keys, tx.Keys)
    && KeysIn(batch.keys, tx)
    && batch.sent == QueuedLists(tx, batch.keys, write)
  }

  /** A queue after the parts of a warp added to it, part after part. */
  function QueueAfter(start: seq<MemAccess>, batches: seq<Batch>): seq<MemAccess> {
    if batches == [] then start else QueueAfter(start, batches[..|batches| - 1]) + batches[|batches| - 1].sent
  }

  lemma QueueGrows(
    start: seq<MemAccess>, batches: seq<Batch>, batch: Batch, before: seq<MemAccess>, after: seq<MemAccess>)
    requires before == QueueAfter(start, batches) && after == before + batch.sent
    ensures after == QueueAfter(start, batches + [batch])
  {
    assert (batches + [batch])[..|batches|] == batches;
  }

  class WarpInst {
    const warpSize: nat
    const active: set<nat>
    const addrs: seq<seq<nat>>
    const dataSize: nat
    const localSpace: bool
    var accessq: seq<MemAccess>

    constructor (warpSize: nat, active: set<nat>, addrs: seq<seq<nat>>, dataSize: nat, localSpace: bool)
      ensures this.warpSize == warpSize && this.active == active
      ensures this.addrs == addrs && this.dataSize == dataSize && this.localSpace == localSpace && accessq == []
    {
      this.warpSize, this.active, this.addrs := warpSize, active, addrs;
      this.dataSize, this.localSpace, accessq := dataSize, localSpace, [];
    }

    ghost predicate Valid() {
      && |addrs| == warpSize && IsDataSize(dataSize)
      && (forall t | 0 <= t < |addrs| :: |addrs[t]| == 8)
    }

    /** Local accesses of four bytes and more were split into four-byte ones. */
    function AccessSize(): nat {
      if localSpace && dataSize >= 4 then 4 else dataSize
    }

    method ReduceAndSend(write: bool, info: Transaction, b: nat, g: nat)
      requires ChunksInSegment(b, g, info.chunks)
      modifies this`accessq
      ensures accessq == old(accessq) + [Queued(b, info, write)]
    {
      var addr, size := ReduceWindow(b, g, info.chunks);
      accessq := accessq + [MemAccess(addr, size, write, info)];
    }

    /** Step 2 of `memory_coalescing_arch`: `keys` are the segments in iteration order. */
    method SendAll(write: bool, tx: map<int, Transaction>, keys: seq<int>, g: nat)
      requires ChunksOk(tx, g) && KeysIn(keys, tx)
      modifies this`accessq
      ensures accessq == old(accessq) + QueuedAll(tx, keys, write)
    {
      for i := 0 to |keys|
        invariant accessq == old(accessq) + QueuedAll(tx, keys[..i], write)
      {
        ReduceAndSend(write, tx[keys[i]], keys[i], g);
        assert keys[..i + 1][..i] == keys[..i];
      }
      assert keys[..|keys|] == keys;
    }

    /** Step 2 of `memory_coalescing_arch_atomic`: `keys` are the segments in iteration order. */
    method SendLists(write: bool, tx: Lists, keys: seq<int>, g: nat)
      requires ListsOk(tx, g) && KeysIn(keys, tx)
      modifies this`accessq
      ensures accessq == old(accessq) + QueuedLists(tx, keys, write)
    {
      for i := 0 to |keys|
        invariant accessq == old(accessq) + QueuedLists(tx, keys[..i], write)
      {
        SendList(write, keys[i], tx[keys[i]], g);
        NextList(old(accessq), tx, keys, i, write);
      }
      assert keys[..|keys|] == keys;
    }

    method SendList(write: bool, b: nat, ts: seq<Transaction>, g: nat)
      requires ListOk(b, ts, g)
      modifies this`accessq
      ensures accessq == old(accessq) + QueuedList(b, ts, |ts|, write)
    {
      for i := 0 to |ts|
        invariant accessq == old(accessq) + QueuedList(b, ts, i, write)
      {
        ReduceAndSend(write, ts[i], b, g);
      }
    }

    ghost function PartSegment(arch: int, bypassL1: bool): nat
      requires Valid()
    {
      SegmentSize(dataSize, SectorSegments(arch, bypassL1))
    }

    /** What the threads `lo` to `hi - 1` queue. */
    ghost predicate PartSent(batch: Batch, lo: nat, hi: nat, write: bool, g: nat)
      requires Valid() && hi <= warpSize && IsSegmentSize(g)
    {
      SentFor(batch, MarkAll(PartAccesses(addrs, active, lo, hi), AccessSize(), g), write)
    }

    /** No atomic of these threads leaves its segment, as the source asserts. */
    ghost predicate AtomicsInside(lo: nat, hi: nat, g: nat)
      requires Valid() && hi <= warpSize && IsSegmentSize(g)
    {
      forall t | lo <= t < hi && t in active :: Segment(addrs[t][0], g) == Segment(addrs[t][0] + dataSize - 1, g)
    }

    lemma PartInside(lo: nat, hi: nat, g: nat)
      requires Valid() && hi <= warpSize && IsSegmentSize(g) && AtomicsInside(0, warpSize, g)
      ensures AtomicsInside(lo, hi, g)
    {
    }

    ghost predicate PartSentAtomic(batch: Batch, lo: nat, hi: nat, write: bool, g: nat)
      requires Valid() && hi <= warpSize && IsSegmentSize(g)
    {
      SentLists(batch, AtomicAll(AtomicAccesses(addrs, active, lo, hi), dataSize, g), write)
    }

    /** One access for each block of `n` bytes that the threads use, in ascending order; each records
        the uses of its block if none leaves its 32-byte chunk. */
    ghost predicate FollowsBlocks(sent: seq<MemAccess>, d: nat, n: nat, lo: nat, hi: nat)
      requires Valid() && hi <= warpSize && n > 0
    {
      && CountsBlocks(sent, addrs, active, lo, hi, d, n) && ServesBlocks(sent, addrs, active, lo, hi, d, n)
      && (InsideChunks(addrs, active, lo, hi, d) ==>
            forall m | m in sent :: RecordsBlock(m, addrs, active, lo, hi, d, n))
    }

    /** The accesses queued for the threads `lo` to `hi - 1` of a plain load or store: blocks of 32
        bytes where the caches have sectors, else of 32 bytes for each byte of data up to 128. Local
        accesses of four bytes and more are four-byte ones. */
    ghost predicate FollowsRules(sent: seq<MemAccess>, write: bool, arch: int, bypassL1: bool, lo: nat, hi: nat)
      requires Valid() && hi <= warpSize
    {
      var d := if localSpace && dataSize >= 4 then 4 else dataSize;
      && (forall m | m in sent :: m.write == write)
      && if arch >= 40 || (20 <= arch < 39 && bypassL1) || dataSize == 1 then
        (forall m | m in sent :: m.size == 32 && m.addr % 32 == 0) && FollowsBlocks(sent, d, 32, lo, hi)
      else if dataSize == 2 then FollowsBlocks(sent, d, 64, lo, hi)
      else FollowsBlocks(sent, d, 128, lo, hi)
    }

    lemma PartFollowsBlocks(batch: Batch, write: bool, g: nat, lo: nat, hi: nat)
      requires Valid() && hi <= warpSize && IsSegmentSize(g) && PartSent(batch, lo, hi, write, g)
      ensures FollowsBlocks(batch.sent, AccessSize(), g, lo, hi)
    {
      PartCountsBlocks(addrs, active, lo, hi, AccessSize(), g, write, batch);
      PartServesBlocks(addrs, active, lo, hi, AccessSize(), g, write, batch);
      if InsideChunks(addrs, active, lo, hi, AccessSize()) {
        PartRecords(addrs, active, lo, hi, AccessSize(), g, write, batch);
      }
    }

    lemma PartFollowsRules(batch: Batch, write: bool, arch: int, bypassL1: bool, lo: nat, hi: nat)
      requires Valid() && hi <= warpSize && PartSent(batch, lo, hi, write, PartSegment(arch, bypassL1))
      ensures FollowsRules(batch.sent, write, arch, bypassL1, lo, hi)
    {
      var l, d, g := PartAccesses(addrs, active, lo, hi), AccessSize(), PartSegment(arch, bypassL1);
      PartFollowsBlocks(batch, write, g, lo, hi);
      SentDirection(l, d, g, write, batch);
      if g == 32 {
        SectorsOnly(l, d, write, batch);
      }
    }

    /** Every access queued for atomics has 32 bytes where the caches have sectors. */
    ghost predicate AtomicSectors(sent: seq<MemAccess>, arch: int, bypassL1: bool) {
      arch >= 40 || (20 <= arch < 39 && bypassL1) || dataSize == 1 ==>
        forall m | m in sent :: m.size == 32 && m.addr % 32 == 0
    }

    lemma PartAtomicSectors(batch: Batch, write: bool, arch: int, bypassL1: bool, lo: nat, hi: nat)
      requires Valid() && hi <= warpSize && PartSentAtomic(batch, lo, hi, write, PartSegment(arch, bypassL1))
      ensures AtomicSectors(batch.sent, arch, bypassL1)
    {
      if PartSegment(arch, bypassL1) == 32 {
        var tx := AtomicAll(AtomicAccesses(addrs, active, lo, hi), dataSize, 32);
        AtomicAllOk(AtomicAccesses(addrs, active, lo, hi), dataSize, 32);
        ListsAreSectors(tx, batch.keys, write);
      }
    }

    /** `memory_coalescing_arch` for the subwarp of threads `lo` to `hi - 1`. */
    method Coalesce(write: bool, arch: int, bypassL1: bool, lo: nat, hi: nat) returns (ghost batch: Batch)
      requires Valid() && lo <= hi <= warpSize
      modifies this`accessq
      ensures accessq == old(accessq) + batch.sent
      ensures PartSent(batch, lo, hi, write, PartSegment(arch, bypassL1))
      ensures FollowsRules(batch.sent, write, arch, bypassL1, lo, hi)
    {
      var g := SegmentSize(dataSize, SectorSegments(arch, bypassL1));
      var tx := MarkSubwarp(addrs, active, lo, hi, AccessSize(), g);
      MarkAllChunksOk(PartAccesses(addrs, active, lo, hi), AccessSize(), g);
      var keys := Enumerate(tx.Keys);
      AscendingIn(keys, tx.Keys);
      SendAll(write, tx, keys, g);
      batch := Batch(keys, QueuedAll(tx, keys, write));
      PartFollowsRules(batch, write, arch, bypassL1, lo, hi);
    }

    /** `memory_coalescing_arch_atomic` for the subwarp of threads `lo` to `hi - 1`. The
        source asserts that no atomic leaves its segment. */
    method CoalesceAtomic(write: bool, arch: int, bypassL1: bool, lo: nat, hi: nat) returns (ghost batch: Batch)
      requires Valid() && lo <= hi <= warpSize
      requires AtomicsInside(lo, hi, PartSegment(arch, bypassL1))
      modifies this`accessq
      ensures accessq == old(accessq) + batch.sent
      ensures PartSentAtomic(batch, lo, hi, write, PartSegment(arch, bypassL1))
      ensures AtomicSectors(batch.sent, arch, bypassL1)
    {
      var g := SegmentSize(dataSize, SectorSegments(arch, bypassL1));
      var tx := MarkAtomicSubwarp(addrs, active, lo, hi, dataSize, g);
      AtomicAllOk(AtomicAccesses(addrs, active, lo, hi), dataSize, g);
      var keys := Enumerate(tx.Keys);
      AscendingIn(keys, tx.Keys);
      SendLists(write, tx, keys, g);
      batch := Batch(keys, QueuedLists(tx, keys, write));
      PartAtomicSectors(batch, write, arch, bypassL1, lo, hi);
    }

    /** What each of the first parts of the warp queued. */
    ghost predicate PartsSent(batches: seq<Batch>, size: nat, write: bool, g: nat)
      requires Valid() && IsSegmentSize(g) && Start(|batches|, size) <= warpSize
    {
      batches == [] ||
      var p := |batches| - 1;
      && PartsSent(batches[..p], size, write, g)
      && PartSent(batches[p], Start(p, size), Start(p + 1, size), write, g)
    }

    lemma PartsSentAppend(batches: seq<Batch>, batch: Batch, p: nat, size: nat, write: bool, g: nat)
      requires Valid() && IsSegmentSize(g) && p == |batches| && Start(p + 1, size) <= warpSize
      requires PartsSent(batches, size, write, g)
      requires PartSent(batch, Start(p, size), Start(p + 1, size), write, g)
      ensures PartsSent(batches + [batch], size, write, g)
    {
      var m := batches + [batch];
      assert |m| - 1 == p && m[p] == batch && m[..p] == batches;
      assert PartsSent(m[..p], size, write, g) && PartSent(m[p], Start(p, size), Start(p + 1, size), write, g);
    }

    /** What the threads `lo` to `hi - 1` queued. */
    ghost predicate PartFollows(batch: Batch, write: bool, arch: int, bypassL1: bool, lo: nat, hi: nat)
      requires Valid()
    {
      hi <= warpSize && FollowsRules(batch.sent, write, arch, bypassL1, lo, hi)
    }

    /** What every part of a warp cut into parts of `size` threads queued. */
    ghost predicate PartsFollowRules(batches: seq<Batch>, write: bool, arch: int, bypassL1: bool, size: nat)
      requires Valid()
    {
      forall p: nat, lo: nat, hi: nat | p < |batches| && lo == p * size && hi == lo + size ::
        PartFollows(batches[p], write, arch, bypassL1, lo, hi)
    }

    lemma PartsFollowAppend(
      batches: seq<Batch>, batch: Batch, write: bool, arch: int, bypassL1: bool, p: nat, size: nat)
      requires Valid() && p == |batches| && PartsFollowRules(batches, write, arch, bypassL1, size)
      requires PartFollows(batch, write, arch, bypassL1, Start(p, size), Start(p + 1, size))
      ensures PartsFollowRules(batches + [batch], write, arch, bypassL1, size)
    {
      var more := batches + [batch];
      StartIsProduct(p, size);
      forall q: nat, lo: nat, hi: nat | q < |more| && lo == q * size && hi == lo + size
        ensures PartFollows(more[q], write, arch, bypassL1, lo, hi)
      {
        assert q < p ==> more[q] == batches[q];
      }
    }

    lemma PartAppended(
      before: seq<Batch>, batch: Batch, write: bool, arch: int, bypassL1: bool, p: nat, size: nat)
      requires Valid() && |before| == p && Start(p + 1, size) <= warpSize
      requires PartsSent(before, size, write, PartSegment(arch, bypassL1))
      requires PartsFollowRules(before, write, arch, bypassL1, size)
      requires PartSent(batch, Start(p, size), Start(p + 1, size), write, PartSegment(arch, bypassL1))
      requires PartFollows(batch, write, arch, bypassL1, Start(p, size), Start(p + 1, size))
      ensures PartsSent(before + [batch], size, write, PartSegment(arch, bypassL1))
      ensures PartsFollowRules(before + [batch], write, arch, bypassL1, size)
    {
      PartsSentAppend(before, batch, p, size, write, PartSegment(arch, bypassL1));
      PartsFollowAppend(before, batch, write, arch, bypassL1, p, size);
    }

    /** One round of the subwarp loop. */
    method CoalescePart(
      write: bool, arch: int, bypassL1: bool, p: nat, lo: nat, size: nat,
      ghost start: seq<MemAccess>, ghost before: seq<Batch>)
      returns (ghost batches: seq<Batch>)
      requires Valid() && |before| == p && lo == Start(p, size) && lo + size <= warpSize
      requires PartsSent(before, size, write, PartSegment(arch, bypassL1)) && accessq == QueueAfter(start, before)
      requires PartsFollowRules(before, write, arch, bypassL1, size)
      modifies this`accessq
      ensures |batches| == p + 1 && lo + size == Start(p + 1, size)
      ensures PartsSent(batches, size, write, PartSegment(arch, bypassL1)) && accessq == QueueAfter(start, batches)
      ensures PartsFollowRules(batches, write, arch, bypassL1, size)
    {
      ghost var queue := accessq;
      ghost var batch := Coalesce(write, arch, bypassL1, Start(p, size), Start(p + 1, size));
      PartAppended(before, batch, write, arch, bypassL1, p, size);
      QueueGrows(start, before, batch, queue, accessq);
      batches := before + [batch];
    }

    /** The subwarp loop, for parts of `size` threads. */
    method CoalesceParts(write: bool, arch: int, bypassL1: bool, parts: nat, size: nat)
      returns (ghost batches: seq<Batch>)
      requires Valid() && Start(parts, size) <= warpSize
      modifies this`accessq
      ensures accessq == QueueAfter(old(accessq), batches) && |batches| == parts
      ensures PartsSent(batches, size, write, PartSegment(arch, bypassL1))
      ensures PartsFollowRules(batches, write, arch, bypassL1, size)
    {
      var lo := 0;
      batches := [];
      for p := 0 to parts
        invariant |batches| == p && lo == Start(p, size) <= warpSize && accessq == QueueAfter(old(accessq), batches)
        invariant PartsSent(batches, size, write, PartSegment(arch, bypassL1))
        invariant PartsFollowRules(batches, write, arch, bypassL1, size)
      {
        StartMonotone(p + 1, parts, size);
        batches := CoalescePart(write, arch, bypassL1, p, lo, size, old(accessq), batches);
        lo := lo + size;
      }
    }

    /** `memory_coalescing_arch`: the parts of the warp one after the other. */
    method CoalesceWarp(write: bool, arch: int, bypassL1: bool, parts: nat) returns (ghost batches: seq<Batch>)
      requires Valid() && parts > 0
      modifies this`accessq
      ensures accessq == QueueAfter(old(accessq), batches) && |batches| == parts
      ensures Start(parts, warpSize / parts) <= warpSize
      ensures PartsSent(batches, warpSize / parts, write, PartSegment(arch, bypassL1))
      ensures PartsFollowRules(batches, write, arch, bypassL1, warpSize / parts)
    {
      PartsFit(parts, warpSize);
      batches := CoalesceParts(write, arch, bypassL1, parts, warpSize / parts);
    }

    ghost predicate PartsSentAtomic(batches: seq<Batch>, size: nat, write: bool, g: nat)
      requires Valid() && IsSegmentSize(g) && Start(|batches|, size) <= warpSize
    {
      batches == [] ||
      var p := |batches| - 1;
      && PartsSentAtomic(batches[..p], size, write, g)
      && PartSentAtomic(batches[p], Start(p, size), Start(p + 1, size), write, g)
    }

    lemma PartsSentAtomicAppend(batches: seq<Batch>, batch: Batch, p: nat, size: nat, write: bool, g: nat)
      requires Valid() && IsSegmentSize(g) && p == |batches| && Start(p + 1, size) <= warpSize
      requires PartsSentAtomic(batches, size, write, g)
      requires PartSentAtomic(batch, Start(p, size), Start(p + 1, size), write, g)
      ensures PartsSentAtomic(batches + [batch], size, write, g)
    {
      var m := batches + [batch];
      assert |m| - 1 == p && m[p] == batch && m[..p] == batches;
      assert PartsSentAtomic(m[..p], size, write, g);
      assert PartSentAtomic(m[p], Start(p, size), Start(p + 1, size), write, g);
    }

    /** One round of the subwarp loop. */
    method CoalesceAtomicPart(
      write: bool, arch: int, bypassL1: bool, p: nat, lo: nat, size: nat,
      ghost start: seq<MemAccess>, ghost before: seq<Batch>)
      returns (ghost batches: seq<Batch>)
      requires Valid() && |before| == p && lo == Start(p, size) && lo + size <= warpSize
      requires AtomicsInside(0, warpSize, PartSegment(arch, bypassL1))
      requires PartsSentAtomic(before, size, write, PartSegment(arch, bypassL1)) && accessq == QueueAfter(start, before)
      modifies this`accessq
      ensures |batches| == p + 1 && lo + size == Start(p + 1, size)
      ensures PartsSentAtomic(batches, size, write, PartSegment(arch, bypassL1))
      ensures accessq == QueueAfter(start, batches)
    {
      ghost var queue, g := accessq, PartSegment(arch, bypassL1);
      PartInside(Start(p, size), Start(p + 1, size), g);
      ghost var batch := CoalesceAtomic(write, arch, bypassL1, Start(p, size), Start(p + 1, size));
      QueueGrows(start, before, batch, queue, accessq);
      PartsSentAtomicAppend(before, batch, p, size, write, g);
      batches := before + [batch];
    }

    /** The subwarp loop, for parts of `size` threads. */
    method CoalesceAtomicParts(write: bool, arch: int, bypassL1: bool, parts: nat, size: nat)
      returns (ghost batches: seq<Batch>)
      requires Valid() && Start(parts, size) <= warpSize
      requires AtomicsInside(0, warpSize, PartSegment(arch, bypassL1))
      modifies this`accessq
      ensures accessq == QueueAfter(old(accessq), batches) && |batches| == parts
      ensures PartsSentAtomic(batches, size, write, PartSegment(arch, bypassL1))
    {
      var lo := 0;
      batches := [];
      for p := 0 to parts
        invariant |batches| == p && lo == Start(p, size) <= warpSize && accessq == QueueAfter(old(accessq), batches)
        invariant PartsSentAtomic(batches, size, write, PartSegment(arch, bypassL1))
      {
        StartMonotone(p + 1, parts, size);
        batches := CoalesceAtomicPart(write, arch, bypassL1, p, lo, size, old(accessq), batches);
        lo := lo + size;
      }
    }

    /** `memory_coalescing_arch_atomic`: the parts of the warp one after the other. */
    method CoalesceAtomicWarp(write: bool, arch: int, bypassL1: bool, parts: nat) returns (ghost batches: seq<Batch>)
      requires Valid() && parts > 0 && AtomicsInside(0, warpSize, PartSegment(arch, bypassL1))
      modifies this`accessq
      ensures accessq == QueueAfter(old(accessq), batches) && |batches| == parts
      ensures Start(parts, warpSize / parts) <= warpSize
      ensures PartsSentAtomic(batches, warpSize / parts, write, PartSegment(arch, bypassL1))
    {
      PartsFit(parts, warpSize);
      batches := CoalesceAtomicParts(write, arch, bypassL1, parts, warpSize / parts);
    }
  }
}
