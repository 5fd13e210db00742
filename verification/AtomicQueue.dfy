/** What the accesses queued for atomics amount to, for one part of a warp. */
module AtomicQueue {
  import opened OrderedKeys
  import opened Coalescer
  import opened CoalescingUnit
  import opened AtomicCoalescer
  import opened WarpMemory

  // ----- the accesses of a part -----------------------------------------------------------------

  ghost predicate HasSlots(addrs: seq<seq<nat>>) {
    forall t | 0 <= t < |addrs| :: |addrs[t]| == MAX_ACCESSES
  }

  /** The access of an active thread of the part. */
  ghost predicate IsAccessOf(addrs: seq<seq<nat>>, active: set<nat>, lo: nat, hi: nat, a: Access)
    requires hi <= |addrs| && HasSlots(addrs)
  {
    lo <= a.thread < hi && a.thread in active && a.addr == addrs[a.thread][0]
  }

  lemma OneMoreThread(l: seq<Access>, addrs: seq<seq<nat>>, active: set<nat>, lo: nat, t: nat)
    requires lo <= t < |addrs| && HasSlots(addrs) && t in active && DistinctThreads(l)
    requires forall k | 0 <= k < |l| :: IsAccessOf(addrs, active, lo, t, l[k])
    ensures var m := l + [Access(t, addrs[t][0])];
      DistinctThreads(m) && forall k | 0 <= k < |m| :: IsAccessOf(addrs, active, lo, t + 1, m[k])
  {
    var m := l + [Access(t, addrs[t][0])];
    forall k | 0 <= k < |m| ensures IsAccessOf(addrs, active, lo, t + 1, m[k]) {
      assert k < |l| ==> IsAccessOf(addrs, active, lo, t, l[k]);
    }
    forall j, k | 0 <= j < k < |m| ensures m[j].thread != m[k].thread {
      assert IsAccessOf(addrs, active, lo, t, l[j]);
    }
  }

  /** One access for each active thread of the part, no thread twice. */
  lemma {:induction false} OnePerThread(addrs: seq<seq<nat>>, active: set<nat>, lo: nat, hi: nat)
    requires hi <= |addrs| && HasSlots(addrs)
    ensures var l := AtomicAccesses(addrs, active, lo, hi);
      DistinctThreads(l) && forall k | 0 <= k < |l| :: IsAccessOf(addrs, active, lo, hi, l[k])
    decreases hi
  {
    if hi > lo {
      OnePerThread(addrs, active, lo, hi - 1);
      var l := AtomicAccesses(addrs, active, lo, hi - 1);
      if hi - 1 in active {
        OneMoreThread(l, addrs, active, lo, hi - 1);
      } else {
        assert l + [] == l;
      }
    }
  }

  lemma {:induction false} AccessOfThread(addrs: seq<seq<nat>>, active: set<nat>, lo: nat, hi: nat, t: nat)
    returns (k: nat)
    requires hi <= |addrs| && HasSlots(addrs) && lo <= t < hi && t in active
    ensures var l := AtomicAccesses(addrs, active, lo, hi); k < |l| && l[k] == Access(t, addrs[t][0])
    decreases hi
  {
    if t == hi - 1 {
      k := |AtomicAccesses(addrs, active, lo, hi)| - 1;
    } else {
      k := AccessOfThread(addrs, active, lo, hi - 1, t);
    }
  }

  // ----- positions in the queue ---------------------------------------------------------------------

  /** Where the accesses of the `j`-th segment start. */
  ghost function Offset(tx: Lists, keys: seq<int>, j: nat): nat
    requires KeysIn(keys, tx) && j <= |keys|
  {
    if j == 0 then 0 else Offset(tx, keys, j - 1) + |tx[keys[j - 1]]|
  }

  lemma {:induction false} QueuedListAt(b: nat, ts: seq<Transaction>, n: nat, write: bool, k: nat)
    requires k < n <= |ts|
    ensures |QueuedList(b, ts, n, write)| == n && QueuedList(b, ts, n, write)[k] == Queued(b, ts[k], write)
  {
    QueuedListLength(b, ts, n - 1, write);
    if k < n - 1 {
      QueuedListAt(b, ts, n - 1, write, k);
    }
  }

  lemma {:induction false} QueuedListLength(b: nat, ts: seq<Transaction>, n: nat, write: bool)
    requires n <= |ts|
    ensures |QueuedList(b, ts, n, write)| == n
  {
    if n > 0 {
      QueuedListLength(b, ts, n - 1, write);
    }
  }

  lemma {:induction false} OffsetPrefix(tx: Lists, keys: seq<int>, n: nat, j: nat)
    requires KeysIn(keys, tx) && j <= n <= |keys|
    ensures KeysIn(keys[..n], tx) && Offset(tx, keys[..n], j) == Offset(tx, keys, j)
  {
    assert KeysIn(keys[..n], tx);
    if j > 0 {
      OffsetPrefix(tx, keys, n, j - 1);
    }
  }

  lemma {:induction false} QueueLength(tx: Lists, keys: seq<int>, write: bool)
    requires KeysIn(keys, tx)
    ensures |QueuedLists(tx, keys, write)| == Offset(tx, keys, |keys|)
  {
    if keys != [] {
      var n := |keys| - 1;
      OffsetPrefix(tx, keys, n, n);
      QueueLength(tx, keys[..n], write);
      QueuedListLength(keys[n], tx[keys[n]], |tx[keys[n]]|, write);
    }
  }

  /** Transaction `k` of the `j`-th segment is queued at `Offset(j) + k`. */
  lemma {:induction false} QueuedAtOffset(tx: Lists, keys: seq<int>, write: bool, j: nat, k: nat)
    requires KeysIn(keys, tx) && j < |keys| && k < |tx[keys[j]]|
    ensures Offset(tx, keys, j) + k < |QueuedLists(tx, keys, write)|
    ensures QueuedLists(tx, keys, write)[Offset(tx, keys, j) + k] == Queued(keys[j], tx[keys[j]][k], write)
  {
    var n := |keys| - 1;
    OffsetPrefix(tx, keys, n, n);
    OffsetPrefix(tx, keys, n, j);
    QueueLength(tx, keys[..n], write);
    if j < n {
      QueuedAtOffset(tx, keys[..n], write, j, k);
    } else {
      QueuedListAt(keys[n], tx[keys[n]], |tx[keys[n]]|, write, k);
    }
  }

  /** Every position of the queue is that of some transaction. */
  lemma {:induction false} PositionOf(tx: Lists, keys: seq<int>, i: nat, n: nat) returns (j: nat, k: nat)
    requires KeysIn(keys, tx) && n <= |keys| && i < Offset(tx, keys, n)
    ensures j < n && k < |tx[keys[j]]| && i == Offset(tx, keys, j) + k
  {
    if i < Offset(tx, keys, n - 1) {
      j, k := PositionOf(tx, keys, i, n - 1);
    } else {
      j, k := n - 1, i - Offset(tx, keys, n - 1);
    }
  }

  // ----- what is queued -------------------------------------------------------------------------------

  /** The accesses `l` of a part, aligned and one per thread, and the batch queued for them. */
  ghost predicate Sent(l: seq<Access>, d: nat, g: nat, write: bool, batch: Batch) {
    IsSegmentSize(g) && Aligned(l, d) && DistinctThreads(l) && SentLists(batch, AtomicAll(l, d, g), write)
  }

  /** Position `i` of the queue holds transaction `k` of the `j`-th segment. */
  ghost predicate IsSlot(l: seq<Access>, d: nat, g: nat, batch: Batch, i: nat, j: nat, k: nat)
    requires IsSegmentSize(g) && KeysIn(batch.keys, AtomicAll(l, d, g))
  {
    var tx := AtomicAll(l, d, g);
    && j < |batch.keys| && k < |tx[batch.keys[j]]| && i == Offset(tx, batch.keys, j) + k
    && i < |batch.sent| && batch.sent[i].info == tx[batch.keys[j]][k]
  }

  lemma SlotOf(l: seq<Access>, d: nat, g: nat, write: bool, batch: Batch, i: nat) returns (j: nat, k: nat)
    requires Sent(l, d, g, write, batch) && i < |batch.sent|
    ensures IsSlot(l, d, g, batch, i, j, k)
    ensures batch.sent[i] == Queued(batch.keys[j], AtomicAll(l, d, g)[batch.keys[j]][k], write)
  {
    var tx, keys := AtomicAll(l, d, g), batch.keys;
    QueueLength(tx, keys, write);
    j, k := PositionOf(tx, keys, i, |keys|);
    QueuedAtOffset(tx, keys, write, j, k);
  }

  lemma SlotAt(l: seq<Access>, d: nat, g: nat, write: bool, batch: Batch, j: nat, k: nat) returns (i: nat)
    requires Sent(l, d, g, write, batch) && j < |batch.keys| && k < |AtomicAll(l, d, g)[batch.keys[j]]|
    ensures IsSlot(l, d, g, batch, i, j, k)
  {
    i := Offset(AtomicAll(l, d, g), batch.keys, j) + k;
    QueuedAtOffset(AtomicAll(l, d, g), batch.keys, write, j, k);
  }

  lemma KeyIndex(l: seq<Access>, d: nat, g: nat, write: bool, batch: Batch, b: int) returns (j: nat)
    requires Sent(l, d, g, write, batch) && b in AtomicAll(l, d, g)
    ensures j < |batch.keys| && batch.keys[j] == b && forall h | 0 <= h < |batch.keys| && batch.keys[h] == b :: h == j
  {
    var key: int := b;
    assert key in batch.keys;
    j :| 0 <= j < |batch.keys| && batch.keys[j] == b;
  }

  /** Every access of the part is in exactly one queued access. */
  lemma QueuedOnce(l: seq<Access>, d: nat, g: nat, write: bool, batch: Batch, m: nat) returns (i: nat)
    requires Sent(l, d, g, write, batch) && m < |l|
    ensures i < |batch.sent|
    ensures forall h | 0 <= h < |batch.sent| :: l[m].thread in batch.sent[h].info.active <==> h == i
  {
    var tx, b, r := AtomicAll(l, d, g), Segment(l[m].addr, g), Rank(l, m);
    EachThreadOnce(l, m, b, r, d, g);
    assert b in tx;
    var j := KeyIndex(l, d, g, write, batch, b);
    i := SlotAt(l, d, g, write, batch, j, r);
    forall h | 0 <= h < |batch.sent| && l[m].thread in batch.sent[h].info.active ensures h == i {
      var j', k' := SlotOf(l, d, g, write, batch, h);
      EachThreadOnce(l, m, batch.keys[j'], k', d, g);
    }
  }

  /** No two threads of a queued access share a byte. */
  lemma QueuedConflictFree(l: seq<Access>, d: nat, g: nat, write: bool, batch: Batch, i: nat, m: nat, n: nat)
    requires Sent(l, d, g, write, batch) && i < |batch.sent| && m < n < |l|
    requires l[m].thread in batch.sent[i].info.active && l[n].thread in batch.sent[i].info.active
    ensures !ShareByte(l[m], l[n], d)
  {
    var j, k := SlotOf(l, d, g, write, batch, i);
    ConflictFree(l, m, n, batch.keys[j], k, d, g);
  }

  /** A queued access records exactly the bytes, chunks and threads of its threads' accesses. */
  lemma QueuedExact(l: seq<Access>, d: nat, g: nat, write: bool, batch: Batch, i: nat)
    requires Sent(l, d, g, write, batch) && i < |batch.sent|
    ensures var info := batch.sent[i].info; info == Exact(set u | u in Uses(l, d) && u.thread in info.active)
  {
    var j, k := SlotOf(l, d, g, write, batch, i);
    var b, info := batch.keys[j], batch.sent[i].info;
    AtomicLayered(l, b, d, g);
    var layer := Layer(l, b, k, d, g);
    assert info == Exact(layer);
    forall u ensures u in layer <==> u in Uses(l, d) && u.thread in info.active {
      LayerUses(l, b, k, d, g, u);
    }
    assert layer == set u | u in Uses(l, d) && u.thread in info.active;
  }

  lemma LayerUses(l: seq<Access>, b: int, k: nat, d: nat, g: nat, u: Use)
    requires IsSegmentSize(g) && DistinctThreads(l)
    ensures u in Layer(l, b, k, d, g) <==>
      u in Uses(l, d) && exists v :: v in Layer(l, b, k, d, g) && v.thread == u.thread
  {
    if u in Layer(l, b, k, d, g) {
      var m := LayerMember(l, b, k, d, g, u);
      assert l[m] in l;
    } else if u in Uses(l, d) {
      if v :| v in Layer(l, b, k, d, g) && v.thread == u.thread {
        var m := LayerMember(l, b, k, d, g, v);
        var a :| a in l && u in AccessUses(a, d);
        var n :| 0 <= n < |l| && l[n] == a;
        AccessInLayer(l, m, d, g);
        assert false;
      }
    }
  }

  /** The window is the smallest that covers the chunks used, inside the segment. */
  lemma QueuedBest(l: seq<Access>, d: nat, g: nat, write: bool, batch: Batch, i: nat) returns (j: nat, k: nat)
    requires Sent(l, d, g, write, batch) && i < |batch.sent|
    ensures IsSlot(l, d, g, batch, i, j, k) && batch.keys[j] == Segment(batch.sent[i].addr, g)
    ensures var m := batch.sent[i]; BestWindow(m.addr, m.size, Segment(m.addr, g), g, m.info.chunks)
  {
    j, k := SlotOf(l, d, g, write, batch, i);
    var b := batch.keys[j];
    AtomicAllOk(l, d, g);
    assert ListOk(b, AtomicAll(l, d, g)[b], g);
    WindowIsBest(b, g, batch.sent[i].info.chunks);
    SegmentUnique(batch.sent[i].addr, b, g);
  }

  lemma {:induction false} OffsetMonotone(tx: Lists, keys: seq<int>, i: nat, j: nat)
    requires KeysIn(keys, tx) && i <= j <= |keys|
    ensures Offset(tx, keys, i) <= Offset(tx, keys, j)
  {
    if i < j {
      OffsetMonotone(tx, keys, i, j - 1);
    }
  }

  lemma OneOffset(tx: Lists, keys: seq<int>, i: nat, j: nat, h: nat)
    requires KeysIn(keys, tx) && j < |keys| && h < |keys| && Offset(tx, keys, j) <= i < Offset(tx, keys, j + 1)
    ensures j == h <==> Offset(tx, keys, h) <= i < Offset(tx, keys, h + 1)
  {
    if h < j {
      OffsetMonotone(tx, keys, h + 1, j);
    } else if j < h {
      OffsetMonotone(tx, keys, j + 1, h);
    }
  }

  /** A position belongs to the `j`-th segment exactly when it lies in its range. */
  lemma SlotRange(l: seq<Access>, d: nat, g: nat, write: bool, batch: Batch, i: nat, j: nat)
    requires Sent(l, d, g, write, batch) && i < |batch.sent| && j < |batch.keys|
    ensures Segment(batch.sent[i].addr, g) == batch.keys[j] <==>
      Offset(AtomicAll(l, d, g), batch.keys, j) <= i < Offset(AtomicAll(l, d, g), batch.keys, j + 1)
  {
    var tx, keys := AtomicAll(l, d, g), batch.keys;
    var j', k := QueuedBest(l, d, g, write, batch, i);
    OneOffset(tx, keys, i, j', j);
  }

  lemma KeyRange(l: seq<Access>, d: nat, g: nat, write: bool, batch: Batch, b: int) returns (p: nat)
    requires Sent(l, d, g, write, batch) && b in AtomicAll(l, d, g)
    ensures p + |AtomicAll(l, d, g)[b]| <= |batch.sent|
    ensures forall i | 0 <= i < |batch.sent| ::
      Segment(batch.sent[i].addr, g) == b <==> p <= i < p + |AtomicAll(l, d, g)[b]|
  {
    var tx, keys := AtomicAll(l, d, g), batch.keys;
    var j := KeyIndex(l, d, g, write, batch, b);
    p := Offset(tx, keys, j);
    QueueLength(tx, keys, write);
    OffsetMonotone(tx, keys, j + 1, |keys|);
    forall i | 0 <= i < |batch.sent| ensures Segment(batch.sent[i].addr, g) == b <==> p <= i < p + |tx[b]| {
      SlotRange(l, d, g, write, batch, i, j);
    }
  }

  /** The queued accesses of a segment are consecutive, as many as its most-hit address has
      accesses. */
  lemma QueuedPerSegment(l: seq<Access>, d: nat, g: nat, write: bool, batch: Batch, b: int) returns (p: nat)
    requires Sent(l, d, g, write, batch)
    ensures p + MaxHits(l, b, g) <= |batch.sent|
    ensures forall i | 0 <= i < |batch.sent| :: Segment(batch.sent[i].addr, g) == b <==> p <= i < p + MaxHits(l, b, g)
  {
    var tx, keys := AtomicAll(l, d, g), batch.keys;
    AtomicLayered(l, b, d, g);
    if b in tx {
      p := KeyRange(l, d, g, write, batch, b);
    } else {
      p := 0;
      forall i | 0 <= i < |batch.sent| ensures Segment(batch.sent[i].addr, g) != b {
        var j, k := QueuedBest(l, d, g, write, batch, i);
      }
    }
  }

  // ----- the whole part ---------------------------------------------------------------------------------

  /** The access of thread `t` and that of thread `u` use a common byte. */
  ghost predicate Overlap(addrs: seq<seq<nat>>, t: nat, u: nat, d: nat)
    requires HasSlots(addrs) && t < |addrs| && u < |addrs|
  {
    ShareByte(Access(t, addrs[t][0]), Access(u, addrs[u][0]), d)
  }

  ghost predicate IsPart(
    addrs: seq<seq<nat>>, active: set<nat>, lo: nat, hi: nat, d: nat, g: nat, write: bool, batch: Batch)
  {
    && hi <= |addrs| && HasSlots(addrs) && IsSegmentSize(g) && IsDataSize(d)
    && (forall t | lo <= t < hi && t in active :: addrs[t][0] % d == 0)
    && SentLists(batch, AtomicAll(AtomicAccesses(addrs, active, lo, hi), d, g), write)
  }

  lemma PartIsSent(
    addrs: seq<seq<nat>>, active: set<nat>, lo: nat, hi: nat, d: nat, g: nat, write: bool, batch: Batch)
    requires IsPart(addrs, active, lo, hi, d, g, write, batch)
    ensures Sent(AtomicAccesses(addrs, active, lo, hi), d, g, write, batch)
  {
    OnePerThread(addrs, active, lo, hi);
  }

  /** A queued access records exactly what its threads use, in the best window. */
  lemma AtomicRecord(
    addrs: seq<seq<nat>>, active: set<nat>, lo: nat, hi: nat, d: nat, g: nat, write: bool, batch: Batch, i: nat)
    requires IsPart(addrs, active, lo, hi, d, g, write, batch) && i < |batch.sent|
    ensures var m, l := batch.sent[i], AtomicAccesses(addrs, active, lo, hi);
      && m.info == Exact(set u | u in Uses(l, d) && u.thread in m.info.active)
      && BestWindow(m.addr, m.size, Segment(m.addr, g), g, m.info.chunks)
  {
    var l := AtomicAccesses(addrs, active, lo, hi);
    PartIsSent(addrs, active, lo, hi, d, g, write, batch);
    QueuedExact(l, d, g, write, batch, i);
    var j, k := QueuedBest(l, d, g, write, batch, i);
  }

  lemma AtomicThreads(
    addrs: seq<seq<nat>>, active: set<nat>, lo: nat, hi: nat, d: nat, g: nat, write: bool, batch: Batch, i: nat, t: nat)
    requires IsPart(addrs, active, lo, hi, d, g, write, batch) && i < |batch.sent| && t in batch.sent[i].info.active
    ensures lo <= t < hi && t in active
  {
    var l := AtomicAccesses(addrs, active, lo, hi);
    PartIsSent(addrs, active, lo, hi, d, g, write, batch);
    QueuedExact(l, d, g, write, batch, i);
    var u :| u in Uses(l, d) && u.thread == t;
    UserIsActive(addrs, active, lo, hi, d, u);
  }

  /** A queued access holds active threads of the part only, and no two of them share a byte. */
  lemma AtomicConflictFree(
    addrs: seq<seq<nat>>, active: set<nat>, lo: nat, hi: nat, d: nat, g: nat, write: bool, batch: Batch, i: nat)
    requires IsPart(addrs, active, lo, hi, d, g, write, batch) && i < |batch.sent|
    ensures forall t | t in batch.sent[i].info.active :: lo <= t < hi && t in active
    ensures forall t, u | t in batch.sent[i].info.active && u in batch.sent[i].info.active && t != u ::
      !Overlap(addrs, t, u, d)
  {
    var threads := batch.sent[i].info.active;
    forall t | t in threads ensures lo <= t < hi && t in active {
      AtomicThreads(addrs, active, lo, hi, d, g, write, batch, i, t);
    }
    forall t, u | t in threads && u in threads && t != u ensures !Overlap(addrs, t, u, d) {
      ApartInQueue(addrs, active, lo, hi, d, g, write, batch, i, t, u);
    }
  }

  lemma UserIsActive(addrs: seq<seq<nat>>, active: set<nat>, lo: nat, hi: nat, d: nat, u: Use)
    requires hi <= |addrs| && HasSlots(addrs) && u in Uses(AtomicAccesses(addrs, active, lo, hi), d)
    ensures lo <= u.thread < hi && u.thread in active
  {
    var l := AtomicAccesses(addrs, active, lo, hi);
    OnePerThread(addrs, active, lo, hi);
    var a :| a in l && u in AccessUses(a, d);
    var k :| 0 <= k < |l| && l[k] == a;
  }

  lemma ApartInQueue(
    addrs: seq<seq<nat>>, active: set<nat>, lo: nat, hi: nat, d: nat, g: nat, write: bool, batch: Batch,
    i: nat, t: nat, u: nat)
    requires IsPart(addrs, active, lo, hi, d, g, write, batch) && i < |batch.sent| && t != u
    requires lo <= t < hi && t in active && lo <= u < hi && u in active
    requires t in batch.sent[i].info.active && u in batch.sent[i].info.active
    ensures !Overlap(addrs, t, u, d)
  {
    var l := AtomicAccesses(addrs, active, lo, hi);
    PartIsSent(addrs, active, lo, hi, d, g, write, batch);
    var m := AccessOfThread(addrs, active, lo, hi, t);
    var n := AccessOfThread(addrs, active, lo, hi, u);
    if m < n {
      QueuedConflictFree(l, d, g, write, batch, i, m, n);
    } else {
      QueuedConflictFree(l, d, g, write, batch, i, n, m);
    }
  }

  /** Thread `t` is in the `i`-th queued access and in no other. */
  ghost predicate OnlyIn(batch: Batch, t: nat, i: nat) {
    i < |batch.sent| && forall h | 0 <= h < |batch.sent| :: t in batch.sent[h].info.active <==> h == i
  }

  /** The threads of an access are of the part and conflict-free; the record and the window are
      exactly theirs. */
  ghost predicate Serves(addrs: seq<seq<nat>>, active: set<nat>, lo: nat, hi: nat, d: nat, g: nat, m: MemAccess)
    requires hi <= |addrs| && HasSlots(addrs) && IsSegmentSize(g)
  {
    && (forall t | t in m.info.active :: lo <= t < hi && t in active)
    && (forall t, u | t in m.info.active && u in m.info.active && t != u :: !Overlap(addrs, t, u, d))
    && m.info == Exact(set u | u in Uses(AtomicAccesses(addrs, active, lo, hi), d) && u.thread in m.info.active)
    && BestWindow(m.addr, m.size, Segment(m.addr, g), g, m.info.chunks)
  }

  /** The accesses of segment `b` are the `count` ones from `p` on. */
  ghost predicate Consecutive(batch: Batch, b: int, g: nat, p: nat, count: nat) {
    && p + count <= |batch.sent|
    && forall i | 0 <= i < |batch.sent| :: Segment(batch.sent[i].addr, g) == b <==> p <= i < p + count
  }

  /** Segment `b` has as many queued accesses as its most-hit address has accesses. */
  ghost predicate SegmentQueued(l: seq<Access>, batch: Batch, b: int, g: nat) {
    exists p: nat :: Consecutive(batch, b, g, p, MaxHits(l, b, g))
  }

  /** Each active thread of the part is in exactly one queued access. */
  lemma EveryThreadOnce(
    addrs: seq<seq<nat>>, active: set<nat>, lo: nat, hi: nat, d: nat, g: nat, write: bool, batch: Batch)
    requires IsPart(addrs, active, lo, hi, d, g, write, batch)
    ensures forall t: nat | lo <= t < hi && t in active :: exists i: nat :: OnlyIn(batch, t, i)
  {
    PartIsSent(addrs, active, lo, hi, d, g, write, batch);
    forall t: nat | lo <= t < hi && t in active ensures exists i: nat :: OnlyIn(batch, t, i) {
      var m := AccessOfThread(addrs, active, lo, hi, t);
      var i := QueuedOnce(AtomicAccesses(addrs, active, lo, hi), d, g, write, batch, m);
      assert OnlyIn(batch, t, i);
    }
  }

  lemma EveryAccessServes(
    addrs: seq<seq<nat>>, active: set<nat>, lo: nat, hi: nat, d: nat, g: nat, write: bool, batch: Batch)
    requires IsPart(addrs, active, lo, hi, d, g, write, batch)
    ensures forall i: nat | i < |batch.sent| :: Serves(addrs, active, lo, hi, d, g, batch.sent[i])
  {
    forall i: nat | i < |batch.sent| ensures Serves(addrs, active, lo, hi, d, g, batch.sent[i]) {
      AtomicConflictFree(addrs, active, lo, hi, d, g, write, batch, i);
      AtomicRecord(addrs, active, lo, hi, d, g, write, batch, i);
    }
  }

  /** Every segment has as many queued accesses as its most-hit address has threads, one after
      the other. */
  lemma EverySegmentConsecutive(
    addrs: seq<seq<nat>>, active: set<nat>, lo: nat, hi: nat, d: nat, g: nat, write: bool, batch: Batch)
    requires IsPart(addrs, active, lo, hi, d, g, write, batch)
    ensures forall b: int :: SegmentQueued(AtomicAccesses(addrs, active, lo, hi), batch, b, g)
  {
    var l := AtomicAccesses(addrs, active, lo, hi);
    PartIsSent(addrs, active, lo, hi, d, g, write, batch);
    forall b: int ensures SegmentQueued(l, batch, b, g) {
      var p := QueuedPerSegment(l, d, g, write, batch, b);
      assert Consecutive(batch, b, g, p, MaxHits(l, b, g));
    }
  }

  /** What is queued for the atomics of a part: every active thread once, conflict-free accesses
      with exact records and best windows, and for every segment as many as its most-hit address. */
  lemma AtomicQueueExact(
    addrs: seq<seq<nat>>, active: set<nat>, lo: nat, hi: nat, d: nat, g: nat, write: bool, batch: Batch)
    requires IsPart(addrs, active, lo, hi, d, g, write, batch)
    ensures forall t: nat | lo <= t < hi && t in active :: exists i: nat :: OnlyIn(batch, t, i)
    ensures forall i: nat | i < |batch.sent| :: Serves(addrs, active, lo, hi, d, g, batch.sent[i])
    ensures forall b: int :: SegmentQueued(AtomicAccesses(addrs, active, lo, hi), batch, b, g)
  {
    EveryThreadOnce(addrs, active, lo, hi, d, g, write, batch);
    EveryAccessServes(addrs, active, lo, hi, d, g, write, batch);
    EverySegmentConsecutive(addrs, active, lo, hi, d, g, write, batch);
  }
}
