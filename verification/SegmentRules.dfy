/** How many transactions the coalescing rules give: one for each block of the segment size that
    is touched, aligned accesses or not. */
module SegmentRules {
  import opened OrderedKeys
  import opened Coalescer
  import opened CoalescingUnit
  import opened Straddling

  // ----- segments are blocks ----------------------------------------------------------------------

  lemma SegmentIsBlock(x: nat, g: nat)
    requires IsSegmentSize(g)
    ensures Segment(x, g) == g * (x / g)
  {
    match g
    case 32 =>
    case 64 =>
    case 128 =>
  }

  lemma SameBlockSegment(x: nat, q: nat, g: nat)
    requires IsSegmentSize(g)
    ensures Segment(x, g) == g * q <==> x / g == q
  {
    match g
    case 32 =>
    case 64 =>
    case 128 =>
  }

  /** Multiples of `g` are as many as the numbers they are multiples of. */
  lemma {:induction false} MultiplesCard(qs: set<int>, g: nat)
    requires IsSegmentSize(g)
    ensures |set q | q in qs :: g * q| == |qs|
    decreases |qs|
  {
    var ms := set q | q in qs :: g * q;
    if qs != {} {
      var k := Pick(qs);
      var rest := qs - {k};
      MultiplesCard(rest, g);
      var others := set q | q in rest :: g * q;
      forall q | q in rest ensures g * q != g * k {
        MultiplesDiffer(q, k, g);
      }
      assert ms == others + {g * k} by {
        forall m | m in ms ensures m in others + {g * k} {
          var q :| q in qs && g * q == m;
          assert q == k || q in rest;
        }
      }
      assert g * k !in others;
    } else {
      assert ms == {};
    }
  }

  lemma MultiplesDiffer(q: int, k: int, g: nat)
    requires IsSegmentSize(g) && q != k
    ensures g * q != g * k
  {
    match g
    case 32 =>
    case 64 =>
    case 128 =>
  }

  // ----- the segments of the transactions -----------------------------------------------------------

  ghost function TouchedSegments(us: set<Use>, g: nat): set<int> {
    set u | u in us :: Segment(u.byte, g) as int
  }

  lemma AccessSegments(a: Access, d: nat, g: nat)
    requires IsSegmentSize(g) && IsDataSize(d)
    ensures TouchedSegments(AccessUses(a, d), g) == {Segment(a.addr, g) as int, Segment(a.addr + d - 1, g) as int}
  {
    var us := AccessUses(a, d);
    assert Use(a.thread, a.addr) in us && Use(a.thread, a.addr + d - 1) in us;
    forall u | u in us ensures Segment(u.byte, g) in {Segment(a.addr, g), Segment(a.addr + d - 1, g)} {
      TwoSegments(a, d, g, u.byte);
    }
  }

  lemma MarkedKeys(tx: map<int, Transaction>, a: Access, d: nat, g: nat)
    requires IsSegmentSize(g) && d > 0
    ensures MarkAccess(tx, a, d, g).Keys ==
      tx.Keys + {Segment(a.addr, g) as int, Segment(a.addr + d - 1, g) as int}
  {
    var tx1 := Touch(tx, Segment(a.addr, g), a.thread, a.addr, d);
    assert tx1.Keys == tx.Keys + {Segment(a.addr, g) as int};
  }

  /** The transactions are those of the segments touched, aligned accesses or not. */
  lemma {:induction false} TransactionSegments(l: seq<Access>, d: nat, g: nat)
    requires IsSegmentSize(g) && IsDataSize(d)
    ensures MarkAll(l, d, g).Keys == TouchedSegments(Uses(l, d), g)
  {
    if l != [] {
      var rest, a := l[..|l| - 1], l[|l| - 1];
      TransactionSegments(rest, d, g);
      AccessSegments(a, d, g);
      MarkedKeys(MarkAll(rest, d, g), a, d, g);
      assert MarkAll(l, d, g) == MarkAccess(MarkAll(rest, d, g), a, d, g);
      assert TouchedSegments(Uses(rest, d) + AccessUses(a, d), g) ==
        TouchedSegments(Uses(rest, d), g) + TouchedSegments(AccessUses(a, d), g);
    }
  }

  ghost function TouchedBlocks(us: set<Use>, n: nat): set<int>
    requires n > 0
  {
    set u | u in us :: u.byte / n
  }

  lemma SegmentsAndBlocks(us: set<Use>, g: nat)
    requires IsSegmentSize(g)
    ensures |TouchedSegments(us, g)| == |TouchedBlocks(us, g)|
  {
    var qs := TouchedBlocks(us, g);
    forall u | u in us ensures Segment(u.byte, g) == g * (u.byte / g) {
      SegmentIsBlock(u.byte, g);
    }
    var ms := set q | q in qs :: g * q;
    forall m ensures m in TouchedSegments(us, g) <==> m in ms {
      if m in ms {
        var q :| q in qs && g * q == m;
        var u :| u in us && u.byte / g == q;
        assert Segment(u.byte, g) as int == m;
      }
      if m in TouchedSegments(us, g) {
        var u :| u in us && Segment(u.byte, g) as int == m;
        assert u.byte / g in qs;
      }
    }
    assert TouchedSegments(us, g) == ms;
    MultiplesCard(qs, g);
  }

  /** One queued access for each block touched. */
  lemma OnePerBlock(l: seq<Access>, d: nat, g: nat, write: bool, batch: Batch)
    requires IsSegmentSize(g) && IsDataSize(d) && SentFor(batch, MarkAll(l, d, g), write)
    ensures |batch.sent| == |TouchedBlocks(Uses(l, d), g)|
  {
    TransactionSegments(l, d, g);
    AscendingCard(batch.keys, MarkAll(l, d, g).Keys);
    SegmentsAndBlocks(Uses(l, d), g);
  }

  /** A window inside a 32-byte segment is the segment. */
  lemma SmallWindow(b: nat, info: Transaction, write: bool)
    requires ChunksInSegment(b, 32, info.chunks)
    ensures Queued(b, info, write).addr == b && Queued(b, info, write).size == 32
  {
    WindowIsBest(b, 32, info.chunks);
  }

  lemma SectorsOnly(l: seq<Access>, d: nat, write: bool, batch: Batch)
    requires d > 0 && SentFor(batch, MarkAll(l, d, 32), write)
    ensures forall m | m in batch.sent :: m.size == 32 && m.addr % 32 == 0
  {
    var tx := MarkAll(l, d, 32);
    MarkAllChunksOk(l, d, 32);
    forall i | 0 <= i < |batch.sent| ensures batch.sent[i].size == 32 && batch.sent[i].addr % 32 == 0 {
      QueuedAt(tx, batch.keys, write, i);
      assert batch.keys[i] in tx;
      SmallWindow(batch.keys[i], tx[batch.keys[i]], write);
    }
  }

  // ----- the bytes a part uses ------------------------------------------------------------------------

  /** Slot `k` holds an address: no slot up to it is zero. */
  ghost predicate SlotUsed(slots: seq<nat>, k: nat) {
    k < |slots| && forall j | 0 <= j <= k :: slots[j] != 0
  }

  lemma SlotsUsed(slots: seq<nat>, k: nat)
    ensures SlotUsed(slots, k) <==> k < UsedSlots(slots)
  {
  }

  /** An access of `d` bytes at some slot in use covers byte `x`. */
  ghost predicate SlotsReach(slots: seq<nat>, d: nat, x: nat) {
    exists k: nat :: SlotUsed(slots, k) && slots[k] <= x < slots[k] + d
  }

  /** Thread `t` of the part uses byte `x` with an access of `d` bytes. */
  ghost predicate UsesByte(addrs: seq<seq<nat>>, active: set<nat>, lo: nat, hi: nat, d: nat, t: nat, x: nat)
    requires hi <= |addrs|
  {
    lo <= t < hi && t in active && SlotsReach(addrs[t], d, x)
  }

  ghost predicate CoveredAt(l: seq<Access>, d: nat, u: Use, k: nat) {
    k < |l| && l[k].thread == u.thread && l[k].addr <= u.byte < l[k].addr + d
  }

  ghost predicate Covered(l: seq<Access>, d: nat, u: Use) {
    exists k: nat :: CoveredAt(l, d, u, k)
  }

  lemma UsesAreCovered(l: seq<Access>, d: nat, u: Use)
    ensures u in Uses(l, d) <==> Covered(l, d, u)
  {
    if u in Uses(l, d) {
      var a :| a in l && u in AccessUses(a, d);
      var k: nat :| k < |l| && l[k] == a;
      assert CoveredAt(l, d, u, k);
    }
    if k: nat :| CoveredAt(l, d, u, k) {
      assert l[k] in l && u in AccessUses(l[k], d);
    }
  }

  lemma CoveredAppend(l: seq<Access>, m: seq<Access>, d: nat, u: Use)
    ensures Covered(l + m, d, u) <==> Covered(l, d, u) || Covered(m, d, u)
  {
    if k: nat :| CoveredAt(l + m, d, u, k) {
      assert if k < |l| then CoveredAt(l, d, u, k) else CoveredAt(m, d, u, k - |l|);
    }
    if k: nat :| CoveredAt(l, d, u, k) {
      assert CoveredAt(l + m, d, u, k);
    }
    if k: nat :| CoveredAt(m, d, u, k) {
      assert CoveredAt(l + m, d, u, |l| + k);
    }
  }

  lemma {:induction false} ThreadAccessAt(t: nat, slots: seq<nat>, n: nat)
    requires n <= |slots|
    ensures |ThreadAccesses(t, slots, n)| == n
    ensures forall k | 0 <= k < n :: ThreadAccesses(t, slots, n)[k] == Access(t, slots[k])
  {
    if n > 0 {
      ThreadAccessAt(t, slots, n - 1);
    }
  }

  lemma SlotsCovered(t: nat, slots: seq<nat>, d: nat, u: Use)
    ensures Covered(ThreadAccesses(t, slots, UsedSlots(slots)), d, u) <==> u.thread == t && SlotsReach(slots, d, u.byte)
  {
    var n := UsedSlots(slots);
    var l := ThreadAccesses(t, slots, n);
    ThreadAccessAt(t, slots, n);
    if k: nat :| CoveredAt(l, d, u, k) {
      SlotsUsed(slots, k);
    }
    if k: nat :| SlotUsed(slots, k) && slots[k] <= u.byte < slots[k] + d {
      SlotsUsed(slots, k);
      assert u.thread == t ==> CoveredAt(l, d, u, k);
    }
  }

  lemma {:induction false} PartCovered(addrs: seq<seq<nat>>, active: set<nat>, lo: nat, hi: nat, d: nat, u: Use)
    requires hi <= |addrs|
    ensures Covered(PartAccesses(addrs, active, lo, hi), d, u) <==>
      UsesByte(addrs, active, lo, hi, d, u.thread, u.byte)
    decreases hi
  {
    if hi > lo {
      var t := hi - 1;
      PartCovered(addrs, active, lo, t, d, u);
      var l := PartAccesses(addrs, active, lo, t);
      if t in active {
        CoveredAppend(l, ThreadAccesses(t, addrs[t], UsedSlots(addrs[t])), d, u);
        SlotsCovered(t, addrs[t], d, u);
      } else {
        assert l + [] == l;
      }
    }
  }

  /** The uses of a part are those of its active threads' slots. */
  lemma PartUses(addrs: seq<seq<nat>>, active: set<nat>, lo: nat, hi: nat, d: nat, u: Use)
    requires hi <= |addrs|
    ensures u in Uses(PartAccesses(addrs, active, lo, hi), d) <==>
      UsesByte(addrs, active, lo, hi, d, u.thread, u.byte)
  {
    UsesAreCovered(PartAccesses(addrs, active, lo, hi), d, u);
    PartCovered(addrs, active, lo, hi, d, u);
  }

  /** Block `q` of `n` bytes holds a byte that the part uses. */
  ghost predicate BlockUsed(addrs: seq<seq<nat>>, active: set<nat>, lo: nat, hi: nat, d: nat, n: nat, q: int)
    requires hi <= |addrs| && n > 0
  {
    exists t: nat, x: nat :: UsesByte(addrs, active, lo, hi, d, t, x) && x / n == q
  }

  /** `blocks` are the blocks of `n` bytes that the part uses. */
  ghost predicate AreUsedBlocks(
    blocks: set<int>, addrs: seq<seq<nat>>, active: set<nat>, lo: nat, hi: nat, d: nat, n: nat)
    requires hi <= |addrs| && n > 0
  {
    forall q: int :: q in blocks <==> BlockUsed(addrs, active, lo, hi, d, n, q)
  }

  lemma BlocksOfPart(addrs: seq<seq<nat>>, active: set<nat>, lo: nat, hi: nat, d: nat, n: nat)
    requires hi <= |addrs| && n > 0
    ensures AreUsedBlocks(TouchedBlocks(Uses(PartAccesses(addrs, active, lo, hi), d), n), addrs, active, lo, hi, d, n)
  {
    var us := Uses(PartAccesses(addrs, active, lo, hi), d);
    forall u ensures u in us <==> UsesByte(addrs, active, lo, hi, d, u.thread, u.byte) {
      PartUses(addrs, active, lo, hi, d, u);
    }
    forall q: int ensures q in TouchedBlocks(us, n) <==> BlockUsed(addrs, active, lo, hi, d, n, q) {
      if q in TouchedBlocks(us, n) {
        var u :| u in us && u.byte / n == q;
        assert UsesByte(addrs, active, lo, hi, d, u.thread, u.byte);
      }
      if t: nat, x: nat :| UsesByte(addrs, active, lo, hi, d, t, x) && x / n == q {
        assert Use(t, x) in us;
      }
    }
  }

  /** As many accesses as blocks of `n` bytes that the part uses. */
  ghost predicate CountsBlocks(
    sent: seq<MemAccess>, addrs: seq<seq<nat>>, active: set<nat>, lo: nat, hi: nat, d: nat, n: nat)
    requires hi <= |addrs| && n > 0
  {
    exists blocks :: AreUsedBlocks(blocks, addrs, active, lo, hi, d, n) && |sent| == |blocks|
  }

  lemma PartCountsBlocks(
    addrs: seq<seq<nat>>, active: set<nat>, lo: nat, hi: nat, d: nat, g: nat, write: bool, batch: Batch)
    requires hi <= |addrs| && IsSegmentSize(g) && IsDataSize(d)
    requires SentFor(batch, MarkAll(PartAccesses(addrs, active, lo, hi), d, g), write)
    ensures CountsBlocks(batch.sent, addrs, active, lo, hi, d, g)
  {
    OnePerBlock(PartAccesses(addrs, active, lo, hi), d, g, write, batch);
    BlocksOfPart(addrs, active, lo, hi, d, g);
  }

  /** Block `q` has a queued access. */
  ghost predicate BlockQueued(sent: seq<MemAccess>, n: nat, q: int)
    requires n > 0
  {
    exists i :: 0 <= i < |sent| && sent[i].addr / n == q
  }

  /** The accesses stay inside blocks of `n` bytes, one for each block the part uses, in ascending
      order. */
  ghost predicate ServesBlocks(
    sent: seq<MemAccess>, addrs: seq<seq<nat>>, active: set<nat>, lo: nat, hi: nat, d: nat, n: nat)
    requires hi <= |addrs| && n > 0
  {
    && (forall i | 0 <= i < |sent| :: sent[i].addr % n + sent[i].size <= n)
    && (forall i, j | 0 <= i < j < |sent| :: sent[i].addr / n < sent[j].addr / n)
    && (forall q: int :: BlockQueued(sent, n, q) <==> BlockUsed(addrs, active, lo, hi, d, n, q))
  }

  lemma QueuedInBlock(l: seq<Access>, d: nat, g: nat, write: bool, batch: Batch, i: nat)
    requires IsSegmentSize(g) && d > 0 && SentFor(batch, MarkAll(l, d, g), write) && i < |batch.sent|
    ensures i < |batch.keys| && batch.keys[i] == g * (batch.sent[i].addr / g)
    ensures batch.sent[i].addr % g + batch.sent[i].size <= g
  {
    var tx, b := MarkAll(l, d, g), batch.keys[i];
    QueuedAt(tx, batch.keys, write, i);
    MarkAllChunksOk(l, d, g);
    assert b in tx;
    WindowIsBest(b, g, tx[b].chunks);
    SegmentUnique(batch.sent[i].addr, b, g);
    SegmentIsBlock(batch.sent[i].addr, g);
  }

  lemma BlocksAscend(i: int, j: int, g: nat)
    requires IsSegmentSize(g) && g * i < g * j
    ensures i < j
  {
  }

  lemma PartServesBlocks(
    addrs: seq<seq<nat>>, active: set<nat>, lo: nat, hi: nat, d: nat, g: nat, write: bool, batch: Batch)
    requires hi <= |addrs| && IsSegmentSize(g) && IsDataSize(d)
    requires SentFor(batch, MarkAll(PartAccesses(addrs, active, lo, hi), d, g), write)
    ensures ServesBlocks(batch.sent, addrs, active, lo, hi, d, g)
  {
    var l, sent := PartAccesses(addrs, active, lo, hi), batch.sent;
    var us := Uses(l, d);
    TransactionSegments(l, d, g);
    BlocksOfPart(addrs, active, lo, hi, d, g);
    forall i | 0 <= i < |sent| ensures sent[i].addr % g + sent[i].size <= g {
      QueuedInBlock(l, d, g, write, batch, i);
    }
    forall i, j | 0 <= i < j < |sent| ensures sent[i].addr / g < sent[j].addr / g {
      QueuedInBlock(l, d, g, write, batch, i);
      QueuedInBlock(l, d, g, write, batch, j);
      BlocksAscend(sent[i].addr / g, sent[j].addr / g, g);
    }
    forall q: int ensures BlockQueued(sent, g, q) <==> q in TouchedBlocks(us, g) {
      BlockIsQueued(l, d, g, write, batch, q);
    }
  }

  lemma BlockIsQueued(l: seq<Access>, d: nat, g: nat, write: bool, batch: Batch, q: int)
    requires IsSegmentSize(g) && IsDataSize(d) && SentFor(batch, MarkAll(l, d, g), write)
    requires MarkAll(l, d, g).Keys == TouchedSegments(Uses(l, d), g)
    ensures BlockQueued(batch.sent, g, q) <==> q in TouchedBlocks(Uses(l, d), g)
  {
    var us, sent := Uses(l, d), batch.sent;
    if i :| 0 <= i < |sent| && sent[i].addr / g == q {
      QueuedInBlock(l, d, g, write, batch, i);
      assert batch.keys[i] in TouchedSegments(us, g);
      var u :| u in us && Segment(u.byte, g) as int == batch.keys[i];
      SameBlockSegment(u.byte, sent[i].addr / g, g);
      assert u.byte / g == q;
    }
    if q in TouchedBlocks(us, g) {
      var u :| u in us && u.byte / g == q;
      var b: int := Segment(u.byte, g);
      assert b in MarkAll(l, d, g).Keys;
      var i :| 0 <= i < |batch.keys| && batch.keys[i] == b;
      QueuedInBlock(l, d, g, write, batch, i);
      SegmentIsBlock(u.byte, g);
      SameBlockSegment(u.byte, sent[i].addr / g, g);
      assert sent[i].addr / g == q;
    }
  }
}
