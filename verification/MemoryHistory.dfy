/** What the flags of the two-copy memory stand for: at every point of a run they are determined
    by the operations so far. */
module MemoryHistory {
  import opened UnifiedMemory

  /** Nothing allocated, nothing to write back. */
  ghost predicate StartsClean(m: Memory) {
    m.allocs == map[] && m.dirty == {} && m.pending == {}
  }

  /** Byte `x` of allocation `b` is on device page `p`. */
  ghost predicate OnPage(m: Memory, page: PageMap, b: int, x: int, p: int) {
    b in m.allocs && Within(m, b, x) && page(m.allocs[b].gpu + (x - b)) == p
  }

  /** Operation `i` is a store of a kernel to page `p`. */
  ghost predicate StoresTo(ms: seq<Memory>, page: PageMap, ops: seq<Op>, i: nat, p: int) {
    i < |ops| <= |ms| && ops[i].DoKernelWrite? && OnPage(ms[i], page, ops[i].b, ops[i].x, p)
  }

  /** Set up at operation `i`, and not synchronised since. */
  ghost predicate SetUpAt(ops: seq<Op>, j: nat, b: int, i: nat)
    requires j <= |ops|
  {
    i < j && ops[i] == DoSetupArgument(b) && forall k | i < k < j :: !ops[k].DoSynchronize?
  }

  ghost predicate SetUpSince(ops: seq<Op>, j: nat, b: int)
    requires j <= |ops|
  {
    exists i: nat :: SetUpAt(ops, j, b, i)
  }

  /** Stored to at operation `i`, and neither its eviction nor a synchronisation since. */
  ghost predicate StoredAt(ms: seq<Memory>, page: PageMap, ops: seq<Op>, j: nat, p: int, i: nat)
    requires j <= |ops|
  {
    && i < j && StoresTo(ms, page, ops, i, p)
    && forall k | i < k < j :: ops[k] != DoEvictStart(p) && !ops[k].DoSynchronize?
  }

  ghost predicate StoredSince(ms: seq<Memory>, page: PageMap, ops: seq<Op>, j: nat, p: int)
    requires j <= |ops|
  {
    exists i: nat :: StoredAt(ms, page, ops, j, p, i)
  }

  /** Eviction scheduled at operation `i`, and not finished since. */
  ghost predicate ScheduledAt(ops: seq<Op>, j: nat, p: int, i: nat)
    requires j <= |ops|
  {
    i < j && ops[i] == DoEvictStart(p) && forall k | i < k < j :: ops[k] != DoEvictFinish(p)
  }

  ghost predicate ScheduledSince(ops: seq<Op>, j: nat, p: int)
    requires j <= |ops|
  {
    exists i: nat :: ScheduledAt(ops, j, p, i)
  }

  // ----- which bytes an operation changes --------------------------------------------------------------

  /** Some copied-in allocation has host byte `x` on page `p`. */
  ghost predicate MirroredOn(m: Memory, page: PageMap, x: int, p: int) {
    exists b: int :: OnPage(m, page, b, x, p) && m.allocs[b].copied
  }

  /** A byte of the host's changes by the program's own store, or when its page is written back. */
  lemma HostByteChanges(m: Memory, page: PageMap, op: Op, m': Memory, x: int)
    requires Next(m, page, op, m')
    ensures |m'.host| == |m.host|
    ensures 0 <= x < |m.host| && m'.host[x] != m.host[x] ==>
      || (op.DoHostWrite? && op.x == x)
      || (op.DoEvictFinish? && MirroredOn(m, page, x, op.p))
      || (op.DoSynchronize? && exists p :: p in m.dirty && MirroredOn(m, page, x, p))
  {
    if 0 <= x < |m.host| && m'.host[x] != m.host[x] && (op.DoEvictFinish? || op.DoSynchronize?) {
      assert !HostOwns(m, x);
      var b: int :| b in m.allocs && Within(m, b, x) && m.allocs[b].copied;
      assert OnPage(m, page, b, x, page(m.allocs[b].gpu + (x - b)));
    }
  }

  /** A byte of the device's changes by a kernel's store, or when its allocation is made or set up. */
  lemma DeviceByteChanges(m: Memory, page: PageMap, op: Op, m': Memory, d: int)
    requires Next(m, page, op, m')
    ensures |m'.dev| == |m.dev|
    ensures 0 <= d < |m.dev| && m'.dev[d] != m.dev[d] ==>
      || (op.DoKernelWrite? && op.b in m.allocs && d == m.allocs[op.b].gpu + (op.x - op.b))
      || (op.DoAllocate? && op.gpu <= d < op.gpu + op.size)
      || (op.DoSetupArgument? && op.b in m.allocs && !m.allocs[op.b].copied
          && m.allocs[op.b].gpu <= d < m.allocs[op.b].gpu + m.allocs[op.b].size)
  {
  }

  // ----- allocations copied in ------------------------------------------------------------------------

  ghost predicate CopiedIn(m: Memory, b: int) {
    b in m.allocs && m.allocs[b].copied
  }

  lemma CopiedNext(m: Memory, page: PageMap, op: Op, m': Memory, b: int)
    requires Next(m, page, op, m')
    ensures CopiedIn(m', b) <==> op == DoSetupArgument(b) || (CopiedIn(m, b) && !op.DoSynchronize?)
  {
  }

  lemma SetUpNext(ops: seq<Op>, j: nat, b: int)
    requires j < |ops|
    ensures SetUpSince(ops, j + 1, b) <==>
      ops[j] == DoSetupArgument(b) || (SetUpSince(ops, j, b) && !ops[j].DoSynchronize?)
  {
    if ops[j] == DoSetupArgument(b) {
      assert SetUpAt(ops, j + 1, b, j);
    }
    if SetUpSince(ops, j + 1, b) {
      var after := j + 1;
      var i: nat :| SetUpAt(ops, after, b, i);
      assert i < j ==> SetUpAt(ops, j, b, i);
    }
    if i: nat :| SetUpAt(ops, j, b, i) {
      assert !ops[j].DoSynchronize? ==> SetUpAt(ops, j + 1, b, i);
    }
  }

  /** An allocation is copied in exactly when it was an argument since the last synchronisation. */
  lemma {:induction false} CopiedExactly(ms: seq<Memory>, page: PageMap, ops: seq<Op>, j: nat, b: int)
    requires IsRun(ms, page, ops) && j <= |ops|
    ensures CopiedIn(ms[j], b) <==> SetUpSince(ops, j, b)
  {
    if j > 0 {
      CopiedExactly(ms, page, ops, j - 1, b);
      assert Next(ms[j - 1], page, ops[j - 1], ms[j]);
      CopiedNext(ms[j - 1], page, ops[j - 1], ms[j], b);
      SetUpNext(ops, j - 1, b);
    }
  }

  // ----- dirty pages ----------------------------------------------------------------------------------

  /** Every dirty page holds a byte that is copied in. */
  ghost predicate DirtyOwned(m: Memory, page: PageMap) {
    forall p | p in m.dirty :: exists b: int, x: int :: OnPage(m, page, b, x, p) && m.allocs[b].copied
  }

  lemma DirtyStaysOwned(m: Memory, page: PageMap, op: Op, m': Memory)
    requires Next(m, page, op, m') && DirtyOwned(m, page)
    ensures DirtyOwned(m', page)
    ensures op.DoSynchronize? ==> m'.dirty == {}
  {
    forall p | p in m.dirty && !op.DoSynchronize?
      ensures exists b: int, x: int :: OnPage(m', page, b, x, p) && m'.allocs[b].copied
    {
      var b: int, x: int :| OnPage(m, page, b, x, p) && m.allocs[b].copied;
      assert OnPage(m', page, b, x, p) && m'.allocs[b].copied;
    }
    if op.DoKernelWrite? {
      var d := m.allocs[op.b].gpu + (op.x - op.b);
      assert OnPage(m', page, op.b, op.x, page(d)) && m'.allocs[op.b].copied;
    }
    if op.DoSynchronize? {
      forall p | p in m.dirty ensures p in op.evicted {
        var b: int, x: int :| OnPage(m, page, b, x, p) && m.allocs[b].copied;
      }
    }
  }

  lemma {:induction false} RunDirtyOwned(ms: seq<Memory>, page: PageMap, ops: seq<Op>, j: nat)
    requires IsRun(ms, page, ops) && StartsClean(ms[0]) && j <= |ops|
    ensures DirtyOwned(ms[j], page)
  {
    if j > 0 {
      RunDirtyOwned(ms, page, ops, j - 1);
      assert Next(ms[j - 1], page, ops[j - 1], ms[j]);
      DirtyStaysOwned(ms[j - 1], page, ops[j - 1], ms[j]);
    }
  }

  lemma StoredNext(ms: seq<Memory>, page: PageMap, ops: seq<Op>, j: nat, p: int)
    requires j < |ops|
    ensures StoredSince(ms, page, ops, j + 1, p) <==>
      StoresTo(ms, page, ops, j, p)
      || (StoredSince(ms, page, ops, j, p) && ops[j] != DoEvictStart(p) && !ops[j].DoSynchronize?)
  {
    if StoresTo(ms, page, ops, j, p) {
      assert StoredAt(ms, page, ops, j + 1, p, j);
    }
    if StoredSince(ms, page, ops, j + 1, p) {
      var after := j + 1;
      var i: nat :| StoredAt(ms, page, ops, after, p, i);
      assert i < j ==> StoredAt(ms, page, ops, j, p, i);
    }
    if i: nat :| StoredAt(ms, page, ops, j, p, i) {
      assert ops[j] != DoEvictStart(p) && !ops[j].DoSynchronize? ==> StoredAt(ms, page, ops, j + 1, p, i);
    }
  }

  /** A page is dirty exactly when a kernel stored to it after its last eviction was scheduled and
      after the last synchronisation. */
  lemma {:induction false} DirtyExactly(ms: seq<Memory>, page: PageMap, ops: seq<Op>, j: nat, p: int)
    requires IsRun(ms, page, ops) && StartsClean(ms[0]) && j <= |ops|
    ensures p in ms[j].dirty <==> StoredSince(ms, page, ops, j, p)
  {
    if j > 0 {
      DirtyExactly(ms, page, ops, j - 1, p);
      assert Next(ms[j - 1], page, ops[j - 1], ms[j]);
      RunDirtyOwned(ms, page, ops, j - 1);
      DirtyStaysOwned(ms[j - 1], page, ops[j - 1], ms[j]);
      StoredNext(ms, page, ops, j - 1, p);
    }
  }

  // ----- pending write-backs ----------------------------------------------------------------------------

  lemma ScheduledNext(ops: seq<Op>, j: nat, p: int)
    requires j < |ops|
    ensures ScheduledSince(ops, j + 1, p) <==>
      ops[j] == DoEvictStart(p) || (ScheduledSince(ops, j, p) && ops[j] != DoEvictFinish(p))
  {
    if ops[j] == DoEvictStart(p) {
      assert ScheduledAt(ops, j + 1, p, j);
    }
    if ScheduledSince(ops, j + 1, p) {
      var after := j + 1;
      var i: nat :| ScheduledAt(ops, after, p, i);
      assert i < j ==> ScheduledAt(ops, j, p, i);
    }
    if i: nat :| ScheduledAt(ops, j, p, i) {
      assert ops[j] != DoEvictFinish(p) ==> ScheduledAt(ops, j + 1, p, i);
    }
  }

  /** A write-back is pending exactly from its scheduling to its end. */
  lemma {:induction false} PendingExactly(ms: seq<Memory>, page: PageMap, ops: seq<Op>, j: nat, p: int)
    requires IsRun(ms, page, ops) && StartsClean(ms[0]) && j <= |ops|
    ensures p in ms[j].pending <==> ScheduledSince(ops, j, p)
  {
    if j > 0 {
      PendingExactly(ms, page, ops, j - 1, p);
      assert Next(ms[j - 1], page, ops[j - 1], ms[j]);
      ScheduledNext(ops, j - 1, p);
    }
  }

  /** After a synchronisation no page is dirty, no write-back is pending and nothing is copied in. */
  lemma SynchronizedClean(ms: seq<Memory>, page: PageMap, ops: seq<Op>, j: nat)
    requires IsRun(ms, page, ops) && StartsClean(ms[0]) && j < |ops| && ops[j].DoSynchronize?
    ensures var m := ms[j + 1];
      m.dirty == {} && m.pending == {} && forall b: int :: !CopiedIn(m, b)
  {
    RunDirtyOwned(ms, page, ops, j);
    assert Next(ms[j], page, ops[j], ms[j + 1]);
    DirtyStaysOwned(ms[j], page, ops[j], ms[j + 1]);
    var m := ms[j + 1];
    forall b: int ensures !CopiedIn(m, b) {
      CopiedNext(ms[j], page, ops[j], m, b);
    }
  }

  /** And the host holds what all stores so far, the program's and the kernels', made of its memory. */
  lemma SynchronizedHost(ms: seq<Memory>, page: PageMap, ops: seq<Op>, j: nat)
    requires IsRun(ms, page, ops) && j < |ops| && ops[j].DoSynchronize?
    requires forall k: nat | k < j :: HarmlessAt(ms, ops, k)
    ensures ms[j + 1].host == FlatRun(ms[0].host, ops[..j])
  {
    HarmlessRun(ms, page, ops, j);
    assert Next(ms[j], page, ops[j], ms[j + 1]);
    SynchronizeRefines(ms[j], page, FlatRun(ms[0].host, ops[..j]), ops[j].evicted, ms[j + 1]);
  }
}
