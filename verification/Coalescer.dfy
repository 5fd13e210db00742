/** Global-memory coalescing: which memory transactions one warp instruction
    generates, for loads and stores. Threads whose accesses fall into one segment
    share a transaction; the transaction is then shrunk to the smallest window that
    still covers what they use. */
module Coalescer {
  import opened OrderedKeys

  /** One scalar access of one thread. */
  datatype Access = Access(thread: nat, addr: nat)

  /** `transaction_info`: 32-byte chunks, bytes (both within a 128-byte block) and threads. */
  datatype Transaction = Transaction(chunks: set<nat>, bytes: set<nat>, active: set<nat>)

  const NO_TRANSACTION := Transaction({}, {}, {})

  /** What is pushed on the access queue. */
  datatype MemAccess = MemAccess(addr: nat, size: nat, write: bool, info: Transaction)

  predicate IsSegmentSize(g: nat) {
    g == 32 || g == 64 || g == 128
  }

  predicate IsDataSize(d: nat) {
    d == 1 || d == 2 || d == 4 || d == 8 || d == 16
  }

  /** `line_size_based_tag_func` for the three segment sizes: clear the offset bits. */
  function Segment(x: nat, g: nat): nat {
    match g
    case 32 => x - x % 32
    case 64 => x - x % 64
    case _ => x - x % 128
  }

  /** Sectored caches: Fermi and Kepler when L1 is bypassed, Maxwell and later always. */
  predicate SectorSegments(arch: int, bypassL1: bool) {
    (20 <= arch < 39 && bypassL1) || arch >= 40
  }

  function SegmentSize(dataSize: nat, sector: bool): (g: nat)
    requires IsDataSize(dataSize)
    ensures IsSegmentSize(g) && g >= dataSize
  {
    if dataSize == 1 then 32
    else if dataSize == 2 then (if sector then 32 else 64)
    else (if sector then 32 else 128)
  }

  // ----- addresses ------------------------------------------------------------------------

  function Chunk(x: nat): nat {
    x % 128 / 32
  }

  lemma Mod32(q: nat, r: nat)
    requires r < 32
    ensures (32 * q + r) % 32 == r && (32 * q + r) / 32 == q
  {
  }

  lemma Mod64(q: nat, r: nat)
    requires r < 64
    ensures (64 * q + r) % 64 == r && (64 * q + r) / 64 == q
  {
  }

  lemma Mod128(q: nat, r: nat)
    requires r < 128
    ensures (128 * q + r) % 128 == r && (128 * q + r) / 128 == q
  {
  }

  /** The position of an address inside its 128-byte block, by chunks. */
  lemma ChunkForm(x: nat) returns (q: nat, c: nat, o: nat)
    ensures x == 128 * q + 32 * c + o && c < 4 && o < 32
    ensures x % 128 == 32 * c + o && x % 64 == 32 * (c % 2) + o && x % 32 == o && Chunk(x) == c
  {
    var r := x % 128;
    q, c, o := x / 128, r / 32, r % 32;
    assert x == 64 * (2 * q + c / 2) + (32 * (c % 2) + o);
    Mod64(2 * q + c / 2, 32 * (c % 2) + o);
    assert x == 32 * (4 * q + c) + o;
    Mod32(4 * q + c, o);
  }

  /** Bytes of one chunk keep their distance inside every segment. */
  lemma SameBlock(x: nat, y: nat)
    requires x <= y && x % 32 + (y - x) < 32
    ensures y % 128 == x % 128 + (y - x) && y % 64 == x % 64 + (y - x) && y % 32 == x % 32 + (y - x)
    ensures Chunk(x) == Chunk(y)
  {
    var q, c, o := ChunkForm(x);
    var e := y - x;
    assert y == 128 * q + (32 * c + o + e);
    Mod128(q, 32 * c + o + e);
    assert y == 64 * (2 * q + c / 2) + (32 * (c % 2) + o + e);
    Mod64(2 * q + c / 2, 32 * (c % 2) + o + e);
    assert y == 32 * (4 * q + c) + (o + e);
    Mod32(4 * q + c, o + e);
    Mod32(c, o + e);
  }

  // ----- window reduction ---------------------------------------------------------------

  /** First byte of chunk `c` of the 128-byte block that contains `x`. */
  function ChunkAddr(x: nat, c: nat): nat {
    x - x % 128 + 32 * c
  }

  /** A nonempty chunk set inside the segment that starts at `b`. */
  ghost predicate ChunksInSegment(b: nat, g: nat, chunks: set<nat>) {
    && IsSegmentSize(g) && b % g == 0 && chunks != {}
    && (forall c | c in chunks :: c < 4 && b <= ChunkAddr(b, c) && ChunkAddr(b, c) + 32 <= b + g)
  }

  /** An aligned 32-, 64- or 128-byte window that contains every used chunk. */
  ghost predicate Covers(a: nat, size: nat, b: nat, chunks: set<nat>) {
    && IsSegmentSize(size) && a % size == 0
    && (forall c | c in chunks :: a <= ChunkAddr(b, c) && ChunkAddr(b, c) + 32 <= a + size)
  }

  ghost predicate BestWindow(a: nat, size: nat, b: nat, g: nat, chunks: set<nat>) {
    && Covers(a, size, b, chunks)
    && b <= a && a + size <= b + g
    && (forall a2, size2 | Covers(a2, size2, b, chunks) :: size <= size2)
  }

  lemma TwoChunksNeed64(a: nat, size: nat, b: nat, chunks: set<nat>, c: nat, e: nat)
    requires Covers(a, size, b, chunks) && c in chunks && e in chunks && c < e < 4
    ensures size >= 64
    ensures c < 2 <= e ==> size == 128
  {
    var q := b / 128;
    assert ChunkAddr(b, c) == 128 * q + 32 * c && ChunkAddr(b, e) == 128 * q + 32 * e;
    if size == 64 {
      var p := a / 64;
      assert a == 64 * p;
      assert c < 2 ==> p <= 2 * q;
    }
  }

  // ----- marking accesses -----------------------------------------------------------------

  /** Bits `idx` to `idx + d - 1` of a 128-bit byte mask. */
  function ByteRun(idx: nat, d: nat): set<nat> {
    if d == 0 then {} else ByteRun(idx, d - 1) + (if idx + d - 1 < 128 then {idx + d - 1} else {})
  }

  lemma {:induction false} ByteRunIs(idx: nat, d: nat)
    ensures forall y :: y in ByteRun(idx, d) <==> idx <= y < idx + d && y < 128
  {
    if d > 0 {
      ByteRunIs(idx, d - 1);
    }
  }

  function Touch(tx: map<int, Transaction>, b: int, t: nat, x: nat, d: nat): map<int, Transaction> {
    var info := if b in tx then tx[b] else NO_TRANSACTION;
    tx[b := Transaction(info.chunks + {Chunk(x)}, info.bytes + ByteRun(x % 128, d), info.active + {t})]
  }

  /** One access of `d` bytes. An access that leaves its segment also touches the
      segment of its last byte, marking bytes from that last byte on. */
  function MarkAccess(tx: map<int, Transaction>, a: Access, d: nat, g: nat): map<int, Transaction>
    requires d > 0
  {
    var last := a.addr + d - 1;
    var tx1 := Touch(tx, Segment(a.addr, g), a.thread, a.addr, d);
    if Segment(last, g) != Segment(a.addr, g) then Touch(tx1, Segment(last, g), a.thread, last, d) else tx1
  }

  /** Process accesses from left to right. */
  function Fold<M>(f: (M, Access) -> M, start: M, l: seq<Access>): M {
    if l == [] then start else f(Fold(f, start, l[..|l| - 1]), l[|l| - 1])
  }

  function Marker(d: nat, g: nat): (map<int, Transaction>, Access) -> map<int, Transaction>
    requires d > 0
  {
    (tx: map<int, Transaction>, a: Access) => MarkAccess(tx, a, d, g)
  }

  function MarkAll(l: seq<Access>, d: nat, g: nat): map<int, Transaction>
    requires d > 0
  {
    Fold(Marker(d, g), map[], l)
  }

  // ----- what the transactions should be ----------------------------------------------------

  /** One byte used by one thread. */
  datatype Use = Use(thread: nat, byte: nat)

  ghost function AccessUses(a: Access, d: nat): set<Use> {
    set x | a.addr <= x < a.addr + d :: Use(a.thread, x)
  }

  ghost function Uses(l: seq<Access>, d: nat): (us: set<Use>)
    ensures forall a, u | a in l && u in AccessUses(a, d) :: u in us
    ensures forall u | u in us :: exists a :: a in l && u in AccessUses(a, d)
  {
    if l == [] then {} else Uses(l[..|l| - 1], d) + AccessUses(l[|l| - 1], d)
  }

  ghost function Within(us: set<Use>, b: int, g: nat): set<Use> {
    set u | u in us && Segment(u.byte, g) == b
  }

  ghost function Exact(us: set<Use>): Transaction {
    Transaction(set u | u in us :: Chunk(u.byte), set u | u in us :: u.byte % 128, set u | u in us :: u.thread)
  }

  /** One transaction per segment touched, holding exactly what is used there. */
  ghost function ExactTransactions(us: set<Use>, g: nat): map<int, Transaction> {
    map b: int | b in (set u | u in us :: Segment(u.byte, g) as int) :: Exact(Within(us, b, g))
  }

  /** The access stays inside one 32-byte chunk, as every aligned one does. */
  predicate InOneChunk(a: Access, d: nat) {
    a.addr % 32 + d <= 32
  }

  lemma AlignedInOneChunk(a: Access, d: nat)
    requires IsDataSize(d) && a.addr % d == 0
    ensures InOneChunk(a, d)
  {
    match d
    case 1 =>
    case 2 =>
    case 4 =>
    case 8 =>
    case 16 =>
  }

  lemma ByteOfChunk(a: Access, d: nat, g: nat, x: nat)
    requires IsSegmentSize(g) && InOneChunk(a, d) && a.addr <= x < a.addr + d
    ensures Chunk(x) == Chunk(a.addr) && Segment(x, g) == Segment(a.addr, g)
    ensures x % 128 == a.addr % 128 + (x - a.addr) < 128
  {
    SameBlock(a.addr, x);
    match g
    case 32 =>
    case 64 =>
    case 128 =>
  }

  lemma OneSegment(a: Access, d: nat, g: nat)
    requires IsSegmentSize(g) && d > 0 && InOneChunk(a, d)
    ensures forall u | u in AccessUses(a, d) :: Segment(u.byte, g) == Segment(a.addr, g)
    ensures Segment(a.addr + d - 1, g) == Segment(a.addr, g) && Use(a.thread, a.addr) in AccessUses(a, d)
  {
    forall u | u in AccessUses(a, d) ensures Segment(u.byte, g) == Segment(a.addr, g) {
      ByteOfChunk(a, d, g, u.byte);
    }
    ByteOfChunk(a, d, g, a.addr + d - 1);
  }

  lemma ExactTouch(us: set<Use>, a: Access, d: nat, g: nat)
    requires IsSegmentSize(g) && d > 0 && InOneChunk(a, d)
    ensures MarkAccess(ExactTransactions(us, g), a, d, g) == ExactTransactions(us + AccessUses(a, d), g)
  {
    var b, more := Segment(a.addr, g), AccessUses(a, d);
    OneSegment(a, d, g);
    ExactKeys(us, more, b, g, Use(a.thread, a.addr));
    ExactInSegment(us, a, d, g);
    OneKeyChanges(ExactTransactions(us, g), ExactTransactions(us + more, g), b, a, d);
  }

  lemma OneKeyChanges(tx: map<int, Transaction>, r: map<int, Transaction>, b: int, a: Access, d: nat)
    requires r.Keys == tx.Keys + {b} && forall k | k in tx && k != b :: r[k] == tx[k]
    requires Touch(tx, b, a.thread, a.addr, d)[b] == r[b]
    ensures Touch(tx, b, a.thread, a.addr, d) == r
  {
  }

  lemma ExactKeys(us: set<Use>, more: set<Use>, b: int, g: nat, w: Use)
    requires IsSegmentSize(g) && w in more && forall u | u in more :: Segment(u.byte, g) == b
    ensures ExactTransactions(us + more, g).Keys == ExactTransactions(us, g).Keys + {b}
    ensures forall k | k in ExactTransactions(us, g) && k != b ::
      ExactTransactions(us + more, g)[k] == ExactTransactions(us, g)[k]
  {
    assert w in us + more;
    forall k | k in ExactTransactions(us, g) && k != b ensures Within(us + more, k, g) == Within(us, k, g) {
    }
  }

  lemma ExactInSegment(us: set<Use>, a: Access, d: nat, g: nat)
    requires IsSegmentSize(g) && d > 0 && InOneChunk(a, d)
    requires forall u | u in AccessUses(a, d) :: Segment(u.byte, g) == Segment(a.addr, g)
    ensures
      var b, tx := Segment(a.addr, g), ExactTransactions(us, g);
      Touch(tx, b, a.thread, a.addr, d)[b] == Exact(Within(us + AccessUses(a, d), b, g))
  {
    var b, more := Segment(a.addr, g), AccessUses(a, d);
    assert Within(us + more, b, g) == Within(us, b, g) + more;
    ExactUnion(Within(us, b, g), more);
    ExactAccess(a, d);
    if b !in ExactTransactions(us, g) {
      assert Within(us, b, g) == {};
      assert Exact({}) == NO_TRANSACTION;
    }
  }

  lemma ExactUnion(us: set<Use>, more: set<Use>)
    ensures Exact(us + more) == Transaction(Exact(us).chunks + Exact(more).chunks, Exact(us).bytes + Exact(more).bytes,
                                           Exact(us).active + Exact(more).active)
  {
  }

  lemma ExactAccess(a: Access, d: nat)
    requires d > 0 && InOneChunk(a, d)
    ensures Exact(AccessUses(a, d)) == Transaction({Chunk(a.addr)}, ByteRun(a.addr % 128, d), {a.thread})
  {
    var us := AccessUses(a, d);
    forall x | a.addr <= x < a.addr + d
      ensures Chunk(x) == Chunk(a.addr) && x % 128 == a.addr % 128 + (x - a.addr) < 128 && Use(a.thread, x) in us
    {
      ByteOfChunk(a, d, 32, x);
    }
    assert Use(a.thread, a.addr) in us;
    ByteRunIs(a.addr % 128, d);
    forall y | y in ByteRun(a.addr % 128, d) ensures y in Exact(us).bytes {
      var x := a.addr + (y - a.addr % 128);
      assert Use(a.thread, x) in us && x % 128 == y;
    }
  }

  lemma {:induction false} MarkAllExact(l: seq<Access>, d: nat, g: nat)
    requires IsSegmentSize(g) && d > 0 && forall a | a in l :: InOneChunk(a, d)
    ensures MarkAll(l, d, g) == ExactTransactions(Uses(l, d), g)
  {
    if l == [] {
      assert ExactTransactions({}, g) == map[];
    } else {
      MarkAllExact(l[..|l| - 1], d, g);
      ExactTouch(Uses(l[..|l| - 1], d), l[|l| - 1], d, g);
    }
  }

  lemma FoldOne<M>(f: (M, Access) -> M, start: M, a: Access)
    ensures Fold(f, start, [a]) == f(start, a)
  {
    assert [a][..0] == [];
    assert Fold(f, start, [a][..0]) == start;
  }

  /** Bytes, chunks and threads of a lone access come out exact if and only if it stays
      inside one 32-byte chunk. */
  lemma LoneAccessExact(a: Access, d: nat, g: nat)
    requires IsSegmentSize(g) && IsDataSize(d)
    ensures MarkAll([a], d, g) == ExactTransactions(Uses([a], d), g) <==> InOneChunk(a, d)
  {
    if InOneChunk(a, d) {
      MarkAllExact([a], d, g);
    } else {
      assert Uses([a], d) == AccessUses(a, d);
      FoldOne(Marker(d, g), map[], a);
      CrossingIsInexact(a, d, g);
    }
  }

  lemma CrossingForm(a: Access, d: nat)
    requires IsDataSize(d) && !InOneChunk(a, d)
    ensures var last := a.addr + d - 1; last % 128 + 1 < 128 && Chunk(last) != Chunk(a.addr)
  {
    var last := a.addr + d - 1;
    var q, c, o := ChunkForm(a.addr);
    var e := o + d - 33;
    assert last == 128 * q + 32 * (c + 1) + e && 0 <= e < 15;
    if c < 3 {
      Mod128(q, 32 * (c + 1) + e);
      Mod32(c + 1, e);
    } else {
      assert last == 128 * (q + 1) + e;
      Mod128(q + 1, e);
    }
  }

  /** Inside one segment, addresses and their offsets in the 128-byte block go together. */
  lemma OffsetsOrdered(x: nat, y: nat, g: nat)
    requires IsSegmentSize(g) && x <= y && Segment(x, g) == Segment(y, g)
    ensures x % 128 + (y - x) == y % 128
  {
    var q, c, o := ChunkForm(x);
    var p, e, u := ChunkForm(y);
    SegmentForm(x, g, q, c, o);
    SegmentForm(y, g, p, e, u);
    SameQuotient(q, SegmentStart(c, g), p, SegmentStart(e, g));
  }

  lemma SegmentForm(x: nat, g: nat, q: nat, c: nat, o: nat)
    requires IsSegmentSize(g) && c < 4
    requires x == 128 * q + 32 * c + o
    requires x % 128 == 32 * c + o && x % 64 == 32 * (c % 2) + o && x % 32 == o
    ensures Segment(x, g) == 128 * q + SegmentStart(c, g)
  {
  }

  lemma SameQuotient(q: nat, i: nat, p: nat, j: nat)
    requires 128 * q + i == 128 * p + j && i < 128 && j < 128
    ensures q == p
  {
  }

  /** Offset in the 128-byte block of the segment holding chunk `c`. */
  function SegmentStart(c: nat, g: nat): (i: nat)
    requires c < 4 && IsSegmentSize(g)
    ensures i < 128
  {
    if g == 32 then 32 * c else if g == 64 then 32 * (c - c % 2) else 0
  }

  lemma CrossingInside(a: Access, d: nat, g: nat)
    requires IsSegmentSize(g) && IsDataSize(d) && !InOneChunk(a, d)
    requires Segment(a.addr + d - 1, g) == Segment(a.addr, g)
    ensures MarkAccess(map[], a, d, g) != ExactTransactions(AccessUses(a, d), g)
  {
    var last, b := a.addr + d - 1, Segment(a.addr, g);
    var us := AccessUses(a, d);
    CrossingForm(a, d);
    assert Use(a.thread, last) in us;
    ChunkIsUsed(us, Use(a.thread, last), g);
    assert ExactTransactions(us, g)[b] == Exact(Within(us, b, g));
    assert MarkAccess(map[], a, d, g)[b].chunks == {Chunk(a.addr)};
  }

  lemma CrossingAcross(a: Access, d: nat, g: nat)
    requires IsSegmentSize(g) && IsDataSize(d) && !InOneChunk(a, d)
    requires Segment(a.addr + d - 1, g) != Segment(a.addr, g)
    ensures MarkAccess(map[], a, d, g) != ExactTransactions(AccessUses(a, d), g)
  {
    var last, b := a.addr + d - 1, Segment(a.addr + d - 1, g);
    var us := AccessUses(a, d);
    CrossingForm(a, d);
    assert Use(a.thread, last) in us;
    StraddleBytes(a, d, g);
    NextByteNotUsed(a, d, g);
    assert ExactTransactions(us, g)[b] == Exact(Within(us, b, g));
  }

  lemma CrossingIsInexact(a: Access, d: nat, g: nat)
    requires IsSegmentSize(g) && IsDataSize(d) && !InOneChunk(a, d)
    ensures MarkAccess(map[], a, d, g) != ExactTransactions(AccessUses(a, d), g)
  {
    if Segment(a.addr + d - 1, g) == Segment(a.addr, g) {
      CrossingInside(a, d, g);
    } else {
      CrossingAcross(a, d, g);
    }
  }

  lemma ChunkIsUsed(us: set<Use>, u: Use, g: nat)
    requires IsSegmentSize(g) && u in us
    ensures Chunk(u.byte) in Exact(Within(us, Segment(u.byte, g), g)).chunks
  {
    assert u in Within(us, Segment(u.byte, g), g);
  }

  lemma NextByteNotUsed(a: Access, d: nat, g: nat)
    requires IsSegmentSize(g) && d > 0
    ensures var last := a.addr + d - 1;
      last % 128 + 1 !in Exact(Within(AccessUses(a, d), Segment(last, g), g)).bytes
  {
    var last := a.addr + d - 1;
    forall u | u in Within(AccessUses(a, d), Segment(last, g), g) ensures u.byte % 128 <= last % 128 {
      OffsetsOrdered(u.byte, last, g);
    }
  }

  lemma StraddleBytes(a: Access, d: nat, g: nat)
    requires IsSegmentSize(g) && d > 1
    requires var last := a.addr + d - 1; Segment(last, g) != Segment(a.addr, g) && last % 128 + 1 < 128
    ensures var last := a.addr + d - 1;
      last % 128 + 1 in MarkAccess(map[], a, d, g)[Segment(last, g)].bytes
  {
    var last := a.addr + d - 1;
    ByteRunIs(last % 128, d);
    assert last % 128 + 1 in ByteRun(last % 128, d);
  }
}
