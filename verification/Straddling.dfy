/** What the record of one access gets right when the access is not aligned: its threads always,
    its bytes unless it leaves its segment, its chunks unless it leaves its chunk inside a segment. */
module Straddling {
  import opened Coalescer

  /** The record of a lone access. */
  function Marked(a: Access, d: nat, g: nat): map<int, Transaction>
    requires d > 0
  {
    MarkAccess(map[], a, d, g)
  }

  /** What the record should be. */
  ghost function Meant(a: Access, d: nat, g: nat): map<int, Transaction> {
    ExactTransactions(AccessUses(a, d), g)
  }

  /** The last byte is in the segment of the first. */
  predicate InOneSegment(a: Access, d: nat, g: nat)
    requires d > 0
  {
    Segment(a.addr + d - 1, g) == Segment(a.addr, g)
  }

  lemma LoneRecord(a: Access, d: nat, g: nat)
    requires IsSegmentSize(g) && d > 0
    ensures MarkAll([a], d, g) == Marked(a, d, g) && ExactTransactions(Uses([a], d), g) == Meant(a, d, g)
  {
    assert Uses([a], d) == AccessUses(a, d);
    FoldOne(Marker(d, g), map[], a);
  }

  lemma SegmentBounds(x: nat, g: nat)
    requires IsSegmentSize(g)
    ensures Segment(x, g) <= x < Segment(x, g) + g && Segment(x, g) % 32 == 0
  {
    match g
    case 32 =>
      assert Segment(x, g) == 32 * (x / 32) + 0;
      Mod32(x / 32, 0);
    case 64 =>
      assert Segment(x, g) == 32 * (2 * (x / 64)) + 0;
      Mod32(2 * (x / 64), 0);
    case 128 =>
      assert Segment(x, g) == 32 * (4 * (x / 128)) + 0;
      Mod32(4 * (x / 128), 0);
  }

  lemma SegmentsApart(x: nat, y: nat, g: nat)
    requires IsSegmentSize(g) && x <= y
    ensures Segment(x, g) == Segment(y, g) || Segment(x, g) + g <= Segment(y, g)
  {
    match g
    case 32 =>
      assert Segment(x, g) == 32 * (x / 32) && Segment(y, g) == 32 * (y / 32) && x / 32 <= y / 32;
    case 64 =>
      assert Segment(x, g) == 64 * (x / 64) && Segment(y, g) == 64 * (y / 64) && x / 64 <= y / 64;
    case 128 =>
      assert Segment(x, g) == 128 * (x / 128) && Segment(y, g) == 128 * (y / 128) && x / 128 <= y / 128;
  }

  /** Every byte is in the segment of the first or of the last one. */
  lemma TwoSegments(a: Access, d: nat, g: nat, x: nat)
    requires IsSegmentSize(g) && IsDataSize(d) && a.addr <= x < a.addr + d
    ensures Segment(x, g) == Segment(a.addr, g) || Segment(x, g) == Segment(a.addr + d - 1, g)
  {
    var last := a.addr + d - 1;
    SegmentBounds(a.addr, g);
    SegmentBounds(last, g);
    SegmentsApart(a.addr, x, g);
    SegmentsApart(x, last, g);
  }

  lemma KeysAre(us: set<Use>, g: nat, keys: set<int>)
    requires IsSegmentSize(g) && (forall u | u in us :: Segment(u.byte, g) in keys)
    requires forall k | k in keys :: exists u :: u in us && Segment(u.byte, g) == k
    ensures ExactTransactions(us, g).Keys == keys
    ensures forall b | b in keys :: ExactTransactions(us, g)[b] == Exact(Within(us, b, g))
  {
    assert ExactTransactions(us, g).Keys == set u | u in us :: Segment(u.byte, g) as int;
    forall k | k in keys ensures k in ExactTransactions(us, g) {
      var u :| u in us && Segment(u.byte, g) == k;
    }
  }

  lemma MeantKeys(a: Access, d: nat, g: nat, first: int, last: int)
    requires IsSegmentSize(g) && IsDataSize(d)
    requires first == Segment(a.addr, g) && last == Segment(a.addr + d - 1, g)
    ensures Meant(a, d, g).Keys == {first, last}
    ensures forall b | b in {first, last} :: Meant(a, d, g)[b] == Exact(Within(AccessUses(a, d), b, g))
  {
    var us := AccessUses(a, d);
    assert Use(a.thread, a.addr) in us && Use(a.thread, a.addr + d - 1) in us;
    forall u | u in us ensures Segment(u.byte, g) in {first, last} {
      TwoSegments(a, d, g, u.byte);
    }
    KeysAre(us, g, {first, last});
  }

  /** The record of a lone access, segment by segment. */
  lemma MarkedForm(a: Access, d: nat, g: nat, first: int, last: int)
    requires IsSegmentSize(g) && d > 0
    requires first == Segment(a.addr, g) && last == Segment(a.addr + d - 1, g)
    ensures Marked(a, d, g).Keys == {first, last}
    ensures Marked(a, d, g)[first] == Transaction({Chunk(a.addr)}, ByteRun(a.addr % 128, d), {a.thread})
    ensures first != last ==>
      Marked(a, d, g)[last] ==
        Transaction({Chunk(a.addr + d - 1)}, ByteRun((a.addr + d - 1) % 128, d), {a.thread})
  {
    TouchForm(map[], first, a.thread, a.addr, d);
    if first != last {
      TouchForm(Touch(map[], first, a.thread, a.addr, d), last, a.thread, a.addr + d - 1, d);
    }
  }

  lemma TouchForm(tx: map<int, Transaction>, b: int, t: nat, x: nat, d: nat)
    requires b !in tx
    ensures Touch(tx, b, t, x, d) == tx[b := Transaction({Chunk(x)}, ByteRun(x % 128, d), {t})]
  {
    assert {} + {Chunk(x)} == {Chunk(x)} && {} + ByteRun(x % 128, d) == ByteRun(x % 128, d) && {} + {t} == {t};
  }

  lemma SideThreads(a: Access, d: nat, g: nat, x: nat)
    requires IsSegmentSize(g) && d > 0 && a.addr <= x < a.addr + d
    ensures Exact(Within(AccessUses(a, d), Segment(x, g), g)).active == {a.thread}
  {
    assert Use(a.thread, x) in Within(AccessUses(a, d), Segment(x, g), g);
  }

  /** The segments touched and the threads are always right. */
  lemma LoneThreadsExact(a: Access, d: nat, g: nat)
    requires IsSegmentSize(g) && IsDataSize(d)
    ensures Marked(a, d, g).Keys == Meant(a, d, g).Keys
    ensures forall b | b in Marked(a, d, g) :: Marked(a, d, g)[b].active == Meant(a, d, g)[b].active
  {
    var first, last := Segment(a.addr, g), Segment(a.addr + d - 1, g);
    MarkedForm(a, d, g, first, last);
    MeantKeys(a, d, g, first, last);
    SideThreads(a, d, g, a.addr);
    SideThreads(a, d, g, a.addr + d - 1);
  }

  ghost predicate SameBytes(m: map<int, Transaction>, n: map<int, Transaction>) {
    m.Keys == n.Keys && forall b | b in m :: m[b].bytes == n[b].bytes
  }

  ghost predicate SameChunks(m: map<int, Transaction>, n: map<int, Transaction>) {
    m.Keys == n.Keys && forall b | b in m :: m[b].chunks == n[b].chunks
  }

  lemma TwoKeys(m: map<int, Transaction>, n: map<int, Transaction>, first: int, last: int)
    requires m.Keys == n.Keys == {first, last}
    ensures SameBytes(m, n) <==> m[first].bytes == n[first].bytes && m[last].bytes == n[last].bytes
    ensures SameChunks(m, n) <==> m[first].chunks == n[first].chunks && m[last].chunks == n[last].chunks
  {
    assert first in m && last in m;
  }

  ghost predicate BytesExact(a: Access, d: nat, g: nat)
    requires d > 0
  {
    SameBytes(Marked(a, d, g), Meant(a, d, g))
  }

  ghost predicate ChunksExact(a: Access, d: nat, g: nat)
    requires d > 0
  {
    SameChunks(Marked(a, d, g), Meant(a, d, g))
  }

  lemma SegmentBytes(a: Access, d: nat, g: nat)
    requires IsSegmentSize(g) && IsDataSize(d) && InOneSegment(a, d, g)
    ensures Exact(AccessUses(a, d)).bytes == ByteRun(a.addr % 128, d)
    ensures Within(AccessUses(a, d), Segment(a.addr, g), g) == AccessUses(a, d)
  {
    var us := AccessUses(a, d);
    ByteRunIs(a.addr % 128, d);
    forall x | a.addr <= x < a.addr + d
      ensures Segment(x, g) == Segment(a.addr, g) && x % 128 == a.addr % 128 + (x - a.addr) && Use(a.thread, x) in us
    {
      TwoSegments(a, d, g, x);
      OffsetsOrdered(a.addr, x, g);
    }
    forall y | y in ByteRun(a.addr % 128, d) ensures y in Exact(us).bytes {
      var x := a.addr + (y - a.addr % 128);
      assert Use(a.thread, x) in us && x % 128 == y;
    }
  }

  lemma InsideBytes(a: Access, d: nat, g: nat)
    requires IsSegmentSize(g) && IsDataSize(d) && InOneSegment(a, d, g)
    ensures BytesExact(a, d, g)
  {
    var b := Segment(a.addr, g);
    MarkedForm(a, d, g, b, b);
    MeantKeys(a, d, g, b, b);
    TwoKeys(Marked(a, d, g), Meant(a, d, g), b, b);
    SegmentBytes(a, d, g);
  }

  lemma StraddlingBytes(a: Access, d: nat, g: nat)
    requires IsSegmentSize(g) && IsDataSize(d) && !InOneSegment(a, d, g)
    ensures !BytesExact(a, d, g)
  {
    var first, last := Segment(a.addr, g), Segment(a.addr + d - 1, g);
    MarkedForm(a, d, g, first, last);
    MeantKeys(a, d, g, first, last);
    TwoKeys(Marked(a, d, g), Meant(a, d, g), first, last);
    ExtraByte(a, d, g);
  }

  /** The byte mask is right if and only if the access stays inside its segment. */
  lemma LoneBytesExact(a: Access, d: nat, g: nat)
    requires IsSegmentSize(g) && IsDataSize(d)
    ensures BytesExact(a, d, g) <==> InOneSegment(a, d, g)
  {
    if InOneSegment(a, d, g) {
      InsideBytes(a, d, g);
    } else {
      StraddlingBytes(a, d, g);
    }
  }

  /** The byte after the last one is marked and not used. */
  lemma ExtraByte(a: Access, d: nat, g: nat)
    requires IsSegmentSize(g) && IsDataSize(d) && !InOneSegment(a, d, g)
    ensures var last := a.addr + d - 1;
      && last % 128 + 1 in ByteRun(last % 128, d)
      && last % 128 + 1 !in Exact(Within(AccessUses(a, d), Segment(last, g), g)).bytes
  {
    LeavesChunk(a, d, g);
    CrossingForm(a, d);
    NextByteNotUsed(a, d, g);
    ByteRunIs((a.addr + d - 1) % 128, d);
  }

  lemma LeavesChunk(a: Access, d: nat, g: nat)
    requires IsSegmentSize(g) && IsDataSize(d) && !InOneSegment(a, d, g)
    ensures !InOneChunk(a, d)
  {
    if InOneChunk(a, d) {
      ByteOfChunk(a, d, g, a.addr + d - 1);
      assert false;
    }
  }

  /** On either side of a segment boundary the access uses one chunk. */
  lemma OneChunkPerSide(a: Access, d: nat, g: nat, x: nat)
    requires IsSegmentSize(g) && IsDataSize(d) && !InOneSegment(a, d, g) && a.addr <= x < a.addr + d
    ensures Segment(x, g) == Segment(a.addr, g) ==> Chunk(x) == Chunk(a.addr)
    ensures Segment(x, g) == Segment(a.addr + d - 1, g) ==> Chunk(x) == Chunk(a.addr + d - 1)
  {
    var last := a.addr + d - 1;
    var border := Segment(last, g);
    SegmentBounds(last, g);
    SegmentBounds(a.addr, g);
    SegmentBounds(x, g);
    SegmentsApart(a.addr, last, g);
    SidesOfBorder(a.addr, x, last, border);
  }

  lemma SidesOfBorder(first: nat, x: nat, last: nat, border: nat)
    requires border % 32 == 0 && first < border <= last < first + 16 && first <= x <= last
    ensures x < border ==> Chunk(x) == Chunk(first)
    ensures x >= border ==> Chunk(x) == Chunk(last)
  {
    if x < border {
      assert first % 32 == first - (border - 32);
      SameBlock(first, x);
    } else {
      assert x % 32 == x - border;
      SameBlock(x, last);
    }
  }

  lemma SideChunk(a: Access, d: nat, g: nat, x: nat)
    requires IsSegmentSize(g) && IsDataSize(d) && !InOneSegment(a, d, g) && x in {a.addr, a.addr + d - 1}
    ensures Exact(Within(AccessUses(a, d), Segment(x, g), g)).chunks == {Chunk(x)}
  {
    var us := AccessUses(a, d);
    assert Use(a.thread, x) in Within(us, Segment(x, g), g);
    forall u | u in Within(us, Segment(x, g), g) ensures Chunk(u.byte) == Chunk(x) {
      OneChunkPerSide(a, d, g, u.byte);
    }
  }

  lemma MissingChunk(a: Access, d: nat, g: nat)
    requires IsSegmentSize(g) && IsDataSize(d) && InOneSegment(a, d, g) && !InOneChunk(a, d)
    ensures Exact(Within(AccessUses(a, d), Segment(a.addr, g), g)).chunks != {Chunk(a.addr)}
  {
    var last := a.addr + d - 1;
    CrossingForm(a, d);
    assert Use(a.thread, last) in AccessUses(a, d);
    ChunkIsUsed(AccessUses(a, d), Use(a.thread, last), g);
  }

  lemma InChunkIsExact(a: Access, d: nat, g: nat)
    requires IsSegmentSize(g) && IsDataSize(d) && InOneChunk(a, d)
    ensures Marked(a, d, g) == Meant(a, d, g)
  {
    LoneRecord(a, d, g);
    LoneAccessExact(a, d, g);
  }

  lemma StraddlingChunks(a: Access, d: nat, g: nat)
    requires IsSegmentSize(g) && IsDataSize(d) && !InOneSegment(a, d, g)
    ensures ChunksExact(a, d, g)
  {
    var first, last := Segment(a.addr, g), Segment(a.addr + d - 1, g);
    MarkedForm(a, d, g, first, last);
    MeantKeys(a, d, g, first, last);
    TwoKeys(Marked(a, d, g), Meant(a, d, g), first, last);
    SideChunk(a, d, g, a.addr);
    SideChunk(a, d, g, a.addr + d - 1);
  }

  lemma CrossingChunks(a: Access, d: nat, g: nat)
    requires IsSegmentSize(g) && IsDataSize(d) && InOneSegment(a, d, g) && !InOneChunk(a, d)
    ensures !ChunksExact(a, d, g)
  {
    var b := Segment(a.addr, g);
    MarkedForm(a, d, g, b, b);
    MeantKeys(a, d, g, b, b);
    TwoKeys(Marked(a, d, g), Meant(a, d, g), b, b);
    MissingChunk(a, d, g);
  }

  /** The chunk set is right if and only if the access stays inside its chunk or leaves its
      segment. */
  lemma LoneChunksExact(a: Access, d: nat, g: nat)
    requires IsSegmentSize(g) && IsDataSize(d)
    ensures ChunksExact(a, d, g) <==> InOneChunk(a, d) || !InOneSegment(a, d, g)
  {
    if !InOneSegment(a, d, g) {
      StraddlingChunks(a, d, g);
    } else if InOneChunk(a, d) {
      InChunkIsExact(a, d, g);
    } else {
      CrossingChunks(a, d, g);
    }
  }

  /** Eight bytes at 28: the bytes are right and the chunks are not. */
  lemma ChunkCrossingExample(a: Access)
    requires a.addr == 28
    ensures BytesExact(a, 8, 128) && !ChunksExact(a, 8, 128)
  {
    assert InOneSegment(a, 8, 128) && !InOneChunk(a, 8);
    LoneBytesExact(a, 8, 128);
    LoneChunksExact(a, 8, 128);
  }

  /** Eight bytes at 124: the chunks are right and the bytes are not. */
  lemma SegmentCrossingExample(a: Access)
    requires a.addr == 124
    ensures !BytesExact(a, 8, 128) && ChunksExact(a, 8, 128)
  {
    assert !InOneSegment(a, 8, 128);
    LoneBytesExact(a, 8, 128);
    LoneChunksExact(a, 8, 128);
  }
}
