/** Sizes of managed allocations, their large pages, and prefetch ranges. */
module ManagedSizing {
  import opened OrderedKeys
  import opened PageArithmetic
  import opened UnifiedMemory

  const MIN_PREFETCH_SIZE: nat := 64 * 1024
  const MAX_PREFETCH_SIZE: nat := 2 * 1024 * 1024

  // ----- rounding ---------------------------------------------------------------------------

  /** A large page: MIN_PREFETCH_SIZE times a power of two, up to MAX_PREFETCH_SIZE. */
  predicate IsTile(n: nat) {
    n == 0x1_0000 || n == 0x2_0000 || n == 0x4_0000 || n == 0x8_0000 || n == 0x10_0000 || n == 0x20_0000
  }

  /** Whole large pages of the maximal size, plus at most one smaller one. */
  predicate Tileable(size: nat) {
    var rest := size % MAX_PREFETCH_SIZE;
    rest == 0 || IsTile(rest)
  }

  /** The smallest tile that holds `rest` bytes. */
  function TileFor(rest: nat): (t: nat)
    requires 0 < rest < MAX_PREFETCH_SIZE
    ensures IsTile(t) && rest <= t && forall u: nat | IsTile(u) && rest <= u :: t <= u
  {
    if rest <= 0x1_0000 then 0x1_0000
    else if rest <= 0x2_0000 then 0x2_0000
    else if rest <= 0x4_0000 then 0x4_0000
    else if rest <= 0x8_0000 then 0x8_0000
    else if rest <= 0x10_0000 then 0x10_0000
    else 0x20_0000
  }

  /** Size of the allocation made for a request. */
  function Rounded(size: nat): nat {
    var rest := size % MAX_PREFETCH_SIZE;
    if rest == 0 then size else size - rest + TileFor(rest)
  }

  /** Whole large pages, and the tile for the rest. */
  lemma RoundedForm(size: nat) returns (large: nat, rest: nat, t: nat)
    ensures size == large * MAX_PREFETCH_SIZE + rest && rest == size % MAX_PREFETCH_SIZE
    ensures t == (if rest == 0 then 0 else TileFor(rest)) && Rounded(size) == large * MAX_PREFETCH_SIZE + t
    ensures Rounded(size) % MAX_PREFETCH_SIZE == if t == MAX_PREFETCH_SIZE then 0 else t
  {
    large, rest := size / MAX_PREFETCH_SIZE, size % MAX_PREFETCH_SIZE;
    t := if rest == 0 then 0 else TileFor(rest);
  }

  lemma NoSmallerTileable(size: nat, s: nat)
    requires size <= s && Tileable(s)
    ensures Rounded(size) <= s
  {
    var large, rest, t := RoundedForm(size);
    var q, u := s / MAX_PREFETCH_SIZE, s % MAX_PREFETCH_SIZE;
    assert s == q * MAX_PREFETCH_SIZE + u && q >= large;
  }

  /** The rounded size is the smallest tileable size that holds the request; it wastes less
      than the smallest tile or less than the remainder; rounding again changes nothing. */
  lemma RoundedIsLeast(size: nat)
    ensures size <= Rounded(size) && Tileable(Rounded(size))
    ensures forall s: nat | size <= s && Tileable(s) :: Rounded(size) <= s
    ensures Rounded(size) - size < 64 * 1024 || Rounded(size) - size < size % (2 * 1024 * 1024)
    ensures Rounded(Rounded(size)) == Rounded(size)
  {
    var large, rest, t := RoundedForm(size);
    forall s: nat | size <= s && Tileable(s) ensures Rounded(size) <= s {
      NoSmallerTileable(size, s);
    }
  }

  /** Tiles are 64 KiB times a power of two, up to 2 MiB; the rounded size is a number of 2 MiB
      pages and at most one smaller tile. */
  lemma RoundedIsTiled(size: nat)
    ensures forall n: nat :: IsTile(n) <==> n % 0x1_0000 == 0 && n / 0x1_0000 in {1, 2, 4, 8, 16, 32}
    ensures Rounded(size) % 0x20_0000 == 0 || IsTile(Rounded(size) % 0x20_0000)
    ensures Rounded(size) / 0x20_0000 - size / 0x20_0000 <= 1 && Rounded(size) % 0x1_0000 == 0
  {
    var large, rest, t := RoundedForm(size);
  }

  /** The rounding loop of the allocator: double the smallest tile until it fits. */
  method RoundSize(size: nat) returns (r: nat)
    requires size > 0
    ensures r == Rounded(size)
  {
    var large := size / MAX_PREFETCH_SIZE;
    var remainder := size - large * MAX_PREFETCH_SIZE;
    var corrected := 0;
    if remainder != 0 {
      corrected := MIN_PREFETCH_SIZE;
      while corrected < remainder
        invariant IsTile(corrected) && corrected <= TileFor(remainder)
        decreases 2 * remainder - corrected
      {
        corrected := corrected * 2;
      }
    }
    r := large * MAX_PREFETCH_SIZE + corrected;
  }

  // ----- tiling -----------------------------------------------------------------------------

  datatype Tile = Tile(addr: nat, size: nat)

  /** The tiles follow each other from `addr` on and cover exactly `size` bytes. */
  ghost predicate Tiles(ts: seq<Tile>, addr: nat, size: nat) {
    if ts == [] then size == 0 else
    var last := ts[|ts| - 1];
    && IsTile(last.size) && last.size <= size && last.addr == addr + size - last.size
    && Tiles(ts[..|ts| - 1], addr, size - last.size)
  }

  lemma TilesAppend(ts: seq<Tile>, addr: nat, size: nat, t: Tile)
    requires Tiles(ts, addr, size) && IsTile(t.size) && t.addr == addr + size
    ensures Tiles(ts + [t], addr, size + t.size)
  {
    assert (ts + [t])[..|ts|] == ts;
  }

  /** What is left after whole large pages is nothing, a tile, or at least a large page. */
  lemma LastTile(size: nat, cur: nat)
    requires Tileable(size) && cur % MAX_PREFETCH_SIZE == 0 && cur < size
    ensures size - cur < MAX_PREFETCH_SIZE ==> IsTile(size - cur)
    ensures (cur + MAX_PREFETCH_SIZE) % MAX_PREFETCH_SIZE == 0
  {
    var k := cur / MAX_PREFETCH_SIZE;
    AlignedIsMultiple(cur, MAX_PREFETCH_SIZE);
    QuotientIs(cur + MAX_PREFETCH_SIZE, k + 1, 0, MAX_PREFETCH_SIZE);
    if size - cur < MAX_PREFETCH_SIZE {
      QuotientIs(size, k, size - cur, MAX_PREFETCH_SIZE);
    }
  }

  /** The large-page loop of the allocator. */
  method InitializeLargePages(addr: nat, size: nat) returns (ts: seq<Tile>)
    requires Tileable(size)
    ensures Tiles(ts, addr, size)
    ensures forall i | 0 <= i < |ts| - 1 :: ts[i].size == 0x20_0000
  {
    ts := [];
    var cur, ptr := 0, addr;
    while cur < size
      invariant cur <= size && ptr == addr + cur && cur % MAX_PREFETCH_SIZE == 0
      invariant Tiles(ts, addr, cur)
      invariant forall i | 0 <= i < |ts| :: ts[i].size == MAX_PREFETCH_SIZE
    {
      LastTile(size, cur);
      if size - cur < MAX_PREFETCH_SIZE {
        TilesAppend(ts, addr, cur, Tile(ptr, size - cur));
        ts := ts + [Tile(ptr, size - cur)];
        return;
      }
      TilesAppend(ts, addr, cur, Tile(ptr, MAX_PREFETCH_SIZE));
      ts := ts + [Tile(ptr, MAX_PREFETCH_SIZE)];
      cur := cur + MAX_PREFETCH_SIZE;
      ptr := ptr + MAX_PREFETCH_SIZE;
    }
  }

  datatype Prefetch = Prefetch(start: nat, allocation: nat, length: nat)

  /** The range lies inside the allocation at `b`. */
  ghost predicate InsideAlloc(allocs: map<int, Alloc>, b: int, ptr: nat, count: nat) {
    b in allocs && b <= ptr && ptr + count <= b + allocs[b].size
  }

  ghost predicate HostDisjoint(allocs: map<int, Alloc>) {
    forall b: int, c: int | b in allocs && c in allocs && b != c :: Disjoint(b, allocs[b].size, c, allocs[c].size)
  }

  /** Page-aligned, and covers the `count` bytes at `x`. */
  ghost predicate CoversPages(s: nat, e: nat, x: nat, count: nat, pageSize: nat)
    requires pageSize > 0
  {
    s % pageSize == 0 && e % pageSize == 0 && s <= x && x + count <= e
  }

  /** The smallest page-aligned range covering the bytes. Its assertion that the range is not
      empty can fail only for an empty request at a page boundary. */
  method PageRange(x: nat, count: nat, pageSize: nat) returns (start: nat, end: nat)
    requires pageSize > 0 && x + count > 0
    ensures start % pageSize == 0 && end % pageSize == 0 && start <= end
    ensures start < end <==> count > 0 || x % pageSize != 0
    ensures start <= x < start + pageSize && x + count <= end < x + count + pageSize
    ensures count > 0 ==> CoversPages(start, end, x, count, pageSize)
    ensures count > 0 ==> forall s: nat, e: nat | CoversPages(s, e, x, count, pageSize) :: s <= start && end <= e
  {
    start := x / pageSize * pageSize;
    end := (x + count - 1) / pageSize * pageSize + pageSize;
    PageBoundaries(x, count, pageSize, start, end);
    if count > 0 {
      forall s: nat, e: nat | CoversPages(s, e, x, count, pageSize) ensures s <= start && end <= e {
        PagesNeeded(x, count, pageSize, s, e);
      }
    } else {
      EmptyRange(x, pageSize);
    }
  }

  lemma PageBoundaries(x: nat, count: nat, pageSize: nat, start: nat, end: nat)
    requires pageSize > 0 && x + count > 0
    requires start == x / pageSize * pageSize && end == (x + count - 1) / pageSize * pageSize + pageSize
    ensures start % pageSize == 0 && end % pageSize == 0
    ensures start <= x < start + pageSize && x + count <= end < x + count + pageSize
    ensures count > 0 ==> start < end
  {
    AlignDown(x, pageSize);
    AlignDown(x + count - 1, pageSize);
  }

  lemma PagesNeeded(x: nat, count: nat, pageSize: nat, s: nat, e: nat)
    requires pageSize > 0 && count > 0 && CoversPages(s, e, x, count, pageSize)
    ensures s <= x / pageSize * pageSize && (x + count - 1) / pageSize * pageSize + pageSize <= e
  {
    AlignDownIsGreatest(x, s, pageSize);
    AlignUpIsLeast(x + count - 1, e, pageSize);
  }

  lemma EmptyRange(x: nat, pageSize: nat)
    requires pageSize > 0 && x > 0
    ensures var start, end := x / pageSize * pageSize, (x - 1) / pageSize * pageSize + pageSize;
      start <= end && (start < end <==> x % pageSize != 0)
  {
    AlignDown(x, pageSize);
    AlignDown(x - 1, pageSize);
    var start, end := x / pageSize * pageSize, (x - 1) / pageSize * pageSize + pageSize;
    assert x == start + x % pageSize;
    if x % pageSize == 0 {
      AlignUpIsLeast(x - 1, x, pageSize);
    } else {
      AlignDownIsGreatest(x - 1, start, pageSize);
    }
  }

  lemma OnlyAlloc(allocs: map<int, Alloc>, b: int, ptr: nat, count: nat)
    requires HostDisjoint(allocs) && count > 0 && InsideAlloc(allocs, b, ptr, count)
    ensures forall c: int | InsideAlloc(allocs, c, ptr, count) :: c == b
  {
    forall c: int | c in allocs && c != b ensures !InsideAlloc(allocs, c, ptr, count) {
      assert Disjoint(b, allocs[b].size, c, allocs[c].size);
    }
  }

  /** The allocation the search stops at. */
  ghost predicate IsFirstInside(allocs: map<int, Alloc>, b: int, ptr: nat, count: nat) {
    InsideAlloc(allocs, b, ptr, count) && forall c: int | InsideAlloc(allocs, c, ptr, count) :: b <= c
  }

  /** The device address of `ptr` is not null, and its page range is not empty. */
  ghost predicate Prefetchable(allocs: map<int, Alloc>, b: int, ptr: nat, count: nat, pageSize: nat)
    requires pageSize > 0 && InsideAlloc(allocs, b, ptr, count)
  {
    var gpu := allocs[b].gpu + (ptr - b);
    gpu > 0 && (count > 0 || gpu % pageSize != 0)
  }

  /** The registered range for a nonempty request: the smallest page-aligned one. */
  ghost predicate IsTarget(r: Prefetch, allocs: map<int, Alloc>, b: int, ptr: nat, count: nat, pageSize: nat)
    requires pageSize > 0 && InsideAlloc(allocs, b, ptr, count)
  {
    var a, gpu := allocs[b], allocs[b].gpu + (ptr - b);
    && CoversPages(r.start, r.start + r.length, gpu, count, pageSize)
    && (forall s: nat, e: nat | CoversPages(s, e, gpu, count, pageSize) :: s <= r.start && r.start + r.length <= e)
    && (a.gpu % pageSize == 0 && (a.gpu + a.size) % pageSize == 0 ==>
          a.gpu <= r.start && r.start + r.length <= a.gpu + a.size)
  }

  /** Whole pages around the `count` bytes at `x`, with less than a page to spare on either side. */
  ghost predicate IsTight(r: Prefetch, x: nat, count: nat, pageSize: nat)
    requires pageSize > 0
  {
    && r.start % pageSize == 0 && (r.start + r.length) % pageSize == 0
    && r.start <= x < r.start + pageSize
    && x + count <= r.start + r.length < x + count + pageSize
  }

  lemma InsideTarget(r: Prefetch, allocs: map<int, Alloc>, b: int, ptr: nat, count: nat, pageSize: nat)
    requires pageSize > 0 && InsideAlloc(allocs, b, ptr, count)
    requires var gpu := allocs[b].gpu + (ptr - b);
      && CoversPages(r.start, r.start + r.length, gpu, count, pageSize)
      && (forall s: nat, e: nat | CoversPages(s, e, gpu, count, pageSize) :: s <= r.start && r.start + r.length <= e)
    ensures IsTarget(r, allocs, b, ptr, count, pageSize)
  {
    var a, gpu := allocs[b], allocs[b].gpu + (ptr - b);
    assert a.gpu % pageSize == 0 && (a.gpu + a.size) % pageSize == 0 ==>
      CoversPages(a.gpu, a.gpu + a.size, gpu, count, pageSize);
  }

  /** The search of `cudaMemPrefetchAsync`: the first allocation containing the range. */
  method FindAllocation(allocs: map<int, Alloc>, ptr: nat, count: nat) returns (found: bool, b: int)
    ensures found ==> IsFirstInside(allocs, b, ptr, count)
    ensures !found ==> forall c: int :: !InsideAlloc(allocs, c, ptr, count)
  {
    var keys := Enumerate(allocs.Keys);
    AscendingIn(keys, allocs.Keys);
    b := 0;
    for i := 0 to |keys|
      invariant forall k | 0 <= k < i :: !InsideAlloc(allocs, keys[k], ptr, count)
    {
      b := keys[i];
      if ptr >= b && ptr + count <= b + allocs[b].size {
        FirstOfKeys(allocs, keys, i, ptr, count);
        return true, b;
      }
    }
    found := false;
    forall c: int ensures !InsideAlloc(allocs, c, ptr, count) {
      if c in allocs.Keys {
        assert c in keys;
      }
    }
  }

  lemma FirstOfKeys(allocs: map<int, Alloc>, keys: seq<int>, i: nat, ptr: nat, count: nat)
    requires IsAscending(keys, allocs.Keys) && i < |keys| && InsideAlloc(allocs, keys[i], ptr, count)
    requires forall k | 0 <= k < i :: !InsideAlloc(allocs, keys[k], ptr, count)
    ensures IsFirstInside(allocs, keys[i], ptr, count)
  {
    forall c: int | InsideAlloc(allocs, c, ptr, count) ensures keys[i] <= c {
      assert c in allocs.Keys;
      var j :| 0 <= j < |keys| && keys[j] == c;
    }
  }

  /** The part of `cudaMemPrefetchAsync` that turns a host range into a device page range;
      `ok` is false where an assertion of the source fails. */
  method PrefetchTarget(allocs: map<int, Alloc>, ptr: nat, count: nat, pageSize: nat)
    returns (ok: bool, r: Prefetch, ghost b: int)
    requires pageSize > 0
    ensures ok ==> IsFirstInside(allocs, b, ptr, count) && r.allocation == allocs[b].gpu && r.length > 0
    ensures ok <==>
      exists c: int :: IsFirstInside(allocs, c, ptr, count) && Prefetchable(allocs, c, ptr, count, pageSize)
    ensures ok && count > 0 ==> IsTarget(r, allocs, b, ptr, count, pageSize)
    ensures ok ==> IsTight(r, allocs[b].gpu + (ptr - b), count, pageSize)
  {
    var found, base := FindAllocation(allocs, ptr, count);
    b, r := base, Prefetch(0, 0, 0);
    if !found {
      return false, r, b;
    }
    var gpu := allocs[base].gpu + (ptr - base);
    if gpu == 0 {
      return false, r, b;
    }
    var start, end := PageRange(gpu, count, pageSize);
    if start == end {
      return false, r, b;
    }
    r := Prefetch(start, allocs[base].gpu, end - start);
    if count > 0 {
      InsideTarget(r, allocs, base, ptr, count, pageSize);
    }
    assert IsFirstInside(allocs, base, ptr, count) && Prefetchable(allocs, base, ptr, count, pageSize);
    ok := true;
  }
}
