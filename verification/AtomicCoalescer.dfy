/** Coalescing of atomics: threads of one segment share a transaction only if they use
    different bytes; each thread goes to the first transaction that has room for it. */
module AtomicCoalescer {
  import opened OrderedKeys
  import opened Coalescer

  type Lists = map<int, seq<Transaction>>

  // ----- first fit -------------------------------------------------------------------------

  ghost predicate Conflicts(info: Transaction, idx: nat, d: nat) {
    exists y :: idx <= y < idx + d && y in info.bytes
  }

  /** The first transaction from `i` on that uses none of the bytes. */
  ghost function FirstFree(ts: seq<Transaction>, idx: nat, d: nat, i: nat := 0): (r: nat)
    requires i <= |ts|
    ensures i <= r <= |ts|
    decreases |ts| - i
  {
    if i == |ts| || !Conflicts(ts[i], idx, d) then i else FirstFree(ts, idx, d, i + 1)
  }

  lemma FirstFreeIs(ts: seq<Transaction>, idx: nat, d: nat, i: nat, r: nat)
    requires i <= r <= |ts|
    requires forall k | i <= k < r :: Conflicts(ts[k], idx, d)
    requires r < |ts| ==> !Conflicts(ts[r], idx, d)
    ensures FirstFree(ts, idx, d, i) == r
    decreases r - i
  {
  }

  function AddAccess(info: Transaction, a: Access, d: nat): Transaction {
    Transaction(info.chunks + {Chunk(a.addr)}, info.bytes + ByteRun(a.addr % 128, d), info.active + {a.thread})
  }

  ghost function Place(ts: seq<Transaction>, a: Access, d: nat): seq<Transaction> {
    var i := FirstFree(ts, a.addr % 128, d);
    if i < |ts| then ts[i := AddAccess(ts[i], a, d)] else ts + [AddAccess(NO_TRANSACTION, a, d)]
  }

  ghost function ListAt(tx: Lists, b: int): seq<Transaction> {
    if b in tx then tx[b] else []
  }

  ghost function AtomicMark(tx: Lists, a: Access, d: nat, g: nat): Lists {
    var b := Segment(a.addr, g);
    tx[b := Place(ListAt(tx, b), a, d)]
  }

  ghost function AtomicMarker(d: nat, g: nat): (Lists, Access) -> Lists {
    (tx: Lists, a: Access) => AtomicMark(tx, a, d, g)
  }

  ghost function AtomicAll(l: seq<Access>, d: nat, g: nat): Lists {
    Fold(AtomicMarker(d, g), map[], l)
  }

  // ----- layers: the k-th hit of an address is in layer k --------------------------------------

  /** Number of accesses to exactly this address. */
  ghost function Hits(l: seq<Access>, x: nat): nat {
    if l == [] then 0 else Hits(l[..|l| - 1], x) + if l[|l| - 1].addr == x then 1 else 0
  }

  /** The largest number of hits of one address of the segment. */
  ghost function MaxHits(l: seq<Access>, b: int, g: nat): nat {
    if l == [] then 0 else
    var m, a := MaxHits(l[..|l| - 1], b, g), l[|l| - 1];
    if Segment(a.addr, g) == b && Hits(l, a.addr) > m then Hits(l, a.addr) else m
  }

  /** Uses of the accesses of the segment that are the `i`-th hit of their address. */
  ghost function Layer(l: seq<Access>, b: int, i: nat, d: nat, g: nat): set<Use> {
    if l == [] then {} else
    var rest, a := l[..|l| - 1], l[|l| - 1];
    Layer(rest, b, i, d, g) +
    if Segment(a.addr, g) == b && Hits(rest, a.addr) == i then AccessUses(a, d) else {}
  }

  ghost predicate Aligned(l: seq<Access>, d: nat) {
    IsDataSize(d) && forall k | 0 <= k < |l| :: l[k].addr % d == 0
  }

  /** Aligned accesses of one size that share a byte have the same address. */
  lemma OverlapIsEqual(x: nat, y: nat, z: nat, d: nat)
    requires IsDataSize(d) && x % d == 0 && y % d == 0
    requires x <= z < x + d && y <= z < y + d
    ensures x == y
  {
    match d
    case 1 =>
    case 2 =>
    case 4 =>
    case 8 =>
    case 16 =>
  }

  /** Every use in layer `i` belongs to an address with more than `i` hits. */
  lemma {:induction false} LayerOrigin(l: seq<Access>, b: int, i: nat, d: nat, g: nat, u: Use) returns (y: nat)
    requires IsSegmentSize(g) && Aligned(l, d) && u in Layer(l, b, i, d, g)
    ensures y % d == 0 && y <= u.byte < y + d && Segment(y, g) == b && i < Hits(l, y)
  {
    var rest, a := l[..|l| - 1], l[|l| - 1];
    if u in Layer(rest, b, i, d, g) {
      y := LayerOrigin(rest, b, i, d, g, u);
    } else {
      y := a.addr;
    }
  }

  /** Every address with more than `i` hits has all its bytes in layer `i`. */
  lemma {:induction false} LayerHas(l: seq<Access>, b: int, i: nat, d: nat, g: nat, x: nat) returns (t: nat)
    requires IsSegmentSize(g) && Segment(x, g) == b && i < Hits(l, x)
    ensures AccessUses(Access(t, x), d) <= Layer(l, b, i, d, g)
  {
    var rest, a := l[..|l| - 1], l[|l| - 1];
    if i < Hits(rest, x) {
      t := LayerHas(rest, b, i, d, g, x);
    } else {
      t := a.thread;
    }
  }

  /** Layers never hold the bytes of an address that was hit too rarely. */
  lemma LayerFree(l: seq<Access>, b: int, i: nat, d: nat, g: nat, x: nat, u: Use)
    requires IsSegmentSize(g) && Aligned(l, d) && x % d == 0 && Hits(l, x) <= i && u in Layer(l, b, i, d, g)
    ensures !(x <= u.byte < x + d)
  {
    var y := LayerOrigin(l, b, i, d, g, u);
    if x <= u.byte < x + d {
      OverlapIsEqual(x, y, u.byte, d);
      assert false;
    }
  }

  lemma {:induction false} MaxHitsBounds(l: seq<Access>, b: int, g: nat)
    ensures forall x: nat | Segment(x, g) == b :: Hits(l, x) <= MaxHits(l, b, g)
    ensures MaxHits(l, b, g) > 0 ==> exists x: nat :: Segment(x, g) == b && Hits(l, x) == MaxHits(l, b, g)
  {
    if l != [] {
      var rest, a := l[..|l| - 1], l[|l| - 1];
      MaxHitsBounds(rest, b, g);
      if MaxHits(l, b, g) > 0 {
        if Segment(a.addr, g) == b && Hits(l, a.addr) > MaxHits(rest, b, g) {
          assert Hits(l, a.addr) == MaxHits(l, b, g);
        } else {
          var x: nat :| Segment(x, g) == b && Hits(rest, x) == MaxHits(rest, b, g);
          assert x == a.addr ==> Hits(l, x) == Hits(rest, x) + 1;
          assert Hits(l, x) == MaxHits(l, b, g);
        }
      }
    }
  }

  // ----- first fit builds the layers -----------------------------------------------------------

  ghost predicate LayeredAt(tx: Lists, l: seq<Access>, b: int, d: nat, g: nat) {
    && |ListAt(tx, b)| == MaxHits(l, b, g)
    && (forall i: nat | i < |ListAt(tx, b)| :: ListAt(tx, b)[i] == Exact(Layer(l, b, i, d, g)))
    && (b in tx ==> tx[b] != [])
  }

  lemma LayerSegment(l: seq<Access>, b: int, i: nat, d: nat, g: nat, u: Use)
    requires IsSegmentSize(g) && Aligned(l, d) && u in Layer(l, b, i, d, g)
    ensures Segment(u.byte, g) == b
  {
    var y := LayerOrigin(l, b, i, d, g, u);
    AlignedInOneChunk(Access(u.thread, y), d);
    ByteOfChunk(Access(u.thread, y), d, g, u.byte);
  }

  lemma FullLayerConflicts(l: seq<Access>, x: nat, b: int, k: nat, d: nat, g: nat)
    requires IsSegmentSize(g) && d > 0 && Segment(x, g) == b && k < Hits(l, x)
    ensures Conflicts(Exact(Layer(l, b, k, d, g)), x % 128, d)
  {
    var t := LayerHas(l, b, k, d, g, x);
    var u := Use(t, x);
    assert u in AccessUses(Access(t, x), d);
    assert u.byte % 128 in Exact(Layer(l, b, k, d, g)).bytes;
  }

  lemma SameOffset(x: nat, z: nat, g: nat, d: nat)
    requires IsSegmentSize(g) && Segment(x, g) == Segment(z, g) && x % 128 <= z % 128 < x % 128 + d
    ensures x <= z < x + d
  {
    if x <= z {
      OffsetsOrdered(x, z, g);
    } else {
      OffsetsOrdered(z, x, g);
    }
  }

  lemma NextLayerFits(l: seq<Access>, x: nat, b: int, k: nat, d: nat, g: nat)
    requires IsSegmentSize(g) && Aligned(l, d) && x % d == 0 && Segment(x, g) == b && Hits(l, x) <= k
    ensures !Conflicts(Exact(Layer(l, b, k, d, g)), x % 128, d)
  {
    forall u | u in Layer(l, b, k, d, g) ensures !(x % 128 <= u.byte % 128 < x % 128 + d) {
      LayerSegment(l, b, k, d, g, u);
      LayerFree(l, b, k, d, g, x, u);
      if x % 128 <= u.byte % 128 < x % 128 + d {
        SameOffset(x, u.byte, g, d);
        assert false;
      }
    }
  }

  /** First fit sends the k-th hit of an address to transaction k. */
  lemma FirstFitIsHits(ts: seq<Transaction>, l: seq<Access>, a: Access, d: nat, g: nat)
    requires IsSegmentSize(g) && Aligned(l, d) && a.addr % d == 0
    requires |ts| == MaxHits(l, Segment(a.addr, g), g)
    requires forall i: nat | i < |ts| :: ts[i] == Exact(Layer(l, Segment(a.addr, g), i, d, g))
    ensures FirstFree(ts, a.addr % 128, d) == Hits(l, a.addr) <= |ts|
  {
    var b, x := Segment(a.addr, g), a.addr;
    var h := Hits(l, x);
    MaxHitsBounds(l, b, g);
    forall k: nat | k < h ensures Conflicts(ts[k], x % 128, d) {
      FullLayerConflicts(l, x, b, k, d, g);
    }
    if h < |ts| {
      NextLayerFits(l, x, b, h, d, g);
    }
    FirstFreeIs(ts, x % 128, d, 0, h);
  }

  lemma LayerAppend(l: seq<Access>, a: Access, b: int, i: nat, d: nat, g: nat)
    ensures Layer(l + [a], b, i, d, g) ==
      Layer(l, b, i, d, g) + if Segment(a.addr, g) == b && Hits(l, a.addr) == i then AccessUses(a, d) else {}
    ensures Hits(l + [a], a.addr) == Hits(l, a.addr) + 1
    ensures MaxHits(l + [a], b, g) ==
      if Segment(a.addr, g) == b && Hits(l, a.addr) + 1 > MaxHits(l, b, g)
      then Hits(l, a.addr) + 1
      else MaxHits(l, b, g)
  {
    assert (l + [a])[..|l|] == l;
  }

  lemma EmptyAbove(l: seq<Access>, b: int, i: nat, d: nat, g: nat)
    requires IsSegmentSize(g) && Aligned(l, d) && i >= MaxHits(l, b, g)
    ensures Layer(l, b, i, d, g) == {}
  {
    MaxHitsBounds(l, b, g);
    forall u | u in Layer(l, b, i, d, g) ensures false {
      var y := LayerOrigin(l, b, i, d, g, u);
    }
  }

  lemma AddIsExact(us: set<Use>, a: Access, d: nat)
    requires IsDataSize(d) && a.addr % d == 0
    ensures Exact(us + AccessUses(a, d)) == AddAccess(Exact(us), a, d)
  {
    AlignedInOneChunk(a, d);
    ExactUnion(us, AccessUses(a, d));
    ExactAccess(a, d);
  }

  lemma PlaceLayered(tx: Lists, l: seq<Access>, a: Access, b: int, d: nat, g: nat)
    requires IsSegmentSize(g) && Aligned(l, d) && a.addr % d == 0 && LayeredAt(tx, l, b, d, g)
    ensures LayeredAt(AtomicMark(tx, a, d, g), l + [a], b, d, g)
  {
    LayerAppend(l, a, b, 0, d, g);
    if Segment(a.addr, g) == b {
      PlaceOwn(ListAt(tx, b), l, a, d, g);
    } else {
      forall i: nat | i < |ListAt(tx, b)| ensures Layer(l + [a], b, i, d, g) == Layer(l, b, i, d, g) {
        LayerAppend(l, a, b, i, d, g);
      }
    }
  }

  /** The transaction that receives the access is the next version of its layer. */
  lemma GrownLayer(l: seq<Access>, a: Access, d: nat, g: nat)
    requires IsSegmentSize(g) && Aligned(l, d) && a.addr % d == 0
    ensures var b, h := Segment(a.addr, g), Hits(l, a.addr);
      Exact(Layer(l + [a], b, h, d, g)) == AddAccess(Exact(Layer(l, b, h, d, g)), a, d)
  {
    LayerAppend(l, a, Segment(a.addr, g), Hits(l, a.addr), d, g);
    AddIsExact(Layer(l, Segment(a.addr, g), Hits(l, a.addr), d, g), a, d);
  }

  lemma PlaceOwn(ts: seq<Transaction>, l: seq<Access>, a: Access, d: nat, g: nat)
    requires IsSegmentSize(g) && Aligned(l, d) && a.addr % d == 0
    requires |ts| == MaxHits(l, Segment(a.addr, g), g)
    requires forall i: nat | i < |ts| :: ts[i] == Exact(Layer(l, Segment(a.addr, g), i, d, g))
    ensures |Place(ts, a, d)| == MaxHits(l + [a], Segment(a.addr, g), g) > 0
    ensures forall i: nat | i < |Place(ts, a, d)| ::
      Place(ts, a, d)[i] == Exact(Layer(l + [a], Segment(a.addr, g), i, d, g))
  {
    var b, h := Segment(a.addr, g), Hits(l, a.addr);
    FirstFitIsHits(ts, l, a, d, g);
    LayerAppend(l, a, b, h, d, g);
    forall i: nat | i < |Place(ts, a, d)| ensures Place(ts, a, d)[i] == Exact(Layer(l + [a], b, i, d, g)) {
      PlaceOwnAt(ts, l, a, d, g, i);
    }
  }

  lemma PlaceOwnAt(ts: seq<Transaction>, l: seq<Access>, a: Access, d: nat, g: nat, i: nat)
    requires IsSegmentSize(g) && Aligned(l, d) && a.addr % d == 0
    requires |ts| == MaxHits(l, Segment(a.addr, g), g) && FirstFree(ts, a.addr % 128, d) == Hits(l, a.addr)
    requires i < |Place(ts, a, d)| && (i < |ts| ==> ts[i] == Exact(Layer(l, Segment(a.addr, g), i, d, g)))
    ensures Place(ts, a, d)[i] == Exact(Layer(l + [a], Segment(a.addr, g), i, d, g))
  {
    var b, h := Segment(a.addr, g), Hits(l, a.addr);
    if i == h {
      GrownLayer(l, a, d, g);
      if h == |ts| {
        EmptyAbove(l, b, h, d, g);
        assert Exact({}) == NO_TRANSACTION;
      }
    } else {
      LayerAppend(l, a, b, i, d, g);
    }
  }

  /** For aligned accesses the transactions of every segment are its layers. */
  lemma {:induction false} AtomicLayered(l: seq<Access>, b: int, d: nat, g: nat)
    requires IsSegmentSize(g) && Aligned(l, d)
    ensures LayeredAt(AtomicAll(l, d, g), l, b, d, g)
  {
    if l != [] {
      var rest, a := l[..|l| - 1], l[|l| - 1];
      AtomicLayered(rest, b, d, g);
      PlaceLayered(AtomicAll(rest, d, g), rest, a, b, d, g);
      assert rest + [a] == l;
    }
  }

  // ----- what that means -----------------------------------------------------------------------

  /** How many earlier accesses hit the same address. */
  ghost function Rank(l: seq<Access>, k: nat): nat
    requires k < |l|
  {
    Hits(l[..k], l[k].addr)
  }

  lemma {:induction false} LayerMember(l: seq<Access>, b: int, i: nat, d: nat, g: nat, u: Use) returns (k: nat)
    requires IsSegmentSize(g) && u in Layer(l, b, i, d, g)
    ensures k < |l| && u in AccessUses(l[k], d) && Segment(l[k].addr, g) == b && Rank(l, k) == i
  {
    var rest, n := l[..|l| - 1], |l| - 1;
    if u in Layer(rest, b, i, d, g) {
      k := LayerMember(rest, b, i, d, g, u);
      assert rest[..k] == l[..k];
    } else {
      k := n;
    }
  }

  lemma {:induction false} AccessInLayer(l: seq<Access>, k: nat, d: nat, g: nat)
    requires IsSegmentSize(g) && k < |l|
    ensures AccessUses(l[k], d) <= Layer(l, Segment(l[k].addr, g), Rank(l, k), d, g)
  {
    if k < |l| - 1 {
      var rest := l[..|l| - 1];
      AccessInLayer(rest, k, d, g);
      assert rest[..k] == l[..k];
    }
  }

  ghost predicate DistinctThreads(l: seq<Access>) {
    forall j, k | 0 <= j < k < |l| :: l[j].thread != l[k].thread
  }

  /** Each thread is in exactly one transaction: number `Rank` of the segment it accesses. */
  lemma EachThreadOnce(l: seq<Access>, k: nat, b: int, i: nat, d: nat, g: nat)
    requires IsSegmentSize(g) && Aligned(l, d) && DistinctThreads(l) && k < |l|
    ensures var ts := ListAt(AtomicAll(l, d, g), b);
      (i < |ts| && l[k].thread in ts[i].active) <==> (b == Segment(l[k].addr, g) && i == Rank(l, k))
  {
    AtomicLayered(l, b, d, g);
    var ts, t := ListAt(AtomicAll(l, d, g), b), l[k].thread;
    if b == Segment(l[k].addr, g) && i == Rank(l, k) {
      AccessInLayer(l, k, d, g);
      var u := Use(t, l[k].addr);
      assert u in AccessUses(l[k], d) && u in Layer(l, b, i, d, g);
      var y := LayerOrigin(l, b, i, d, g, u);
      MaxHitsBounds(l, b, g);
      assert u.thread in Exact(Layer(l, b, i, d, g)).active;
    } else if i < |ts| && t in ts[i].active {
      assert ts[i] == Exact(Layer(l, b, i, d, g));
      var u :| u in Layer(l, b, i, d, g) && u.thread == t;
      var m := LayerMember(l, b, i, d, g, u);
    }
  }

  ghost predicate ShareByte(a: Access, c: Access, d: nat) {
    a.addr < c.addr + d && c.addr < a.addr + d
  }

  /** Any other way to split the segment's accesses into `n` conflict-free groups. */
  ghost predicate IsSplit(l: seq<Access>, group: seq<nat>, n: nat, b: int, d: nat, g: nat) {
    && |group| == |l|
    && (forall k | 0 <= k < |l| && Segment(l[k].addr, g) == b :: group[k] < n)
    && (forall j, k | 0 <= j < k < |l| && Segment(l[j].addr, g) == b && Segment(l[k].addr, g) == b
          && ShareByte(l[j], l[k], d) :: group[j] != group[k])
  }

  ghost function GroupsOf(l: seq<Access>, group: seq<nat>, x: nat): (s: set<nat>)
    requires |group| == |l|
    ensures forall c | c in s :: exists k :: 0 <= k < |l| && l[k].addr == x && group[k] == c
  {
    if l == [] then {} else
    var n := |l| - 1;
    GroupsOf(l[..n], group[..n], x) + if l[n].addr == x then {group[n]} else {}
  }

  /** Accesses to one address all need different groups. */
  ghost predicate Separates(l: seq<Access>, group: seq<nat>, x: nat) {
    && |group| == |l|
    && (forall j, k | 0 <= j < k < |l| && l[j].addr == x && l[k].addr == x :: group[j] != group[k])
  }

  lemma {:induction false} HitsNeedGroups(l: seq<Access>, group: seq<nat>, x: nat)
    requires Separates(l, group, x)
    ensures |GroupsOf(l, group, x)| == Hits(l, x)
  {
    if l != [] {
      var m := |l| - 1;
      var rest, groups := l[..m], group[..m];
      HitsNeedGroups(rest, groups, x);
      if l[m].addr == x {
        forall c | c in GroupsOf(rest, groups, x) ensures c != group[m] {
          var k :| 0 <= k < m && rest[k].addr == x && groups[k] == c;
          assert l[k].addr == x && group[k] == c;
        }
      }
    }
  }

  lemma {:induction false} BoundedSetCard(s: set<nat>, n: nat)
    requires forall c | c in s :: c < n
    ensures |s| <= n
  {
    if n == 0 {
      assert s == {};
    } else {
      BoundedSetCard(s - {n - 1}, n - 1);
      assert n - 1 in s ==> |s - {n - 1}| == |s| - 1;
      assert n - 1 !in s ==> s - {n - 1} == s;
    }
  }

  /** First fit uses as many transactions for a segment as its most-hit address needs, and
      no conflict-free split of the segment's accesses has fewer groups. */
  lemma FirstFitOptimal(l: seq<Access>, group: seq<nat>, n: nat, b: int, d: nat, g: nat)
    requires IsSegmentSize(g) && Aligned(l, d) && IsSplit(l, group, n, b, d, g)
    ensures |ListAt(AtomicAll(l, d, g), b)| == MaxHits(l, b, g) <= n
  {
    AtomicLayered(l, b, d, g);
    MaxHitsBounds(l, b, g);
    if MaxHits(l, b, g) > 0 {
      var x: nat :| Segment(x, g) == b && Hits(l, x) == MaxHits(l, b, g);
      assert Separates(l, group, x);
      HitsNeedGroups(l, group, x);
      BoundedSetCard(GroupsOf(l, group, x), n);
    }
  }

  /** The split made by the hardware itself: each access goes to the group of its rank. */
  lemma RanksAreASplit(l: seq<Access>, b: int, d: nat, g: nat)
    requires IsSegmentSize(g) && Aligned(l, d)
    ensures IsSplit(l, seq(|l|, k requires 0 <= k < |l| => Rank(l, k)), MaxHits(l, b, g), b, d, g)
  {
    var group := seq(|l|, k requires 0 <= k < |l| => Rank(l, k));
    MaxHitsBounds(l, b, g);
    forall k | 0 <= k < |l| && Segment(l[k].addr, g) == b ensures group[k] < MaxHits(l, b, g) {
      HitsGrow(l, k, |l|, l[k].addr);
      assert l[..|l|] == l;
    }
    forall j, k | 0 <= j < k < |l| && Segment(l[j].addr, g) == b && Segment(l[k].addr, g) == b
        && ShareByte(l[j], l[k], d)
      ensures group[j] != group[k]
    {
      var z := if l[j].addr < l[k].addr then l[k].addr else l[j].addr;
      OverlapIsEqual(l[j].addr, l[k].addr, z, d);
      HitsGrow(l, j, k, l[j].addr);
    }
  }

  lemma {:induction false} HitsGrow(l: seq<Access>, j: nat, k: nat, x: nat)
    requires j < k <= |l|
    ensures Hits(l[..j], x) + (if l[j].addr == x then 1 else 0) <= Hits(l[..k], x)
    decreases k - j
  {
    assert l[..k][..k - 1] == l[..k - 1];
    if j < k - 1 {
      HitsGrow(l, j, k - 1, x);
    }
  }

  /** No two threads of a transaction share a byte. */
  lemma ConflictFree(l: seq<Access>, j: nat, k: nat, b: int, i: nat, d: nat, g: nat)
    requires IsSegmentSize(g) && Aligned(l, d) && DistinctThreads(l) && j < k < |l|
    requires var ts := ListAt(AtomicAll(l, d, g), b);
      i < |ts| && l[j].thread in ts[i].active && l[k].thread in ts[i].active
    ensures !ShareByte(l[j], l[k], d)
  {
    EachThreadOnce(l, j, b, i, d, g);
    EachThreadOnce(l, k, b, i, d, g);
    RanksAreASplit(l, b, d, g);
    var group := seq(|l|, m requires 0 <= m < |l| => Rank(l, m));
    assert group[j] == group[k];
  }
}
