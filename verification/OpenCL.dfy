/** The OpenCL front end: where kernel arguments go in parameter memory, and how an
ND-range is cut into work groups. */
module OpenCL {
  import opened OrderedKeys
  import opened Options

  // ----- kernel arguments --------------------------------------------------------------------

  datatype Arg = Arg(value: int, size: nat)
  datatype Param = Param(value: int, size: nat, offset: nat)

  /** `-1` in the parameter's type: align to the size. */
  function Alignment(arg: Arg, spec: int): int {
    if spec == -1 then arg.size else spec
  }

  /** `x` is the first multiple of `align` at or after `from`. */
  ghost predicate IsNextAligned(x: nat, from: nat, align: int) {
    align > 0 && from <= x && x % align == 0 && forall y: nat | from <= y && y % align == 0 :: x <= y
  }

  lemma NextAligned(offset: nat, align: int)
    requires align > 0
    ensures IsNextAligned(if offset % align != 0 then offset + (align - offset % align) else offset, offset, align)
  {
    if offset % align != 0 {
      var q := offset / align;
      var x := offset + (align - offset % align);
      assert x == (q + 1) * align;
      MultipleMod(q + 1, align);
      forall y: nat | offset <= y && y % align == 0 ensures x <= y {
        Quotients(offset, y, align);
      }
    }
  }

  lemma MultipleMod(q: int, d: int)
    requires d > 0
    ensures q * d % d == 0
  {
    var k := q - q * d / d;
    assert q * d % d == k * d;
    assert k < 0 ==> k * d < 0;
    assert k > 0 ==> k * d >= d;
  }

  lemma Quotients(x: nat, y: nat, d: int)
    requires d > 0 && x <= y && y % d == 0 && x % d != 0
    ensures (x / d + 1) * d <= y
  {
    var i, j := x / d, y / d;
    assert j * d == y && i * d < x;
    assert j <= i ==> j * d <= i * d;
    assert (i + 1) * d <= j * d;
  }

  /** The first index not set. */
  ghost predicate IsFirstUnset(args: map<int, Arg>, m: nat) {
    m !in args && forall i: int | 0 <= i < m :: i in args
  }

  /** The loop gets to index `i`. */
  ghost predicate Reached(args: map<int, Arg>, i: int) {
    0 <= i && i in args && forall j: int | 0 <= j < i :: j in args
  }

  /** `offsets` places arguments 0, 1, … one after the other, each as low as possible. */
  ghost predicate IsLayout(args: map<int, Arg>, specs: seq<int>, offsets: seq<nat>) {
    forall i: int | 0 <= i < |offsets| :: Placed(args, specs, offsets, i)
  }

  ghost predicate Placed(args: map<int, Arg>, specs: seq<int>, offsets: seq<nat>, i: int)
    requires 0 <= i < |offsets|
  {
    i < |specs| && i in args && IsNextAligned(offsets[i], EndOf(args, offsets, i - 1), Alignment(args[i], specs[i]))
  }

  /** The end of argument `i`; 0 before the first. */
  ghost function EndOf(args: map<int, Arg>, offsets: seq<nat>, i: int): nat
    requires i < |offsets|
  {
    if 0 <= i && i in args then offsets[i] + args[i].size else 0
  }

  /** Arguments never overlap and their offsets never decrease. */
  lemma {:induction false} LayoutOrdered(args: map<int, Arg>, specs: seq<int>, offsets: seq<nat>, i: nat, j: nat)
    requires IsLayout(args, specs, offsets) && i < j < |offsets|
    ensures i in args && offsets[i] + args[i].size <= offsets[j]
    decreases j
  {
    assert Placed(args, specs, offsets, i) && Placed(args, specs, offsets, j);
    if i < j - 1 {
      assert Placed(args, specs, offsets, j - 1);
      LayoutOrdered(args, specs, offsets, i, j - 1);
    }
  }

  /** Some aligned placement in order, without overlap. */
  ghost predicate Fits(args: map<int, Arg>, specs: seq<int>, offsets: seq<nat>, i: int)
    requires 0 <= i < |offsets|
  {
    && i < |specs| && i in args && Alignment(args[i], specs[i]) > 0
    && offsets[i] % Alignment(args[i], specs[i]) == 0 && EndOf(args, offsets, i - 1) <= offsets[i]
  }

  /** No aligned placement of the arguments in this order puts any of them lower. */
  lemma {:induction false} LayoutLeast(args: map<int, Arg>, specs: seq<int>, offsets: seq<nat>, other: seq<nat>, i: nat)
    requires IsLayout(args, specs, offsets) && |other| == |offsets| && i < |offsets|
    requires forall k: int | 0 <= k < |other| :: Fits(args, specs, other, k)
    ensures offsets[i] <= other[i]
  {
    if i > 0 {
      LayoutLeast(args, specs, offsets, other, i - 1);
    }
    assert Placed(args, specs, offsets, i) && Fits(args, specs, other, i);
    assert EndOf(args, offsets, i - 1) <= EndOf(args, other, i - 1);
  }

  /** An argument whose spec is -1 starts at a multiple of its size, any other one at a multiple of
      its spec, and always at the first one after the argument before it. */
  ghost predicate PackedAt(args: map<int, Arg>, specs: seq<int>, offsets: seq<nat>, i: int)
    requires 0 <= i < |offsets|
  {
    && i < |specs| && i in args && (i > 0 ==> i - 1 in args)
    && var from := if i > 0 then offsets[i - 1] + args[i - 1].size else 0;
      if specs[i] == -1 then
        args[i].size > 0 && offsets[i] % args[i].size == 0 && from <= offsets[i] < from + args[i].size
      else
        specs[i] > 0 && offsets[i] % specs[i] == 0 && from <= offsets[i] < from + specs[i]
  }

  lemma NextIsNear(x: nat, from: nat, align: int)
    requires IsNextAligned(x, from, align)
    ensures x < from + align
  {
    NextAligned(from, align);
    var y := if from % align != 0 then from + (align - from % align) else from;
    assert IsNextAligned(y, from, align);
  }

  lemma LayoutIsPacked(args: map<int, Arg>, specs: seq<int>, offsets: seq<nat>)
    requires IsLayout(args, specs, offsets)
    ensures forall i: int | 0 <= i < |offsets| :: PackedAt(args, specs, offsets, i)
  {
    forall i: int | 0 <= i < |offsets| ensures PackedAt(args, specs, offsets, i) {
      assert Placed(args, specs, offsets, i);
      assert i > 0 ==> Placed(args, specs, offsets, i - 1);
      NextIsNear(offsets[i], EndOf(args, offsets, i - 1), Alignment(args[i], specs[i]));
    }
  }

  ghost predicate IsParam(args: map<int, Arg>, offsets: seq<nat>, i: int, p: Param) {
    0 <= i < |offsets| && i in args && p == Param(args[i].value, args[i].size, offsets[i])
  }

  /** The argument list in reverse order. */
  ghost predicate Listed(args: map<int, Arg>, offsets: seq<nat>, params: seq<Param>) {
    && |params| == |offsets|
    && forall i: int | 0 <= i < |params| :: IsParam(args, offsets, |params| - 1 - i, params[i])
  }

  lemma FirstUnset(keys: seq<int>, args: map<int, Arg>, k: nat)
    requires IsAscending(keys, args.Keys) && (forall i: int :: i in args ==> i >= 0)
    requires k <= |keys| && forall i: int | 0 <= i < k :: keys[i] == i
    requires k == |keys| || keys[k] != k
    ensures IsFirstUnset(args, k) && (k == |keys| <==> |args| == k)
  {
    AscendingIn(keys, args.Keys);
    AscendingCard(keys, args.Keys);
    forall i: int | 0 <= i < k ensures i in args {
      assert keys[i] in args.Keys;
    }
    if k in args {
      var i :| 0 <= i < |keys| && keys[i] == k;
      PastPrefix(keys, args.Keys, k);
    }
  }

  lemma PastPrefix(keys: seq<int>, all: set<int>, k: nat)
    requires IsAscending(keys, all) && (forall i: int :: i in all ==> i >= 0)
    requires k < |keys| && (forall i: int | 0 <= i < k :: keys[i] == i) && keys[k] != k
    ensures forall i | 0 <= i < |keys| :: keys[i] != k
  {
    AscendingIn(keys, all);
    assert keys[k] in all;
    assert k > 0 ==> keys[k - 1] < keys[k];
  }

  class Kernel {
    const specs: seq<int>
    var args: map<int, Arg>

    constructor (specs: seq<int>)
      ensures this.specs == specs && args == map[]
    {
      this.specs := specs;
      args := map[];
    }

    method SetKernelArg(index: nat, size: nat, value: int)
      modifies this
      ensures args == old(args)[index := Arg(value, size)]
    {
      args := args[index := Arg(value, size)];
    }

    /** The arguments the loop reaches are parameters of the kernel with a usable alignment. */
    ghost predicate Placeable()
      reads this
    {
      && (forall i: int :: i in args ==> i >= 0)
      && forall i: int | Reached(args, i) :: i < |specs| && Alignment(args[i], specs[i]) > 0
    }

    /** Succeeds exactly when the set indices are 0..n-1. */
    method BindArgs() returns (ok: bool, params: seq<Param>, ghost offsets: seq<nat>)
      requires Placeable()
      ensures IsFirstUnset(args, |params|) && ok == (|args| == |params|)
      ensures Listed(args, offsets, params) && IsLayout(args, specs, offsets)
      ensures forall i: int | 0 <= i < |offsets| :: PackedAt(args, specs, offsets, i)
    {
      var keys := Enumerate(args.Keys);
      AscendingIn(keys, args.Keys);
      var offset: nat, k := 0, 0;
      params, offsets := [], [];
      while k < |keys|
        invariant 0 <= k <= |keys| && |offsets| == k
        invariant forall i: int | 0 <= i < k :: keys[i] == i
        invariant Listed(args, offsets, params) && IsLayout(args, specs, offsets)
        invariant offset == EndOf(args, offsets, k - 1)
      {
        if keys[k] != k {
          FirstUnset(keys, args, k);
          LayoutIsPacked(args, specs, offsets);
          return false, params, offsets;
        }
        assert keys[k] in args.Keys;
        forall j: int | 0 <= j < k ensures j in args {
          assert Placed(args, specs, offsets, j);
        }
        assert Reached(args, k);
        var arg := args[k];
        var align := Alignment(arg, specs[k]);
        NextAligned(offset, align);
        if offset % align != 0 {
          offset := offset + (align - offset % align);
        }
        LayoutExtend(args, specs, offsets, offset);
        ListedExtend(args, offsets, params, offset);
        params := [Param(arg.value, arg.size, offset)] + params;
        offsets := offsets + [offset];
        offset := offset + arg.size;
        k := k + 1;
      }
      FirstUnset(keys, args, k);
      LayoutIsPacked(args, specs, offsets);
      ok := true;
    }
  }

  lemma LayoutExtend(args: map<int, Arg>, specs: seq<int>, offsets: seq<nat>, x: nat)
    requires IsLayout(args, specs, offsets) && |offsets| < |specs| && |offsets| in args
    requires IsNextAligned(x, EndOf(args, offsets, |offsets| - 1), Alignment(args[|offsets|], specs[|offsets|]))
    ensures IsLayout(args, specs, offsets + [x])
  {
    var more := offsets + [x];
    forall i: int | 0 <= i < |more| ensures Placed(args, specs, more, i) {
      assert EndOf(args, more, i - 1) == EndOf(args, offsets, i - 1);
      if i < |offsets| {
        assert Placed(args, specs, offsets, i) && more[i] == offsets[i];
      }
    }
  }

  lemma ListedExtend(args: map<int, Arg>, offsets: seq<nat>, params: seq<Param>, x: nat)
    requires Listed(args, offsets, params) && |offsets| in args
    ensures Listed(args, offsets + [x], [Param(args[|offsets|].value, args[|offsets|].size, x)] + params)
  {
    var k := |offsets|;
    var more := [Param(args[k].value, args[k].size, x)] + params;
    forall i: int | 0 <= i < |more| ensures IsParam(args, offsets + [x], |more| - 1 - i, more[i]) {
      if i > 0 {
        assert IsParam(args, offsets, |params| - 1 - (i - 1), params[i - 1]);
      }
    }
  }

  // ----- work groups ----------------------------------------------------------------------------

  const STEP: nat := 64
  const TWO32: nat := 0x1_0000_0000

  /** A work-group size the automatic selection may use for an oversized range. */
  predicate Candidate(global: nat, threads: nat, size: nat) {
    0 < size <= threads && size % 64 == 0 && global % size == 0
  }

  /** What the selection is meant to find in dimension 0. */
  ghost predicate IsBestLocal(global: nat, threads: nat, size: nat) {
    if global <= threads then size == global
    else if exists s: nat :: Candidate(global, threads, s)
    then Candidate(global, threads, size) && forall s: nat | Candidate(global, threads, s) :: s <= size
    else size == 1
  }

  lemma NextCandidate(global: nat, threads: nat, size: nat)
    requires size % STEP == 0 && size >= STEP && global % size != 0
    ensures forall s: nat | Candidate(global, threads, s) && s <= size :: s <= size - STEP
  {
  }

  /** Down from the core size in steps of 64, to the first size that divides the range, or 0. */
  method SearchLocalSize(global: nat, threads: nat) returns (size: nat)
    requires threads % STEP == 0
    ensures size == 0 || Candidate(global, threads, size)
    ensures forall s: nat | Candidate(global, threads, s) :: s <= size
  {
    size := threads;
    while size > 1
      invariant size <= threads && size % STEP == 0
      invariant forall s: nat | Candidate(global, threads, s) :: s <= size
    {
      if global % size == 0 {
        return;
      }
      NextCandidate(global, threads, size);
      size := size - STEP;
    }
  }

  /** For a core size that is no multiple of 64 an oversized range is cut by the core size
      whether that divides it or not. */
  method SelectLocalSize(global: nat, threads: nat) returns (size: nat)
    ensures threads % 64 == 0 || global <= threads ==> IsBestLocal(global, threads, size)
    ensures threads % 64 != 0 && global > threads ==> size == threads
    ensures global > 0 ==> size > 0
  {
    if global <= threads {
      return global;
    }
    size := threads;
    if threads % STEP == 0 {
      size := SearchLocalSize(global, threads);
    }
    if size == 0 {
      size := 1;
    }
  }

  /** The selected size divides the range exactly when the core size is a multiple of 64, or
      the range fits a core, or the core size happens to divide it. */
  lemma NeverRejected(global: nat, threads: nat, size: nat)
    requires global > 0 && size > 0
    requires threads % 64 == 0 || global <= threads ==> IsBestLocal(global, threads, size)
    requires threads % 64 != 0 && global > threads ==> size == threads
    ensures global % size == 0 <==> (threads % 64 == 0 || global <= threads || global % threads == 0)
  {
    if global <= threads {
      assert global % global == 0;
    }
  }

  datatype Status = Success | InvalidDimension | InvalidGroupSize | Aborted

  datatype Dim3 = Dim3(x: nat, y: nat, z: nat)

  /** `size_t` stored in an `unsigned`. */
  function Unsigned(n: nat): nat {
    n % TWO32
  }

  /** The grid times the block is the range exactly when both fit 32 bits (or the range is empty). */
  lemma GridTimesBlock(global: nat, local: nat)
    requires local > 0 && global % local == 0
    ensures Unsigned(global / local) * Unsigned(local) == global <==>
      global == 0 || (global / local < 0x1_0000_0000 && local < 0x1_0000_0000)
  {
    var q := global / local;
    assert q * local == global;
    if q == 0 {
      assert 0 * Unsigned(local) == 0;
    } else if q < TWO32 && local < TWO32 {
      assert Unsigned(q) == q && Unsigned(local) == local;
    } else {
      var a, b := Unsigned(q), Unsigned(local);
      assert a <= q && b <= local;
      if q >= TWO32 {
        assert a <= q - 1;
        assert a * b <= (q - 1) * local by {
          Monotone(a, q - 1, b, local);
        }
        assert (q - 1) * local == q * local - local;
      } else {
        assert b <= local - 1;
        Monotone(a, q, b, local - 1);
        assert q * (local - 1) == q * local - q;
      }
    }
  }

  lemma Monotone(a: nat, b: nat, c: nat, d: nat)
    requires a <= b && c <= d
    ensures a * c <= b * d
  {
    assert a * c <= b * c;
    assert b * c <= b * d;
  }

  /** The local sizes in force. */
  ghost predicate LocalsOk(global: seq<nat>, threads: nat, local: Option<seq<nat>>, sizes: seq<nat>) {
    if local.Some? then sizes == local.value
    else && |sizes| == |global| > 0
         && (forall d | 1 <= d < |sizes| :: sizes[d] == 1)
         && (threads % 64 == 0 || global[0] <= threads ==> IsBestLocal(global[0], threads, sizes[0]))
         && (threads % 64 != 0 && global[0] > threads ==> sizes[0] == threads)
  }

  method LocalSizes(global: seq<nat>, threads: nat, local: Option<seq<nat>>) returns (sizes: seq<nat>)
    requires 0 < |global| && (local.Some? ==> |local.value| == |global|)
    ensures |sizes| == |global| && LocalsOk(global, threads, local, sizes)
    ensures local.None? && global[0] > 0 ==> forall d | 0 <= d < |sizes| :: sizes[d] > 0
  {
    sizes := [];
    for d := 0 to |global|
      invariant |sizes| == d
      invariant local.Some? ==> sizes == local.value[..d]
      invariant local.None? ==> forall e | 1 <= e < d :: sizes[e] == 1
      invariant local.None? && d > 0 ==>
        && (threads % 64 == 0 || global[0] <= threads ==> IsBestLocal(global[0], threads, sizes[0]))
        && (threads % 64 != 0 && global[0] > threads ==> sizes[0] == threads)
        && (global[0] > 0 ==> sizes[0] > 0)
    {
      var size := 1;
      if local.Some? {
        size := local.value[d];
      } else if d == 0 {
        size := SelectLocalSize(global[0], threads);
      }
      sizes := sizes + [size];
    }
  }

  ghost predicate AllDivide(global: seq<nat>, sizes: seq<nat>) {
    |sizes| == |global| && forall d | 0 <= d < |global| :: sizes[d] > 0 && global[d] % sizes[d] == 0
  }

  method CheckDivides(global: seq<nat>, sizes: seq<nat>) returns (ok: bool)
    requires |sizes| == |global| && forall d | 0 <= d < |sizes| :: sizes[d] > 0
    ensures ok <==> AllDivide(global, sizes)
  {
    for d := 0 to |global|
      invariant forall e | 0 <= e < d :: global[e] % sizes[e] == 0
    {
      if global[d] % sizes[d] != 0 {
        return false;
      }
    }
    ok := true;
  }

  ghost predicate NoOffset(offset: Option<seq<nat>>) {
    offset.Some? ==> forall d | 0 <= d < |offset.value| :: offset.value[d] == 0
  }

  method CheckOffset(offset: Option<seq<nat>>) returns (ok: bool)
    ensures ok <==> NoOffset(offset)
  {
    if offset.Some? {
      for d := 0 to |offset.value|
        invariant forall e | 0 <= e < d :: offset.value[e] == 0
      {
        if offset.value[d] != 0 {
          return false;
        }
      }
    }
    ok := true;
  }

  /** Groups and group size in dimension `d`, as 32-bit numbers. */
  ghost predicate IsCutAt(global: seq<nat>, sizes: seq<nat>, d: nat, groups: nat, size: nat)
    requires AllDivide(global, sizes)
  {
    if d < |global| then groups == global[d] / sizes[d] % 0x1_0000_0000 && size == sizes[d] % 0x1_0000_0000
    else groups == 1 && size == 1
  }

  /** Grid and block of a range cut into groups of `sizes`; missing dimensions are 1. */
  ghost predicate IsCut(global: seq<nat>, sizes: seq<nat>, grid: Dim3, block: Dim3)
    requires AllDivide(global, sizes)
  {
    && IsCutAt(global, sizes, 0, grid.x, block.x)
    && IsCutAt(global, sizes, 1, grid.y, block.y)
    && IsCutAt(global, sizes, 2, grid.z, block.z)
  }

  method Cut(global: seq<nat>, sizes: seq<nat>) returns (grid: Dim3, block: Dim3)
    requires 1 <= |global| <= 3 && AllDivide(global, sizes)
    ensures IsCut(global, sizes, grid, block)
  {
    grid := Dim3(
      Unsigned(global[0] / sizes[0]),
      if |global| < 2 then 1 else Unsigned(global[1] / sizes[1]),
      if |global| < 3 then 1 else Unsigned(global[2] / sizes[2]));
    block := Dim3(
      Unsigned(sizes[0]),
      if |global| < 2 then 1 else Unsigned(sizes[1]),
      if |global| < 3 then 1 else Unsigned(sizes[2]));
  }

  /** The work-size part of `clEnqueueNDRangeKernel`; the length of `global` is `work_dim`.
      A zero divisor faults in the source and is excluded. */
  method CutRange(global: seq<nat>, offset: Option<seq<nat>>, local: Option<seq<nat>>, threads: nat)
    returns (status: Status, grid: Dim3, block: Dim3, ghost sizes: seq<nat>)
    requires local.Some? ==> |local.value| == |global| && forall d | 0 <= d < |global| :: local.value[d] > 0
    requires offset.Some? ==> |offset.value| == |global|
    requires local.None? && |global| > 0 ==> global[0] > 0
    ensures status == InvalidDimension <==> !(1 <= |global| <= 3)
    ensures 1 <= |global| <= 3 ==>
      && LocalsOk(global, threads, local, sizes)
      && (status == InvalidGroupSize <==> !AllDivide(global, sizes))
      && (status == Success <==> AllDivide(global, sizes) && NoOffset(offset))
    ensures status == Success ==> AllDivide(global, sizes) && IsCut(global, sizes, grid, block)
    ensures 1 <= |global| <= 3 ==> |sizes| == |global| && forall d | 0 <= d < |sizes| :: sizes[d] > 0
    ensures 1 <= |global| <= 3 ==>
      (status == InvalidGroupSize <==> exists d :: 0 <= d < |global| && global[d] % sizes[d] != 0)
    ensures status == Success ==> offset.None? || forall d | 0 <= d < |global| :: offset.value[d] == 0
    ensures status == Aborted ==> offset.Some? && exists d :: 0 <= d < |global| && offset.value[d] != 0
  {
    status, grid, block, sizes := InvalidDimension, Dim3(1, 1, 1), Dim3(1, 1, 1), [];
    if |global| == 0 || |global| > 3 {
      return;
    }
    var ls := LocalSizes(global, threads, local);
    sizes := ls;
    var divides := CheckDivides(global, ls);
    if !divides {
      status := InvalidGroupSize;
      return;
    }
    var noOffset := CheckOffset(offset);
    if !noOffset {
      status := Aborted;
      return;
    }
    grid, block := Cut(global, ls);
    status := Success;
  }

  /** With automatic sizes and a core size that is a multiple of 64, every range is accepted,
      and grid times block is the range in a dimension exactly when its grid fits 32 bits. */
  lemma AutomaticRange(global: seq<nat>, threads: nat, sizes: seq<nat>, d: nat)
    requires 1 <= |global| <= 3 && global[0] > 0 && threads % 64 == 0 && threads < 0x1_0000_0000
    requires LocalsOk(global, threads, None, sizes) && d < |global|
    ensures AllDivide(global, sizes)
    ensures Unsigned(global[d] / sizes[d]) * Unsigned(sizes[d]) == global[d] <==> global[d] / sizes[d] < 0x1_0000_0000
  {
    assert sizes[0] > 0;
    NeverRejected(global[0], threads, sizes[0]);
    assert forall e | 1 <= e < |global| :: global[e] % 1 == 0;
    GridTimesBlock(global[d], sizes[d]);
    if global[d] == 0 {
      assert 0 / sizes[d] == 0;
    }
  }

  /** A range of 100 on a core of 48 threads is cut by 48, which does not divide it. */
  lemma RejectedExample()
    ensures LocalsOk([100], 48, None, [48]) && !AllDivide([100], [48])
  {
    assert 100 % 48 == 4;
  }

  /** 2^32 work groups of one thread: the grid is stored as 0. */
  lemma TruncatedGridExample()
    ensures Unsigned(0x1_0000_0000 / 1) * Unsigned(1) == 0
  {
  }
}
