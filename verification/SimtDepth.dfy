/** How deep the SIMT stack can get: a laminar family of nonempty thread masks
    over n threads has at most 2n - 1 members. */
module SimtDepth {
  import opened OrderedKeys
  import opened SimtStacks
  import opened SimtInvariant
  import opened SimtRuns

  type Mask = set<nat>

  ghost predicate Compatible(x: Mask, y: Mask) {
    x <= y || y <= x || x !! y
  }

  ghost predicate Family(f: set<Mask>, u: Mask) {
    && (forall x | x in f :: x != {} && x <= u)
    && (forall x, y | x in f && y in f :: Compatible(x, y))
  }

  lemma {:induction false} MaximalAbove(f: set<Mask>, u: Mask, x: Mask) returns (a: Mask)
    requires Family(f, u) && x in f
    ensures a in f && forall y | y in f :: y <= a || y !! a
    decreases |u - x|
  {
    if y :| y in f && x < y {
      assert u - y < u - x by {
        var t :| t in y && t !in x;
        assert t in u - x && t !in u - y;
      }
      ProperSubsetCard(u - y, u - x);
      a := MaximalAbove(f, u, y);
    } else {
      a := x;
      assert forall y | y in f :: Compatible(y, x);
    }
  }

  lemma ProperSubsetCard(a: Mask, b: Mask)
    requires a < b
    ensures |a| < |b|
  {
    var t :| t in b && t !in a;
    assert |b| == |a| + |b - a|;
    assert t in b - a;
  }

  /** Split the family at a maximal proper member. */
  lemma {:induction false} ProperFamilyBound(f: set<Mask>, u: Mask)
    requires Family(f, u) && u != {} && u !in f
    ensures |f| <= 2 * |u| - 2
    decreases |u|, 0
  {
    if f == {} {
      assert |u| >= 1;
    } else {
      var x := Pick(f);
      var a := MaximalAbove(f, u, x);
      var inside, outside := set y | y in f && y <= a, set y | y in f && !(y <= a);
      assert f == inside + outside && inside !! outside;
      assert a <= u && a != u;
      ProperSubsetCard(a, u);
      assert |u| == |a| + |u - a|;
      assert u - a != {};
      assert Family(inside, a);
      assert Family(outside, u - a);
      assert a != {};
      ProperSubsetCard(u - a, u);
      FamilyBound(inside, a);
      FamilyBound(outside, u - a);
    }
  }

  lemma {:induction false} FamilyBound(f: set<Mask>, u: Mask)
    requires Family(f, u) && u != {}
    ensures |f| <= 2 * |u| - 1
    decreases |u|, 1
  {
    var proper := f - {u};
    assert Family(proper, u);
    ProperFamilyBound(proper, u);
    assert f <= proper + {u};
    SubsetCard(f, proper + {u});
  }

  /** The masks of the entries, as a set. */
  ghost function MaskSet(stack: seq<Entry>): (f: set<Mask>)
    ensures forall i | 0 <= i < |stack| :: stack[i].mask in f
    ensures forall m | m in f :: exists i :: 0 <= i < |stack| && stack[i].mask == m
  {
    if stack == [] then {} else MaskSet(Below(stack)) + {Top(stack).mask}
  }

  lemma {:induction false} DistinctMasks(stack: seq<Entry>)
    requires forall i, j | 0 <= i < j < |stack| :: stack[i].mask != stack[j].mask
    ensures |MaskSet(stack)| == |stack|
  {
    if stack != [] {
      DistinctMasks(Below(stack));
      assert Top(stack).mask !in MaskSet(Below(stack));
    }
  }

  /** Any stretch of the stack inside one call frame is at most 2n - 1 long. */
  lemma FrameDepth(stack: seq<Entry>, a: nat, b: nat, launched: Mask)
    requires Laminar(stack) && a < b <= |stack| && SameFrame(stack, a, b - 1)
    requires forall i | 0 <= i < |stack| :: stack[i].mask <= launched
    ensures b - a <= 2 * |launched| - 1
  {
    var part := stack[a..b];
    forall i, j | 0 <= i < j < |part|
      ensures part[j].mask != part[i].mask && Compatible(part[j].mask, part[i].mask)
    {
      assert NestedPair(stack, a + i, a + j);
      assert SameFrame(stack, a + i, a + j);
    }
    forall i | 0 <= i < |part| ensures part[i].mask != {} && part[i].mask <= launched {
      assert EntryOk(stack, a + i);
    }
    DistinctMasks(part);
    var f := MaskSet(part);
    forall x, y | x in f && y in f ensures Compatible(x, y) {
      var i :| 0 <= i < |part| && part[i].mask == x;
      var j :| 0 <= j < |part| && part[j].mask == y;
      assert i < j ==> Compatible(part[j].mask, part[i].mask);
      assert j < i ==> Compatible(part[i].mask, part[j].mask);
    }
    assert Family(f, launched);
    assert launched != {} by { assert part[0].mask != {}; }
    FamilyBound(f, launched);
  }

  ghost function Lanes(n: nat): (lanes: Mask)
    ensures |lanes| == n && forall t: nat :: t in lanes <==> t < n
  {
    if n == 0 then {} else Lanes(n - 1) + {n - 1}
  }

  ghost predicate NoCalls(stack: seq<Entry>) {
    forall k | 0 <= k < |stack| :: stack[k].kind.Normal?
  }

  lemma StepNoCalls(w: Warp, iss: Issue, w': Warp)
    requires Step(w, iss, w') && NoCalls(w.stack) && !iss.op.CallOp?
    ensures NoCalls(w'.stack) && |w'.pcs| == |w.pcs| && w'.launched == w.launched
  {
    StepAddsNoCall(w.stack, iss);
  }

  lemma {:induction false} NoCallsInRun(ws: seq<Warp>, issues: seq<Issue>, i: nat)
    requires IsRun(ws, issues) && i < |ws|
    requires forall k | 0 <= k < |issues| :: !issues[k].op.CallOp?
    ensures NoCalls(ws[i].stack) && |ws[i].pcs| == |ws[0].pcs| && ws[i].launched == ws[0].launched
  {
    if i > 0 {
      NoCallsInRun(ws, issues, i - 1);
      var w, iss, w' := StepOfRun(ws, issues, i - 1);
      StepNoCalls(w, iss, w');
    }
  }

  lemma StepAddsNoCall(stack: seq<Entry>, iss: Issue)
    requires WellPosed(stack, iss) && Uniform(stack, iss) && !iss.op.CallOp?
    requires NoCalls(stack)
    ensures NoCalls(UpdateSpec(stack, iss))
  {
    var order := PathOrder(PathGroups(stack, iss), iss.NotTakenPc());
    assert Top(stack).kind.Normal?;
    if |order| == 2 {
      var xs := AfterDivergence(Top(stack), order[0], order[1], iss.recvgPc, iss.cycle);
      assert forall k | 0 <= k < |xs| :: xs[k].kind.Normal?;
    }
  }

  /** In a run without calls the stack never holds more than 2 * warpSize - 1 entries. */
  lemma RunDepth(ws: seq<Warp>, issues: seq<Issue>, i: nat)
    requires IsRun(ws, issues) && i < |ws|
    requires forall k | 0 <= k < |issues| :: !issues[k].op.CallOp?
    ensures |ws[i].stack| <= 2 * |ws[0].pcs| - 1
  {
    NoCallsInRun(ws, issues, i);
    RunShaped(ws, issues, i);
    var w := ws[i];
    assert w.launched <= Lanes(|w.pcs|);
    SubsetCard(w.launched, Lanes(|w.pcs|));
    var t :| t in ws[0].launched;
    if w.stack != [] {
      FrameDepth(w.stack, 0, |w.stack|, w.launched);
    }
  }
}
