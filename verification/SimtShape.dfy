/** The shape of the stack: every update keeps it laminar, whatever the branch says its
    reconvergence pc is. */
module SimtShape {
  import opened SimtStacks
  import opened SimtInvariant

  // ----- groups ---------------------------------------------------------------------

  lemma GroupsCover(live: set<nat>, next: seq<Pc>)
    requires InWarp(live, |next|)
    ensures forall p | p in Groups(live, next) :: Groups(live, next)[p] != {}
    ensures forall t | t in live :: next[t] in Groups(live, next) && t in Groups(live, next)[next[t]]
    ensures |Groups(live, next)| == 0 ==> live == {}
    ensures forall p, t | |Groups(live, next)| == 1 && p in Groups(live, next) && t in live :: next[t] == p
    ensures forall p, q, t | |Groups(live, next)| == 2 && p != q && p in Groups(live, next) && q in Groups(live, next)
        && t in live :: next[t] == p || next[t] == q
  {
    var g := Groups(live, next);
    forall t | t in live ensures next[t] in g && t in g[next[t]] {
      assert next[t] in NextPcs(live, next);
    }
    forall p | p in g ensures g[p] != {} {
      var t :| t in live && next[t] == p;
      assert t in g[p];
    }
    if |g| == 0 {
      assert g == map[];
    }
    forall p, t | |g| == 1 && p in g && t in live ensures next[t] == p {
      assert |g.Keys - {p}| == 0;
    }
    forall p, q, t | |g| == 2 && p != q && p in g && q in g && t in live ensures next[t] == p || next[t] == q {
      assert |g.Keys - {p} - {q}| == 0;
    }
  }

  lemma TwoGroups(live: set<nat>, next: seq<Pc>, p: Pc, q: Pc)
    requires InWarp(live, |next|) && |Groups(live, next)| == 2
    requires p in Groups(live, next) && q in Groups(live, next) && p != q
    ensures Groups(live, next).Keys == {p, q}
    ensures Groups(live, next)[p] + Groups(live, next)[q] == live
    ensures Groups(live, next)[p] != {} && Groups(live, next)[q] != {}
  {
    var g := Groups(live, next);
    GroupsCover(live, next);
    assert |g.Keys - {p} - {q}| == 0;
    assert g.Keys - {p} - {q} == {};
  }

  // ----- what replaces the top entry ----------------------------------------------------

  /** The entry in the top slot keeps its role when its pc or mask changes. */
  lemma SlotOk(stack: seq<Entry>, e: Entry, rest: seq<Entry>)
    requires stack != [] && Laminar(stack)
    requires e.kind == Top(stack).kind && e.recvgPc == Top(stack).recvgPc
    requires e.mask != {} && e.mask <= Top(stack).mask
    ensures EntryOk(Below(stack) + [e] + rest, |stack| - 1)
  {
    var s, b := Below(stack) + [e] + rest, |stack| - 1;
    assert EntryOk(stack, b);
    if e.kind.Normal? && e.recvgPc != NULL_PC {
      var j :| IsParent(stack, j, b);
      assert IsParent(s, j, b);
    }
  }

  /** Moving the top's pc keeps the shape, unless it reconverges. */
  lemma ResumedLaminar(stack: seq<Entry>, pc: Pc)
    requires stack != [] && Laminar(stack) && !Reconverges(Top(stack), pc) && pc != NULL_PC
    ensures Laminar(Below(stack) + [Top(stack).(pc := pc)])
  {
    var xs := [Top(stack).(pc := pc)];
    assert EntryOk(stack, |stack| - 1);
    SlotOk(stack, xs[0], []);
    assert Below(stack) + [xs[0]] + [] == Below(stack) + xs;
    LaminarReplace(stack, xs);
  }

  /** Divergence with an unchanged reconvergence pc: the paths become siblings of
      the old top, which disappears. */
  lemma SiblingsLaminar(stack: seq<Entry>, first: Path, second: Path, recvgPc: Pc, cycle: nat)
    requires stack != [] && Laminar(stack) && recvgPc == Top(stack).recvgPc
    requires first.mask != {} && second.mask != {} && first.mask !! second.mask && first.pc != second.pc
    requires first.mask <= Top(stack).mask && second.mask <= Top(stack).mask
    ensures Laminar(Below(stack) + AfterDivergence(Top(stack), first, second, recvgPc, cycle))
  {
    var top, b := Top(stack), |stack| - 1;
    var xs := AfterDivergence(top, first, second, recvgPc, cycle);
    var s := Below(stack) + xs;
    SlotOk(stack, xs[0], xs[1..]);
    assert Below(stack) + [xs[0]] + xs[1..] == s;
    if |xs| == 2 {
      assert s[b].mask == first.mask && s[b + 1].mask == second.mask;
      SecondSiblingOk(stack, xs[0], xs[1]);
      assert Below(stack) + [xs[0], xs[1]] == s;
    }
    LaminarReplace(stack, xs);
  }

  lemma SecondSiblingOk(stack: seq<Entry>, e: Entry, f: Entry)
    requires stack != [] && Laminar(stack)
    requires e.kind == Top(stack).kind && f.kind.Normal?
    requires e.recvgPc == f.recvgPc == Top(stack).recvgPc
    requires e.mask <= Top(stack).mask && f.mask <= Top(stack).mask && f.mask != {} && e.mask !! f.mask
    ensures EntryOk(Below(stack) + [e, f], |stack|)
  {
    var s, b := Below(stack) + [e, f], |stack| - 1;
    assert EntryOk(stack, b);
    if f.recvgPc != NULL_PC {
      var j :| IsParent(stack, j, b);
      assert IsParent(s, j, b + 1);
    }
  }

  /** Divergence with a new reconvergence pc: the old top waits there, with the
      paths that are not yet there as its children. */
  lemma ChildrenLaminar(stack: seq<Entry>, first: Path, second: Path, recvgPc: Pc, cycle: nat)
    requires stack != [] && Laminar(stack) && recvgPc != Top(stack).recvgPc
    requires first.mask != {} && second.mask != {} && first.mask !! second.mask
    requires first.mask <= Top(stack).mask && second.mask <= Top(stack).mask
    ensures Laminar(Below(stack) + AfterDivergence(Top(stack), first, second, recvgPc, cycle))
  {
    var top, b := Top(stack), |stack| - 1;
    var xs := AfterDivergence(top, first, second, recvgPc, cycle);
    var s := Below(stack) + xs;
    assert EntryOk(stack, b);
    SlotOk(stack, xs[0], xs[1..]);
    assert Below(stack) + [xs[0]] + xs[1..] == s;
    assert first.mask < top.mask && second.mask < top.mask;
    forall i | b < i < |s|
      ensures s[i].mask < s[b].mask && s[i].recvgPc == recvgPc && EntryOk(s, i) && NestedPair(s, b, i)
    {
      assert s[i] == xs[i - b];
      assert IsParent(s, b, i);
    }
    if |xs| == 3 {
      assert s[b + 1] == xs[1] && s[b + 2] == xs[2];
      assert NestedPair(s, b + 1, b + 2);
    }
    LaminarReplace(stack, xs);
  }

  lemma CallLaminar(stack: seq<Entry>, e: Entry)
    requires stack != [] && Laminar(stack)
    requires e.kind.Call? && e.recvgPc == NULL_PC && e.mask != {} && e.mask <= Top(stack).mask
    ensures Laminar(stack + [e])
  {
    var s, n := stack + [e], |stack|;
    forall j | 0 <= j < n ensures NestedPair(s, j, n) {
      assert s[n].kind.Call? && !SameFrame(s, j, n);
      assert j < n - 1 ==> NestedPair(stack, j, n - 1);
    }
    LaminarPush(stack, e);
  }

  lemma ReturnLaminar(below: seq<Entry>, pc: Pc)
    requires Laminar(below) && pc != NULL_PC
    ensures Laminar(AfterReturn(below, pc))
  {
    if below != [] {
      if Reconverges(Top(below), pc) {
        LaminarPrefix(below, |below| - 1);
      } else {
        ResumedLaminar(below, pc);
      }
    }
  }

  lemma ReplaceLaminar(stack: seq<Entry>, e: Entry)
    requires stack != [] && Laminar(stack)
    requires e.kind == Top(stack).kind && e.recvgPc == Top(stack).recvgPc
    requires e.mask != {} && e.mask <= Top(stack).mask
    ensures Laminar(Below(stack) + [e])
  {
    SlotOk(stack, e, []);
    assert Below(stack) + [e] + [] == Below(stack) + [e];
    LaminarReplace(stack, [e]);
  }

  lemma DivergenceLaminar(stack: seq<Entry>, first: Path, second: Path, recvgPc: Pc, cycle: nat)
    requires stack != [] && Laminar(stack)
    requires first.mask != {} && second.mask != {} && first.mask !! second.mask && first.pc != second.pc
    requires first.mask <= Top(stack).mask && second.mask <= Top(stack).mask
    ensures Laminar(Below(stack) + AfterDivergence(Top(stack), first, second, recvgPc, cycle))
  {
    if recvgPc == Top(stack).recvgPc {
      SiblingsLaminar(stack, first, second, recvgPc, cycle);
    } else {
      ChildrenLaminar(stack, first, second, recvgPc, cycle);
    }
  }

  // ----- one update -----------------------------------------------------------------------

  /** The paths an update handles: nonempty, apart, and made of live threads of the top. */
  lemma OrderFacts(stack: seq<Entry>, iss: Issue) returns (order: seq<Path>)
    requires WellPosed(stack, iss) && Uniform(stack, iss)
    ensures order == PathOrder(PathGroups(stack, iss), iss.NotTakenPc())
    ensures forall k | 0 <= k < |order| ::
      order[k].mask != {} && order[k].mask <= Live(stack, iss.done) && order[k].pc != NULL_PC
    ensures forall k, t | 0 <= k < |order| && t in order[k].mask :: iss.next[t] == order[k].pc
    ensures |order| == 2 ==> order[0].mask !! order[1].mask
  {
    order := PathOrder(PathGroups(stack, iss), iss.NotTakenPc());
    GroupsCover(Live(stack, iss.done), iss.next);
    forall k | 0 <= k < |order| ensures order[k].mask != {} && order[k].pc != NULL_PC {
      var t :| t in order[k].mask;
      assert iss.next[t] == order[k].pc;
    }
  }

  /** Every update keeps the stack laminar. */
  lemma UpdateLaminar(stack: seq<Entry>, iss: Issue)
    requires WellPosed(stack, iss) && Uniform(stack, iss) && Laminar(stack)
    ensures Laminar(UpdateSpec(stack, iss))
  {
    var order := OrderFacts(stack, iss);
    var top := Top(stack);
    LaminarPrefix(stack, |stack| - 1);
    if |order| > 0 && iss.op.CallOp? {
      CallLaminar(stack, Entry(order[0].pc, 0, order[0].mask, NULL_PC, iss.cycle, Call));
    } else if |order| > 0 && iss.op.RetOp? && top.kind.Call? {
      ReturnLaminar(Below(stack), order[0].pc);
    } else if |order| == 1 {
      if !Reconverges(top, order[0].pc) {
        ReplaceLaminar(stack, top.(pc := order[0].pc, mask := order[0].mask));
      }
    } else if |order| == 2 {
      DivergenceLaminar(stack, order[0], order[1], iss.recvgPc, iss.cycle);
    }
  }

  /** No update brings in threads that no entry held before. */
  lemma UpdateMasks(stack: seq<Entry>, iss: Issue, launched: set<nat>)
    requires WellPosed(stack, iss) && Uniform(stack, iss)
    requires forall i | 0 <= i < |stack| :: stack[i].mask <= launched
    ensures forall i | 0 <= i < |UpdateSpec(stack, iss)| :: UpdateSpec(stack, iss)[i].mask <= launched
  {
    var order := OrderFacts(stack, iss);
    if |order| == 2 {
      var xs := AfterDivergence(Top(stack), order[0], order[1], iss.recvgPc, iss.cycle);
      assert forall i | 0 <= i < |xs| :: xs[i].mask <= Top(stack).mask;
    }
  }
}
