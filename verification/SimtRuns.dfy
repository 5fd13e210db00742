/** Every run of one warp: launch, then one update per executed instruction. */
module SimtRuns {
  import opened SimtStacks
  import opened SimtInvariant
  import opened SimtShape

  /** The stack together with the threads' own program counters. */
  datatype Warp = Warp(stack: seq<Entry>, pcs: seq<Pc>, done: set<nat>, launched: set<nat>)
  {
    ghost function Alive(): set<nat> {
      launched - done
    }
  }

  /** The shape, which every run keeps. */
  ghost predicate Shaped(w: Warp) {
    && InWarp(w.launched, |w.pcs|)
    && (forall i | 0 <= i < |w.stack| :: w.stack[i].mask <= w.launched)
    && Laminar(w.stack)
  }

  /** The link to the threads, which needs proper reconvergence pcs. */
  ghost predicate Tracks(w: Warp)
    requires InWarp(w.launched, |w.pcs|)
  {
    Agrees(w.stack, w.Alive(), w.pcs) && CallsCover(w.stack, w.Alive())
  }

  ghost predicate Valid(w: Warp) {
    Shaped(w) && Tracks(w)
  }

  /** The threads of the top entry executed one instruction: they may have moved
      or finished, no other thread did, and the stack was updated. */
  ghost predicate Step(w: Warp, iss: Issue, w': Warp) {
    && w.stack != []
    && w'.launched == w.launched
    && w.done <= w'.done <= w.done + Top(w.stack).mask
    && |w'.pcs| == |w.pcs| == |iss.next|
    && (forall t: nat | t < |w.pcs| && t !in Live(w.stack, w.done) :: w'.pcs[t] == w.pcs[t])
    && iss.done == w'.done
    && WellPosed(w.stack, iss) && Uniform(w.stack, iss)
    && (forall t | t in Live(w.stack, iss.done) :: iss.next[t] == w'.pcs[t])
    && w'.stack == UpdateSpec(w.stack, iss)
  }

  /** The reconvergence pc of a divergent branch must be the enclosing one as soon
      as some thread jumps straight to the enclosing one. */
  ghost predicate ProperRecvg(stack: seq<Entry>, iss: Issue)
    requires WellPosed(stack, iss)
  {
    var g := PathGroups(stack, iss);
    Top(stack).kind.Normal? && |g| == 2 && Top(stack).recvgPc in g ==> iss.recvgPc == Top(stack).recvgPc
  }

  // ----- one step, case by case ---------------------------------------------------------

  /** What all cases share: the stack before, and who moved where. */
  ghost predicate Ready(w: Warp, iss: Issue, w': Warp) {
    && w.stack != []
    && w'.launched == w.launched
    && WellPosed(w.stack, iss)
    && |w'.pcs| == |w.pcs|
    && Shaped(w)
    && Moved(w.stack, w.Alive(), w.pcs, w'.Alive(), w'.pcs)
    && (forall t :: t in Live(w.stack, iss.done) <==> t in w'.Alive() && t in Top(w.stack).mask)
    && (forall t | t in Live(w.stack, iss.done) :: iss.next[t] == w'.pcs[t])
  }

  lemma StepReady(w: Warp, iss: Issue, w': Warp)
    requires Shaped(w) && Step(w, iss, w')
    ensures Ready(w, iss, w')
  {
  }

  /** Every step keeps the shape. */
  lemma StepShaped(w: Warp, iss: Issue, w': Warp)
    requires Shaped(w) && Step(w, iss, w')
    ensures Shaped(w')
  {
    UpdateLaminar(w.stack, iss);
    UpdateMasks(w.stack, iss, w.launched);
  }

  /** The top entry goes away: all its threads finished or reconverged. */
  lemma PopCase(w: Warp, iss: Issue, w': Warp)
    requires Ready(w, iss, w') && Tracks(w) && w'.stack == Below(w.stack)
    requires forall t | t in Live(w.stack, iss.done) :: Placed(Top(w.stack), [], t, w'.pcs[t])
    ensures Tracks(w')
  {
    assert w'.stack == Below(w.stack) + [];
    AgreesReplace(w.stack, [], w.Alive(), w.pcs, w'.Alive(), w'.pcs);
  }

  lemma ReplaceCase(w: Warp, iss: Issue, w': Warp, pc: Pc, mask: set<nat>)
    requires Ready(w, iss, w') && Tracks(w)
    requires mask != {} && mask == Live(w.stack, iss.done) && forall t | t in mask :: w'.pcs[t] == pc
    requires w'.stack == Below(w.stack) + [Top(w.stack).(pc := pc, mask := mask)]
    ensures Tracks(w')
  {
    var xs := [Top(w.stack).(pc := pc, mask := mask)];
    AgreesReplace(w.stack, xs, w.Alive(), w.pcs, w'.Alive(), w'.pcs);
  }

  lemma CallCase(w: Warp, iss: Issue, w': Warp, e: Entry)
    requires Ready(w, iss, w') && Tracks(w) && w'.stack == w.stack + [e]
    requires e.kind.Call? && e.recvgPc == NULL_PC
    requires e.mask != {} && e.mask == Live(w.stack, iss.done) && forall t | t in e.mask :: w'.pcs[t] == e.pc
    ensures Tracks(w')
  {
    var xs, b := [Top(w.stack), e], |w.stack| - 1;
    var s := Below(w.stack) + xs;
    assert s == w.stack + [e];
    assert EntryOk(w.stack, b);
    forall t | t in w'.Alive() && t in Top(w.stack).mask
      ensures Holder(xs, t) == 1 && Holder(s, t) == b + 1
    {
      assert t in e.mask;
    }
    assert CallCovers(s, w'.Alive(), b + 1);
    AgreesReplace(w.stack, xs, w.Alive(), w.pcs, w'.Alive(), w'.pcs);
  }

  /** The state seen by a returning warp once the callee's entry is gone: the
      caller's threads stand at the caller's stale pc. */
  ghost function CallerView(w: Warp, w': Warp): Warp
    requires |w.stack| > 1 && |w'.pcs| == |w.pcs|
  {
    var caller := Top(Below(w.stack));
    Warp(Below(w.stack),
         seq(|w.pcs|, t requires 0 <= t < |w.pcs| => if t in caller.mask then caller.pc else w'.pcs[t]),
         w'.done, w.launched)
  }

  lemma CallerViewValid(w: Warp, iss: Issue, w': Warp)
    requires Ready(w, iss, w') && Tracks(w) && Top(w.stack).kind.Call? && |w.stack| > 1
    ensures Valid(CallerView(w, w'))
  {
    var v, b := CallerView(w, w'), |w.stack| - 1;
    LaminarPrefix(w.stack, b);
    assert EntryOk(w.stack, b);
    assert CallCovers(w.stack, w.Alive(), b);
    forall t | t in v.Alive()
      ensures Holder(v.stack, t) >= 0 && v.stack[Holder(v.stack, t)].pc == v.pcs[t]
      ensures t !in v.stack[b - 1].mask ==> Holder(v.stack, t) == Holder(w.stack, t)
    {
      if t in v.stack[b - 1].mask {
        HolderIs(v.stack, t, b - 1);
      } else {
        assert t !in Top(w.stack).mask;
      }
    }
    forall i | 0 < i < b && v.stack[i].kind.Call? ensures CallCovers(v.stack, v.Alive(), i) {
      assert CallCovers(w.stack, w.Alive(), i);
    }
  }

  lemma ReturnCase(w: Warp, iss: Issue, w': Warp, pc: Pc)
    requires Ready(w, iss, w') && Tracks(w) && Top(w.stack).kind.Call? && |w.stack| > 1
    requires pc != NULL_PC && forall t | t in Live(w.stack, iss.done) :: w'.pcs[t] == pc
    requires w'.stack == AfterReturn(Below(w.stack), pc)
    ensures Tracks(w')
  {
    var v, b := CallerView(w, w'), |w.stack| - 1;
    CallerViewValid(w, iss, w');
    var caller := Top(v.stack);
    assert CallCovers(w.stack, w.Alive(), b);
    assert forall t | t in w'.Alive() && t in caller.mask :: t in Top(w.stack).mask && w'.pcs[t] == pc;
    if Reconverges(caller, pc) {
      assert w'.stack == Below(v.stack) + [];
      AgreesReplace(v.stack, [], v.Alive(), v.pcs, w'.Alive(), w'.pcs);
    } else {
      var xs := [caller.(pc := pc)];
      AgreesReplace(v.stack, xs, v.Alive(), v.pcs, w'.Alive(), w'.pcs);
    }
  }

  /** The two paths of a divergent step. */
  ghost predicate TwoPaths(w: Warp, iss: Issue, w': Warp, first: Path, second: Path)
    requires Ready(w, iss, w')
  {
    && first.pc != second.pc && first.mask != {} && second.mask != {}
    && first.mask !! second.mask
    && first.mask + second.mask == Live(w.stack, iss.done)
    && (forall t | t in first.mask :: w'.pcs[t] == first.pc)
    && (forall t | t in second.mask :: w'.pcs[t] == second.pc)
    && first.pc != NULL_PC && second.pc != NULL_PC
  }

  /** A thread of either path ends up in an entry with its own pc, or reconverges. */
  lemma DivergedPlaced(top: Entry, first: Path, second: Path, recvgPc: Pc, cycle: nat, t: nat, pc: Pc)
    requires first.mask !! second.mask && t in top.mask && pc != NULL_PC
    requires (t in first.mask && pc == first.pc) || (t in second.mask && pc == second.pc)
    requires top.kind.Call? ==> top.recvgPc == NULL_PC
    requires recvgPc == top.recvgPc || !(Reconverges(top, first.pc) || Reconverges(top, second.pc))
    ensures Placed(top, AfterDivergence(top, first, second, recvgPc, cycle), t, pc)
  {
    var xs := AfterDivergence(top, first, second, recvgPc, cycle);
    if pc == recvgPc {
      HolderIs(xs, t, if recvgPc == top.recvgPc then -1 else 0);
    } else {
      var i := if t in first.mask then (if recvgPc == top.recvgPc then 0 else 1) else |xs| - 1;
      HolderIs(xs, t, i);
    }
  }

  lemma PathsPlaced(w: Warp, iss: Issue, w': Warp, first: Path, second: Path)
    requires Ready(w, iss, w') && TwoPaths(w, iss, w', first, second)
    requires var top := Top(w.stack);
      iss.recvgPc == top.recvgPc || !(Reconverges(top, first.pc) || Reconverges(top, second.pc))
    ensures var xs := AfterDivergence(Top(w.stack), first, second, iss.recvgPc, iss.cycle);
      forall t | t in w'.Alive() && t in Top(w.stack).mask :: Placed(Top(w.stack), xs, t, w'.pcs[t])
  {
    var xs := AfterDivergence(Top(w.stack), first, second, iss.recvgPc, iss.cycle);
    assert EntryOk(w.stack, |w.stack| - 1);
    forall t | t in w'.Alive() && t in Top(w.stack).mask ensures Placed(Top(w.stack), xs, t, w'.pcs[t]) {
      assert t in Live(w.stack, iss.done);
      DivergedPlaced(Top(w.stack), first, second, iss.recvgPc, iss.cycle, t, w'.pcs[t]);
    }
  }

  lemma DivergenceShape(top: Entry, first: Path, second: Path, recvgPc: Pc, cycle: nat)
    requires first.mask <= top.mask && second.mask <= top.mask
    ensures var xs := AfterDivergence(top, first, second, recvgPc, cycle);
      && (forall i | 0 <= i < |xs| :: xs[i].mask <= top.mask)
      && (forall i | 0 < i < |xs| :: xs[i].kind.Normal?)
      && (first.pc != second.pc ==> xs != [] && xs[0].kind == top.kind)
  {
  }

  /** Divergence, with the old or a new reconvergence pc. */
  lemma DivergenceCase(w: Warp, iss: Issue, w': Warp, first: Path, second: Path)
    requires Ready(w, iss, w') && Tracks(w) && TwoPaths(w, iss, w', first, second)
    requires var top := Top(w.stack);
      iss.recvgPc == top.recvgPc || !(Reconverges(top, first.pc) || Reconverges(top, second.pc))
    requires w'.stack == Below(w.stack) + AfterDivergence(Top(w.stack), first, second, iss.recvgPc, iss.cycle)
    ensures Tracks(w')
  {
    var xs := AfterDivergence(Top(w.stack), first, second, iss.recvgPc, iss.cycle);
    PathsPlaced(w, iss, w', first, second);
    DivergenceShape(Top(w.stack), first, second, iss.recvgPc, iss.cycle);
    AgreesReplace(w.stack, xs, w.Alive(), w.pcs, w'.Alive(), w'.pcs);
  }

  /** A new reconvergence pc when one path already sits at the enclosing one: those
      threads are now held by an entry with another pc. */
  lemma DivergenceBreak(w: Warp, iss: Issue, w': Warp, first: Path, second: Path)
    requires Ready(w, iss, w') && TwoPaths(w, iss, w', first, second)
    requires iss.recvgPc != Top(w.stack).recvgPc
    requires Reconverges(Top(w.stack), first.pc) || Reconverges(Top(w.stack), second.pc)
    requires w'.stack == Below(w.stack) + AfterDivergence(Top(w.stack), first, second, iss.recvgPc, iss.cycle)
    ensures !Agrees(w'.stack, w'.Alive(), w'.pcs)
  {
    var top, b := Top(w.stack), |w.stack| - 1;
    var lost := if Reconverges(top, first.pc) then first else second;
    var t :| t in lost.mask;
    assert t in Live(w.stack, iss.done);
    HolderIs(w'.stack, t, b);
  }

  // ----- one step -----------------------------------------------------------------------

  lemma PathsOfStep(w: Warp, iss: Issue, w': Warp, p: Pc, q: Pc)
    requires Ready(w, iss, w')
    requires var g := PathGroups(w.stack, iss); |g| == 2 && p in g && q in g && p != q
    ensures var g := PathGroups(w.stack, iss); TwoPaths(w, iss, w', Path(p, g[p]), Path(q, g[q]))
    ensures ProperRecvg(w.stack, iss) <==>
      (iss.recvgPc == Top(w.stack).recvgPc || !(Reconverges(Top(w.stack), p) || Reconverges(Top(w.stack), q)))
  {
    TwoGroups(Live(w.stack, iss.done), iss.next, p, q);
  }

  lemma DivergentStep(w: Warp, iss: Issue, w': Warp) returns (first: Path, second: Path)
    requires Shaped(w) && Step(w, iss, w') && |PathGroups(w.stack, iss)| == 2
    ensures Ready(w, iss, w') && TwoPaths(w, iss, w', first, second)
    ensures var top := Top(w.stack); ProperRecvg(w.stack, iss) <==>
      (iss.recvgPc == top.recvgPc || !(Reconverges(top, first.pc) || Reconverges(top, second.pc)))
    ensures w'.stack == Below(w.stack) + AfterDivergence(Top(w.stack), first, second, iss.recvgPc, iss.cycle)
  {
    StepReady(w, iss, w');
    var order := PathOrder(PathGroups(w.stack, iss), iss.NotTakenPc());
    first, second := order[0], order[1];
    PathsOfStep(w, iss, w', first.pc, second.pc);
  }

  /** One update keeps every live thread at the pc of its topmost entry if and only
      if the branch's reconvergence pc is proper; then calls stay covered too. */
  lemma StepCorrect(w: Warp, iss: Issue, w': Warp)
    requires Valid(w) && Step(w, iss, w')
    ensures InWarp(w'.launched, |w'.pcs|) && (ProperRecvg(w.stack, iss) ==> Tracks(w'))
    ensures ProperRecvg(w.stack, iss) <==> Agrees(w'.stack, w'.Alive(), w'.pcs)
  {
    StepReady(w, iss, w');
    var g, top := PathGroups(w.stack, iss), Top(w.stack);
    GroupsCover(Live(w.stack, iss.done), iss.next);
    assert EntryOk(w.stack, |w.stack| - 1);
    if |g| == 0 {
      PopCase(w, iss, w');
    } else {
      var p := PathOrder(g, iss.NotTakenPc())[0].pc;
      if |g| == 1 {
        assert g[p] == Live(w.stack, iss.done);
        if iss.op.CallOp? {
          CallCase(w, iss, w', Entry(p, 0, g[p], NULL_PC, iss.cycle, Call));
        } else if iss.op.RetOp? && top.kind.Call? {
          ReturnCase(w, iss, w', p);
        } else if Reconverges(top, p) {
          PopCase(w, iss, w');
        } else {
          ReplaceCase(w, iss, w', p, g[p]);
        }
      } else {
        var first, second := DivergentStep(w, iss, w');
        if ProperRecvg(w.stack, iss) {
          DivergenceCase(w, iss, w', first, second);
        } else {
          DivergenceBreak(w, iss, w', first, second);
        }
      }
    }
  }

  // ----- calls --------------------------------------------------------------------------

  /** The stronger reading of `CallsCover`: the call entry itself holds them. */
  ghost predicate CallsHoldAll(stack: seq<Entry>, live: set<nat>) {
    forall i | 0 < i < |stack| && stack[i].kind.Call? :: live * stack[i - 1].mask <= stack[i].mask
  }

  /** A branch directly under a call entry that diverges without a reconvergence pc. */
  ghost predicate SplitsCall(stack: seq<Entry>, iss: Issue)
    requires WellPosed(stack, iss)
  {
    Top(stack).kind.Call? && |PathGroups(stack, iss)| == 2 && iss.recvgPc == NULL_PC
  }

  lemma HoldAllReplace(stack: seq<Entry>, xs: seq<Entry>, live: set<nat>, live': set<nat>)
    requires stack != [] && CallsHoldAll(stack, live) && live' <= live
    requires xs != [] ==> xs[0].kind == Top(stack).kind
    requires xs != [] && xs[0].kind.Call? ==> live' * Top(stack).mask <= xs[0].mask
    requires forall i | 0 < i < |xs| && xs[i].kind.Call? :: live' * xs[i - 1].mask <= xs[i].mask
    ensures CallsHoldAll(Below(stack) + xs, live')
  {
    var s, b := Below(stack) + xs, |stack| - 1;
    forall i | 0 < i < |s| && s[i].kind.Call? ensures live' * s[i - 1].mask <= s[i].mask {
      if i <= b {
        assert live * stack[i - 1].mask <= stack[i].mask;
      } else {
        assert xs[i - b].kind.Call?;
      }
    }
  }

  /** A call entry keeps all live threads of its caller unless a branch inside the
      callee diverges without any reconvergence pc. */
  lemma StepCallsHoldAll(w: Warp, iss: Issue, w': Warp)
    requires Shaped(w) && Step(w, iss, w')
    requires CallsHoldAll(w.stack, w.Alive())
    ensures CallsHoldAll(w'.stack, w'.Alive()) <==> !SplitsCall(w.stack, iss)
  {
    StepReady(w, iss, w');
    var g := PathGroups(w.stack, iss);
    GroupsCover(Live(w.stack, iss.done), iss.next);
    if |g| == 0 {
      HoldAllReplace(w.stack, [], w.Alive(), w'.Alive());
      assert Below(w.stack) + [] == w'.stack;
    } else if |g| == 1 {
      var p := PathOrder(g, iss.NotTakenPc())[0].pc;
      assert g[p] == Live(w.stack, iss.done);
      StepOnePathHoldsAll(w, iss, w', p);
    } else {
      var first, second := DivergentStep(w, iss, w');
      DivergenceHoldsAll(w, iss, w', first, second);
    }
  }

  lemma DivergenceHoldsAll(w: Warp, iss: Issue, w': Warp, first: Path, second: Path)
    requires Ready(w, iss, w') && TwoPaths(w, iss, w', first, second)
    requires CallsHoldAll(w.stack, w.Alive())
    requires w'.stack == Below(w.stack) + AfterDivergence(Top(w.stack), first, second, iss.recvgPc, iss.cycle)
    ensures CallsHoldAll(w'.stack, w'.Alive()) <==> !(Top(w.stack).kind.Call? && iss.recvgPc == NULL_PC)
  {
    var top, b := Top(w.stack), |w.stack| - 1;
    assert EntryOk(w.stack, b);
    if top.kind.Call? && iss.recvgPc == NULL_PC {
      var t :| t in second.mask;
      assert w'.stack[b].mask == first.mask;
      assert t in w'.Alive() * w'.stack[b - 1].mask;
    } else {
      var xs := AfterDivergence(top, first, second, iss.recvgPc, iss.cycle);
      HoldAllReplace(w.stack, xs, w.Alive(), w'.Alive());
    }
  }

  lemma StepOnePathHoldsAll(w: Warp, iss: Issue, w': Warp, p: Pc)
    requires Step(w, iss, w') && Ready(w, iss, w')
    requires CallsHoldAll(w.stack, w.Alive())
    requires var g := PathGroups(w.stack, iss);
      |g| == 1 && p == PathOrder(g, iss.NotTakenPc())[0].pc && g[p] == Live(w.stack, iss.done)
    ensures CallsHoldAll(w'.stack, w'.Alive())
  {
    var g, top := PathGroups(w.stack, iss), Top(w.stack);
    var below := Below(w.stack);
    if iss.op.CallOp? {
      var xs := [top, Entry(p, 0, g[p], NULL_PC, iss.cycle, Call)];
      HoldAllReplace(w.stack, xs, w.Alive(), w'.Alive());
      assert below + xs == w'.stack;
    } else if iss.op.RetOp? && top.kind.Call? {
      assert EntryOk(w.stack, |w.stack| - 1);
      HoldAllReplace(w.stack, [], w.Alive(), w'.Alive());
      assert below + [] == below;
      var xs := if Reconverges(Top(below), p) then [] else [Top(below).(pc := p)];
      HoldAllReplace(below, xs, w'.Alive(), w'.Alive());
      assert Below(below) + xs == w'.stack;
    } else {
      var xs := if Reconverges(top, p) then [] else [top.(pc := p, mask := g[p])];
      HoldAllReplace(w.stack, xs, w.Alive(), w'.Alive());
      assert below + xs == w'.stack;
    }
  }

  // ----- runs ----------------------------------------------------------------------------

  ghost predicate Launched(w: Warp) {
    && w.launched != {} && InWarp(w.launched, |w.pcs|) && w.launched !! w.done
    && |w.stack| == 1
    && var e := w.stack[0];
       e == Entry(e.pc, 1, w.launched, NULL_PC, 0, Normal) && forall t | t in w.launched :: w.pcs[t] == e.pc
  }

  ghost predicate IsRun(ws: seq<Warp>, issues: seq<Issue>) {
    && |ws| == |issues| + 1
    && Launched(ws[0])
    && forall i | 0 <= i < |issues| :: Step(ws[i], issues[i], ws[i + 1])
  }

  /** Step `i` of a run. */
  lemma StepOfRun(ws: seq<Warp>, issues: seq<Issue>, i: nat) returns (w: Warp, iss: Issue, w': Warp)
    requires IsRun(ws, issues) && i < |issues|
    ensures w == ws[i] && iss == issues[i] && w' == ws[i + 1] && Step(w, iss, w')
  {
    w, iss, w' := ws[i], issues[i], ws[i + 1];
  }

  ghost predicate ProperAt(ws: seq<Warp>, issues: seq<Issue>, i: nat)
    requires IsRun(ws, issues) && i < |issues|
  {
    assert Step(ws[i], issues[i], ws[i + 1]);
    ProperRecvg(ws[i].stack, issues[i])
  }

  ghost predicate AgreesAt(ws: seq<Warp>, i: nat)
    requires i < |ws|
  {
    InWarp(ws[i].Alive(), |ws[i].pcs|) && Agrees(ws[i].stack, ws[i].Alive(), ws[i].pcs)
  }

  /** Every reachable stack is laminar, proper reconvergence pcs or not. */
  lemma {:induction false} RunShaped(ws: seq<Warp>, issues: seq<Issue>, i: nat)
    requires IsRun(ws, issues) && i < |ws|
    ensures Shaped(ws[i])
  {
    if i > 0 {
      RunShaped(ws, issues, i - 1);
      assert Step(ws[i - 1], issues[i - 1], ws[i]);
      StepShaped(ws[i - 1], issues[i - 1], ws[i]);
    }
  }

  lemma LaunchTracks(w: Warp)
    requires Launched(w)
    ensures Tracks(w)
  {
    forall t | t in w.Alive() ensures Holder(w.stack, t) == 0 {
      HolderIs(w.stack, t, 0);
    }
  }

  lemma {:induction false} RunTracks(ws: seq<Warp>, issues: seq<Issue>, i: nat)
    requires IsRun(ws, issues) && i < |ws|
    requires forall k: nat | k < i :: ProperAt(ws, issues, k)
    ensures InWarp(ws[i].launched, |ws[i].pcs|) && Tracks(ws[i])
  {
    if i == 0 {
      LaunchTracks(ws[0]);
    } else {
      RunTracks(ws, issues, i - 1);
      RunShaped(ws, issues, i - 1);
      assert Step(ws[i - 1], issues[i - 1], ws[i]) && ProperAt(ws, issues, i - 1);
      StepCorrect(ws[i - 1], issues[i - 1], ws[i]);
    }
  }

  /** Whole runs: stack and threads agree at every point of the run if and only if
      every executed branch had a proper reconvergence pc. */
  lemma RunAgrees(ws: seq<Warp>, issues: seq<Issue>)
    requires IsRun(ws, issues)
    ensures (forall i: nat | i < |ws| :: AgreesAt(ws, i)) <==> (forall i: nat | i < |issues| :: ProperAt(ws, issues, i))
  {
    if forall i: nat | i < |issues| :: ProperAt(ws, issues, i) {
      forall i: nat | i < |ws| ensures AgreesAt(ws, i) {
        RunTracks(ws, issues, i);
      }
    } else {
      var k :| 0 <= k < |issues| && !ProperAt(ws, issues, k);
      var i := FirstImproper(ws, issues, k);
      RunTracks(ws, issues, i);
      RunShaped(ws, issues, i);
      assert Step(ws[i], issues[i], ws[i + 1]);
      StepCorrect(ws[i], issues[i], ws[i + 1]);
      assert !AgreesAt(ws, i + 1);
    }
  }

  lemma {:induction false} FirstImproper(ws: seq<Warp>, issues: seq<Issue>, k: nat) returns (i: nat)
    requires IsRun(ws, issues) && k < |issues| && !ProperAt(ws, issues, k)
    ensures i <= k && !ProperAt(ws, issues, i) && forall j: nat | j < i :: ProperAt(ws, issues, j)
  {
    if j: nat :| j < k && !ProperAt(ws, issues, j) {
      i := FirstImproper(ws, issues, j);
    } else {
      i := k;
    }
  }

  ghost predicate SplitsAt(ws: seq<Warp>, issues: seq<Issue>, i: nat)
    requires IsRun(ws, issues) && i < |issues|
  {
    assert Step(ws[i], issues[i], ws[i + 1]);
    SplitsCall(ws[i].stack, issues[i])
  }

  ghost predicate HoldsAllAt(ws: seq<Warp>, i: nat)
    requires i < |ws|
  {
    CallsHoldAll(ws[i].stack, ws[i].Alive())
  }

  lemma HoldsAllNext(ws: seq<Warp>, issues: seq<Issue>, i: nat)
    requires IsRun(ws, issues) && i < |issues| && HoldsAllAt(ws, i)
    ensures HoldsAllAt(ws, i + 1) <==> !SplitsAt(ws, issues, i)
  {
    RunShaped(ws, issues, i);
    var w, iss, w' := StepOfRun(ws, issues, i);
    StepCallsHoldAll(w, iss, w');
  }

  lemma {:induction false} RunHoldsAllUpTo(ws: seq<Warp>, issues: seq<Issue>, i: nat)
    requires IsRun(ws, issues) && i < |ws|
    requires forall k: nat | k < i :: !SplitsAt(ws, issues, k)
    ensures HoldsAllAt(ws, i)
  {
    if i > 0 {
      RunHoldsAllUpTo(ws, issues, i - 1);
      HoldsAllNext(ws, issues, i - 1);
    }
  }

  /** Whole runs: call entries hold all live threads of their callers at every point if and
      only if no branch directly under a call diverges without a reconvergence pc. */
  lemma RunCallsHoldAll(ws: seq<Warp>, issues: seq<Issue>)
    requires IsRun(ws, issues)
    ensures (forall i: nat | i < |ws| :: HoldsAllAt(ws, i)) <==>
      (forall i: nat | i < |issues| :: !SplitsAt(ws, issues, i))
  {
    if forall i: nat | i < |issues| :: !SplitsAt(ws, issues, i) {
      forall i: nat | i < |ws| ensures HoldsAllAt(ws, i) {
        RunHoldsAllUpTo(ws, issues, i);
      }
    } else {
      var i: nat :| i < |issues| && SplitsAt(ws, issues, i);
      if HoldsAllAt(ws, i) {
        HoldsAllNext(ws, issues, i);
      }
    }
  }

  /** The asserts of `update` hold in every valid state: while a thread is alive the
      stack is not empty, its top mask is not empty, and a call entry has a caller
      whose return pc can be set. */
  lemma UpdateNeverFaults(w: Warp, t: nat)
    requires Valid(w) && t in w.Alive()
    ensures w.stack != [] && Top(w.stack).mask != {}
    ensures Top(w.stack).kind.Call? ==> |w.stack| > 1
    ensures t in Top(w.stack).mask ==> Top(w.stack).pc == w.pcs[t]
  {
    assert Holder(w.stack, t) >= 0;
    assert EntryOk(w.stack, |w.stack| - 1);
  }
}
