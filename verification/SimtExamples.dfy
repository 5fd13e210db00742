/** Concrete runs that break what only holds under a condition. */
module SimtExamples {
  import opened OrderedKeys
  import opened SimtStacks
  import opened SimtInvariant
  import opened SimtShape
  import opened SimtRuns
  import opened ControlFlow
  import opened SimtFlow
  import opened SimtExit

  /** A branch with two paths, `first` being the one handled first. */
  ghost predicate Branches(stack: seq<Entry>, iss: Issue, first: Path, second: Path) {
    && WellPosed(stack, iss) && iss.op.OtherOp?
    && first.mask != {} && second.mask != {} && first.mask + second.mask == Live(stack, iss.done)
    && (forall t | t in first.mask :: iss.next[t] == first.pc)
    && (forall t | t in second.mask :: iss.next[t] == second.pc)
    && (iss.NotTakenPc() == first.pc != second.pc || (first.pc < second.pc && iss.NotTakenPc() != second.pc))
  }

  lemma BranchResult(stack: seq<Entry>, iss: Issue, first: Path, second: Path)
    requires Branches(stack, iss, first, second)
    ensures Uniform(stack, iss) && |PathGroups(stack, iss)| == 2
    ensures PathGroups(stack, iss).Keys == {first.pc, second.pc}
    ensures UpdateSpec(stack, iss) ==
      Below(stack) + AfterDivergence(Top(stack), first, second, iss.recvgPc, iss.cycle)
  {
    var g := PathGroups(stack, iss);
    var t :| t in first.mask;
    var u :| u in second.mask;
    assert iss.next[t] == first.pc && iss.next[u] == second.pc;
    assert g.Keys == {first.pc, second.pc};
    assert g[first.pc] == first.mask && g[second.pc] == second.mask;
    var p := FirstPath(g.Keys, iss.NotTakenPc());
    assert p == first.pc;
    assert g.Keys - {p} == {second.pc};
  }

  /** All threads are launched and alive, and each moves to its next pc. */
  lemma BranchStep(w: Warp, iss: Issue, w': Warp, first: Path, second: Path)
    requires Branches(w.stack, iss, first, second)
    requires w' == Warp(Below(w.stack) + AfterDivergence(Top(w.stack), first, second, iss.recvgPc, iss.cycle),
                        iss.next, {}, w.launched)
    requires iss.done == w.done == {} && |w.pcs| == |iss.next|
    requires forall t: nat | t < |w.pcs| && t !in Top(w.stack).mask :: iss.next[t] == w.pcs[t]
    ensures Step(w, iss, w') && PathGroups(w.stack, iss).Keys == {first.pc, second.pc}
  {
    BranchResult(w.stack, iss, first, second);
  }

  // ----- an improper reconvergence pc ---------------------------------------------------------

  const ALL: set<nat> := {0, 1, 2}
  const OUTER := Entry(30, 1, ALL, NULL_PC, 0, Normal)
  const INNER := Entry(20, 0, {1, 2}, 30, 0, Normal)
  const START := Warp([OUTER.(pc := 10)], [10, 10, 10], {}, ALL)
  const SPLIT := Warp([OUTER, INNER], [30, 20, 20], {}, ALL)
  const LOST := Warp([OUTER, INNER.(pc := 40), Entry(24, 0, {2}, 40, 0, Normal)] , [30, 30, 24], {}, ALL)
  const TO_SPLIT := Issue({}, [30, 20, 20], 30, OtherOp, 4, 10, 0)
  const TO_LOST := Issue({}, [30, 30, 24], 40, OtherOp, 4, 20, 0)

  lemma SplitStep()
    ensures Step(START, TO_SPLIT, SPLIT)
  {
    var first, second := Path(20, {1, 2}), Path(30, {0});
    assert Live(START.stack, {}) == first.mask + second.mask;
    assert AfterDivergence(Top(START.stack), first, second, 30, 0) == SPLIT.stack;
    BranchStep(START, TO_SPLIT, SPLIT, first, second);
  }

  lemma LostStep()
    ensures Step(SPLIT, TO_LOST, LOST)
  {
    var first, second := Path(24, {2}), Path(30, {1});
    assert Live(SPLIT.stack, {}) == first.mask + second.mask;
    assert AfterDivergence(INNER, first, second, 40, 0) == LOST.stack[1..];
    assert Below(SPLIT.stack) == [OUTER] && [OUTER] + LOST.stack[1..] == LOST.stack;
    BranchStep(SPLIT, TO_LOST, LOST, first, second);
  }

  lemma LaunchIsRun(w: Warp)
    requires Launched(w)
    ensures IsRun([w], [])
  {
  }

  lemma ExtendRun(ws: seq<Warp>, issues: seq<Issue>, iss: Issue, w: Warp)
    requires IsRun(ws, issues) && Step(ws[|issues|], iss, w)
    ensures IsRun(ws + [w], issues + [iss])
  {
    var ws', issues' := ws + [w], issues + [iss];
    forall i: nat | i < |issues'| ensures Step(ws'[i], issues'[i], ws'[i + 1]) {
      if i < |issues| {
        var v, k, v' := StepOfRun(ws, issues, i);
        assert ws'[i] == v && issues'[i] == k && ws'[i + 1] == v';
      } else {
        assert ws'[i] == ws[|issues|] && issues'[i] == iss && ws'[i + 1] == w;
      }
    }
  }

  lemma Disagrees(w: Warp, t: nat, i: nat)
    requires t in w.Alive() && t < |w.pcs| && i < |w.stack| && t in w.stack[i].mask
    requires (forall j | i < j < |w.stack| :: t !in w.stack[j].mask) && w.stack[i].pc != w.pcs[t]
    ensures !(InWarp(w.Alive(), |w.pcs|) && Agrees(w.stack, w.Alive(), w.pcs))
  {
    HolderIs(w.stack, t, i);
  }

  lemma ImproperRun()
    ensures IsRun([START, SPLIT] + [LOST], [TO_SPLIT] + [TO_LOST])
  {
    LaunchIsRun(START);
    SplitStep();
    ExtendRun([START], [], TO_SPLIT, SPLIT);
    assert [START] + [SPLIT] == [START, SPLIT] && [] + [TO_SPLIT] == [TO_SPLIT];
    LostStep();
    ExtendRun([START, SPLIT], [TO_SPLIT], TO_LOST, LOST);
  }

  /** Thread 0 waits at 30 for the other two; then thread 1 jumps to 30 while thread 2 goes
      to 24 on a branch said to reconverge at 40: thread 1 ends up under pc 40. */
  lemma ImproperExample() returns (ws: seq<Warp>, issues: seq<Issue>)
    ensures IsRun(ws, issues) && |ws| == 3 && !AgreesAt(ws, 2)
  {
    ws, issues := [START, SPLIT] + [LOST], [TO_SPLIT] + [TO_LOST];
    ImproperRun();
    Disagrees(LOST, 1, 1);
  }

  // ----- a split call -----------------------------------------------------------------------------

  const PAIR: set<nat> := {0, 1}
  const CALLER := Entry(10, 1, PAIR, NULL_PC, 0, Normal)
  const BEFORE := Warp([CALLER], [10, 10], {}, PAIR)
  const CALLED := Warp([CALLER, Entry(50, 0, PAIR, NULL_PC, 0, Call)], [50, 50], {}, PAIR)
  const HALVED := Warp([CALLER, Entry(54, 0, {0}, NULL_PC, 0, Call), Entry(60, 0, {1}, NULL_PC, 0, Normal)],
                       [54, 60], {}, PAIR)
  const TO_CALLED := Issue({}, [50, 50], NULL_PC, CallOp, 4, 10, 0)
  const TO_HALVED := Issue({}, [54, 60], NULL_PC, OtherOp, 4, 50, 0)

  lemma CalledStep()
    ensures Step(BEFORE, TO_CALLED, CALLED)
  {
    var live := Live(BEFORE.stack, {});
    assert 0 in live && TO_CALLED.next[0] == 50;
    var g := PathGroups(BEFORE.stack, TO_CALLED);
    assert g.Keys == {50} && g[50] == PAIR;
    assert FirstPath({50}, TO_CALLED.NotTakenPc()) == 50;
  }

  lemma HalvedStep()
    ensures Step(CALLED, TO_HALVED, HALVED)
  {
    var first, second := Path(54, {0}), Path(60, {1});
    assert Live(CALLED.stack, {}) == first.mask + second.mask;
    assert AfterDivergence(Top(CALLED.stack), first, second, NULL_PC, 0) == HALVED.stack[1..];
    assert Below(CALLED.stack) == [CALLER] && [CALLER] + HALVED.stack[1..] == HALVED.stack;
    BranchStep(CALLED, TO_HALVED, HALVED, first, second);
  }

  lemma SplitCallRun()
    ensures IsRun([BEFORE, CALLED] + [HALVED], [TO_CALLED] + [TO_HALVED])
  {
    LaunchIsRun(BEFORE);
    CalledStep();
    ExtendRun([BEFORE], [], TO_CALLED, CALLED);
    assert [BEFORE] + [CALLED] == [BEFORE, CALLED] && [] + [TO_CALLED] == [TO_CALLED];
    HalvedStep();
    ExtendRun([BEFORE, CALLED], [TO_CALLED], TO_HALVED, HALVED);
  }

  /** Both threads call; a branch without a reconvergence pc then leaves only thread 0 in the
      call entry. */
  lemma SplitCallExample() returns (ws: seq<Warp>, issues: seq<Issue>)
    ensures IsRun(ws, issues) && |ws| == 3 && !HoldsAllAt(ws, 2)
  {
    ws, issues := [BEFORE, CALLED] + [HALVED], [TO_CALLED] + [TO_HALVED];
    SplitCallRun();
    assert HALVED.stack[1].kind.Call? && 1 in HALVED.Alive() * HALVED.stack[0].mask;
  }

  // ----- a finished thread in the top entry -----------------------------------------------------------

  const MERGE := Entry(30, 1, PAIR, NULL_PC, 0, Normal)
  const TAKEN := Entry(20, 0, {0}, 30, 0, Normal)
  const FALLEN := Entry(14, 0, {1}, 30, 0, Normal)
  const FORKED := Warp([MERGE, FALLEN, TAKEN], [20, 14], {}, PAIR)
  const EXITED := Warp([MERGE, FALLEN], [20, 14], {0}, PAIR)
  const MIXED := Warp([MERGE], [20, 30], {0}, PAIR)
  const TO_FORKED := Issue({}, [20, 14], 30, OtherOp, 4, 10, 0)
  const TO_EXITED := Issue({0}, [NULL_PC, 14], NULL_PC, OtherOp, 4, 20, 0)
  const TO_MIXED := Issue({0}, [NULL_PC, 30], NULL_PC, OtherOp, 4, 14, 0)

  lemma ForkedStep()
    ensures Step(BEFORE, TO_FORKED, FORKED)
  {
    var first, second := Path(14, {1}), Path(20, {0});
    assert Live(BEFORE.stack, {}) == first.mask + second.mask;
    assert AfterDivergence(Top(BEFORE.stack), first, second, 30, 0) == FORKED.stack;
    BranchStep(BEFORE, TO_FORKED, FORKED, first, second);
  }

  lemma ExitedStep()
    ensures Step(FORKED, TO_EXITED, EXITED)
  {
    assert Live(FORKED.stack, {0}) == {};
    assert PathGroups(FORKED.stack, TO_EXITED) == map[];
  }

  lemma MixedStep()
    ensures Step(EXITED, TO_MIXED, MIXED)
  {
    var live := Live(EXITED.stack, {0});
    assert 1 in live && TO_MIXED.next[1] == 30;
    var g := PathGroups(EXITED.stack, TO_MIXED);
    assert g.Keys == {30} && g[30] == {1};
    assert FirstPath({30}, TO_MIXED.NotTakenPc()) == 30;
  }

  lemma ExitedRun()
    ensures IsRun(([BEFORE] + [FORKED]) + [EXITED], ([] + [TO_FORKED]) + [TO_EXITED])
  {
    DiamondRun();
    ExitedStep();
    ExtendRun([BEFORE] + [FORKED], [] + [TO_FORKED], TO_EXITED, EXITED);
  }

  lemma FinishedRun()
    ensures IsRun((([BEFORE] + [FORKED]) + [EXITED]) + [MIXED], (([] + [TO_FORKED]) + [TO_EXITED]) + [TO_MIXED])
  {
    ExitedRun();
    MixedStep();
    ExtendRun(([BEFORE] + [FORKED]) + [EXITED], ([] + [TO_FORKED]) + [TO_EXITED], TO_MIXED, MIXED);
  }

  /** Thread 0 exits inside a branch said to reconverge at 30. When thread 1 gets there, the
      entry at 30 is issued for both, which is an error for thread 0. */
  lemma FinishedIssuedExample() returns (ws: seq<Warp>, issues: seq<Issue>)
    ensures IsRun(ws, issues) && |ws| == 4
    ensures var w := ws[3]; w.stack != [] && 1 in Top(w.stack).mask * w.Alive() && 0 in Top(w.stack).mask * w.done
  {
    ws, issues := (([BEFORE] + [FORKED]) + [EXITED]) + [MIXED], (([] + [TO_FORKED]) + [TO_EXITED]) + [TO_MIXED];
    FinishedRun();
  }

  // ----- a kernel that keeps all conditions ------------------------------------------------------------

  /** A branch at 10, its two sides at 14 and 20, and the join at 30. */
  const DIAMOND := Cfg(map[10 := {14, 20}, 14 := {30}, 20 := {30}, 30 := {}], {30}, 0)

  lemma DiamondIsWellFormed()
    ensures ControlFlow.WellFormed(DIAMOND)
  {
    var g := DIAMOND;
    assert IsExitPath(g, [30], 30) && IsExitPath(g, [14, 30], 14);
    assert IsExitPath(g, [20, 30], 20) && IsExitPath(g, [10, 14, 30], 10);
  }

  lemma JoinPostdominates(path: seq<Pc>)
    requires IsExitPath(DIAMOND, path, 10)
    ensures 30 in path
  {
    assert path[|path| - 1] == 30;
  }

  lemma JoinIsImmediate()
    ensures IsImmediate(DIAMOND, 30, 10)
  {
    var g := DIAMOND;
    forall path | IsExitPath(g, path, 10) ensures 30 in path {
      JoinPostdominates(path);
    }
    assert IsExitPath(g, [10, 14, 30], 10) && IsExitPath(g, [10, 20, 30], 10);
    forall q | StrictlyPostdominates(g, q, 10) ensures Postdominates(g, q, 30) {
      assert q in [10, 14, 30] && q in [10, 20, 30];
      forall path | IsExitPath(g, path, 30) ensures q in path {
        assert path[0] == 30;
      }
    }
  }

  lemma DiamondRun()
    ensures IsRun([BEFORE] + [FORKED], [] + [TO_FORKED]) && Step(BEFORE, TO_FORKED, FORKED)
  {
    LaunchIsRun(BEFORE);
    ForkedStep();
    ExtendRun([BEFORE], [], TO_FORKED, FORKED);
  }

  /** The branch of the diamond, with its immediate post-dominator, is a kernel run. */
  lemma KernelExample()
    ensures IsKernel(DIAMOND, [BEFORE, FORKED], [TO_FORKED])
  {
    DiamondRun();
    assert [BEFORE] + [FORKED] == [BEFORE, FORKED] && [] + [TO_FORKED] == [TO_FORKED];
    DiamondIsWellFormed();
    JoinIsImmediate();
    DiamondStep();
    OneStepKernel(DIAMOND, BEFORE, TO_FORKED, FORKED);
  }

  lemma OneStepKernel(g: Cfg, w: Warp, iss: Issue, w': Warp)
    requires ControlFlow.WellFormed(g) && IsRun([w, w'], [iss]) && Step(w, iss, w')
    requires Follows(g, w.stack, iss) && KernelStep(g, w, iss, w')
    ensures IsKernel(g, [w, w'], [iss])
  {
  }

  lemma DiamondStep()
    requires Step(BEFORE, TO_FORKED, FORKED) && IsImmediate(DIAMOND, 30, 10)
    ensures Follows(DIAMOND, BEFORE.stack, TO_FORKED) && KernelStep(DIAMOND, BEFORE, TO_FORKED, FORKED)
  {
  }

  /** A kernel that starts at pc 0, with a branch at 8 whose sides both finish: the branch
      reconverges at the exit, whose pc is 0 too. */
  const OPEN := Cfg(map[0 := {8}, 8 := {16, 24}, 16 := {}, 24 := {}], {16, 24}, 0)

  lemma OpenExample()
    ensures ControlFlow.WellFormed(OPEN) && IsReconvergence(OPEN, 0, 8)
  {
    var g := OPEN;
    assert IsExitPath(g, [16], 16) && IsExitPath(g, [24], 24);
    assert IsExitPath(g, [8, 16], 8) && IsExitPath(g, [8, 24], 8) && IsExitPath(g, [0, 8, 16], 0);
    assert forall q :: q == 8 || q !in [8, 16] || q !in [8, 24];
  }
}
