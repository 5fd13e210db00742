/** Runs along control flow graphs that jump to the pc that stands for the exit, and a run with
    the return pc of a foreign thread. */
module SimtFlowExamples {
  import opened OrderedKeys
  import opened SimtStacks
  import opened SimtInvariant
  import opened SimtShape
  import opened SimtRuns
  import opened ControlFlow
  import opened SimtFlow
  import opened SimtExit
  import opened SimtExamples
  import opened WarpCore

  // ----- steps --------------------------------------------------------------------------------------

  /** All live threads of the top entry go to one pc. */
  lemma OnePath(stack: seq<Entry>, iss: Issue, pc: Pc, mask: set<nat>)
    requires WellPosed(stack, iss) && mask == Live(stack, iss.done) && mask != {}
    requires forall t | t in mask :: iss.next[t] == pc
    ensures Uniform(stack, iss) && PathGroups(stack, iss).Keys == {pc}
    ensures PathOrder(PathGroups(stack, iss), iss.NotTakenPc()) == [Path(pc, mask)]
  {
    var g := PathGroups(stack, iss);
    var t :| t in mask;
    assert iss.next[t] == pc;
    assert g.Keys == {pc} && g[pc] == mask;
    assert FirstPath({pc}, iss.NotTakenPc()) == pc;
  }

  /** They move on, nobody having finished. */
  lemma MoveStep(w: Warp, iss: Issue, w': Warp, pc: Pc)
    requires WellPosed(w.stack, iss) && !iss.op.CallOp? && Top(w.stack).kind.Normal?
    requires iss.done == w.done == {} && |w.pcs| == |iss.next| && pc != Top(w.stack).recvgPc
    requires forall t | t in Top(w.stack).mask :: iss.next[t] == pc
    requires forall t: nat | t < |w.pcs| && t !in Top(w.stack).mask :: iss.next[t] == w.pcs[t]
    requires w' == Warp(Below(w.stack) + [Top(w.stack).(pc := pc)], iss.next, {}, w.launched)
    ensures Step(w, iss, w')
  {
    var mask := Live(w.stack, iss.done);
    assert mask == Top(w.stack).mask;
    OnePath(w.stack, iss, pc, mask);
  }

  lemma CallStep(w: Warp, iss: Issue, w': Warp, pc: Pc)
    requires WellPosed(w.stack, iss) && iss.op.CallOp? && iss.done == w.done == {} && |w.pcs| == |iss.next|
    requires forall t | t in Top(w.stack).mask :: iss.next[t] == pc
    requires forall t: nat | t < |w.pcs| && t !in Top(w.stack).mask :: iss.next[t] == w.pcs[t]
    requires w' == Warp(w.stack + [Entry(pc, 0, Top(w.stack).mask, NULL_PC, iss.cycle, Call)], iss.next, {}, w.launched)
    ensures Step(w, iss, w')
  {
    var mask := Live(w.stack, iss.done);
    assert mask == Top(w.stack).mask;
    OnePath(w.stack, iss, pc, mask);
  }

  // ----- runs along a graph ---------------------------------------------------------------------------

  ghost predicate RunsAlong(g: Cfg, ws: seq<Warp>, issues: seq<Issue>) {
    IsRun(ws, issues) && forall i: nat | i < |issues| :: FollowsAt(g, ws, issues, i)
  }

  lemma LaunchAlong(g: Cfg, w: Warp)
    requires Launched(w)
    ensures RunsAlong(g, [w], [])
  {
    LaunchIsRun(w);
  }

  lemma ExtendAlong(g: Cfg, ws: seq<Warp>, issues: seq<Issue>, iss: Issue, w: Warp)
    requires RunsAlong(g, ws, issues) && Step(ws[|issues|], iss, w) && Follows(g, ws[|issues|].stack, iss)
    ensures RunsAlong(g, ws + [w], issues + [iss])
  {
    ExtendRun(ws, issues, iss, w);
    var ws', issues' := ws + [w], issues + [iss];
    forall i: nat | i < |issues'| ensures FollowsAt(g, ws', issues', i) {
      if i < |issues| {
        assert FollowsAt(g, ws, issues, i) && ws'[i] == ws[i] && issues'[i] == issues[i];
      } else {
        assert ws'[i] == ws[|issues|] && issues'[i] == iss;
      }
    }
  }

  ghost predicate KernelAlong(g: Cfg, ws: seq<Warp>, issues: seq<Issue>) {
    RunsAlong(g, ws, issues) && forall i: nat | i < |issues| :: KernelAt(g, ws, issues, i)
  }

  lemma ExtendKernel(g: Cfg, ws: seq<Warp>, issues: seq<Issue>, iss: Issue, w: Warp)
    requires KernelAlong(g, ws, issues) && Step(ws[|issues|], iss, w)
    requires Follows(g, ws[|issues|].stack, iss) && KernelStep(g, ws[|issues|], iss, w)
    ensures KernelAlong(g, ws + [w], issues + [iss])
  {
    ExtendAlong(g, ws, issues, iss, w);
    var ws', issues' := ws + [w], issues + [iss];
    forall i: nat | i < |issues'| ensures KernelAt(g, ws', issues', i) {
      if i < |issues| {
        assert KernelAt(g, ws, issues, i) && ws'[i] == ws[i] && issues'[i] == issues[i] && ws'[i + 1] == ws[i + 1];
      } else {
        assert ws'[i] == ws[|issues|] && issues'[i] == iss && ws'[i + 1] == w;
      }
    }
  }

  // ----- a jump back to pc 0 ----------------------------------------------------------------------------

  /** A kernel at pc 0 that can leave at 16 and 28, with a branch at 24 that goes to 28 or back
      to 0. Neither branch has a post-dominator, so both reconverge at the exit, pc 0. */
  const JUMPING := Cfg(map[0 := {8}, 8 := {16, 24}, 24 := {28, 0}, 16 := {}, 28 := {}], {16, 28}, 0)
  const ROOT := Entry(0, 1, PAIR, NULL_PC, 0, Normal)
  const LEAVING := Entry(28, 0, {0}, 0, 0, Normal)
  const JUMP0 := Warp([ROOT], [0, 0], {}, PAIR)
  const JUMP1 := Warp([ROOT.(pc := 8)], [8, 8], {}, PAIR)
  const JUMP2 := Warp([ROOT.(pc := 24)], [24, 24], {}, PAIR)
  const JUMP3 := Warp([ROOT, LEAVING], [28, 0], {}, PAIR)
  const JUMP4 := Warp([ROOT], [28, 0], {0}, PAIR)
  const TO_JUMP1 := Issue({}, [8, 8], NULL_PC, OtherOp, 8, 0, 0)
  const TO_JUMP2 := Issue({}, [24, 24], 0, OtherOp, 8, 8, 0)
  const TO_JUMP3 := Issue({}, [28, 0], 0, OtherOp, 4, 24, 0)
  const TO_JUMP4 := Issue({0}, [NULL_PC, 0], NULL_PC, OtherOp, 4, 28, 0)

  lemma JumpingReconverges()
    ensures IsReconvergence(JUMPING, 0, 24)
  {
    var g := JUMPING;
    assert IsExitPath(g, [24, 28], 24) && IsExitPath(g, [24, 0, 8, 16], 24);
    assert forall q :: q == 24 || q !in [24, 28] || q !in [24, 0, 8, 16];
  }

  lemma JumpingIsWellFormed()
    ensures ControlFlow.WellFormed(JUMPING)
  {
    var g := JUMPING;
    JumpingReconverges();
    assert IsExitPath(g, [16], 16) && IsExitPath(g, [28], 28) && IsExitPath(g, [24, 28], 24);
    assert IsExitPath(g, [8, 16], 8) && IsExitPath(g, [0, 8, 16], 0);
    assert forall p | Edge(g, p, 0) :: p == 24;
  }

  lemma JumpStep1()
    ensures Step(JUMP0, TO_JUMP1, JUMP1) && Follows(JUMPING, JUMP0.stack, TO_JUMP1)
    ensures KernelStep(JUMPING, JUMP0, TO_JUMP1, JUMP1)
  {
    MoveStep(JUMP0, TO_JUMP1, JUMP1, 8);
    OnePath(JUMP0.stack, TO_JUMP1, 8, Live(JUMP0.stack, {}));
  }

  lemma JumpStep2()
    ensures Step(JUMP1, TO_JUMP2, JUMP2) && Follows(JUMPING, JUMP1.stack, TO_JUMP2)
    ensures KernelStep(JUMPING, JUMP1, TO_JUMP2, JUMP2)
  {
    MoveStep(JUMP1, TO_JUMP2, JUMP2, 24);
    OnePath(JUMP1.stack, TO_JUMP2, 24, Live(JUMP1.stack, {}));
  }

  lemma JumpStep3()
    ensures Step(JUMP2, TO_JUMP3, JUMP3) && Follows(JUMPING, JUMP2.stack, TO_JUMP3)
    ensures KernelStep(JUMPING, JUMP2, TO_JUMP3, JUMP3)
  {
    var first, second := Path(28, {0}), Path(0, {1});
    assert Live(JUMP2.stack, {}) == first.mask + second.mask;
    assert AfterDivergence(Top(JUMP2.stack), first, second, 0, 0) == JUMP3.stack;
    BranchStep(JUMP2, TO_JUMP3, JUMP3, first, second);
    JumpingReconverges();
  }

  lemma JumpStep4()
    ensures Step(JUMP3, TO_JUMP4, JUMP4) && Follows(JUMPING, JUMP3.stack, TO_JUMP4)
    ensures KernelStep(JUMPING, JUMP3, TO_JUMP4, JUMP4)
  {
    assert Live(JUMP3.stack, {0}) == {};
    assert PathGroups(JUMP3.stack, TO_JUMP4) == map[];
  }

  lemma JumpRun1() returns (ws: seq<Warp>, issues: seq<Issue>)
    ensures KernelAlong(JUMPING, ws, issues) && |issues| == 1 && ws[1] == JUMP1
  {
    LaunchAlong(JUMPING, JUMP0);
    ws, issues := [JUMP0], [];
    JumpStep1();
    ExtendKernel(JUMPING, ws, issues, TO_JUMP1, JUMP1);
    ws, issues := ws + [JUMP1], issues + [TO_JUMP1];
  }

  lemma JumpRun2() returns (ws: seq<Warp>, issues: seq<Issue>)
    ensures KernelAlong(JUMPING, ws, issues) && |issues| == 2 && ws[2] == JUMP2
  {
    ws, issues := JumpRun1();
    JumpStep2();
    ExtendKernel(JUMPING, ws, issues, TO_JUMP2, JUMP2);
    ws, issues := ws + [JUMP2], issues + [TO_JUMP2];
  }

  lemma JumpRun3() returns (ws: seq<Warp>, issues: seq<Issue>)
    ensures KernelAlong(JUMPING, ws, issues) && |issues| == 3 && ws[3] == JUMP3
  {
    ws, issues := JumpRun2();
    JumpStep3();
    ExtendKernel(JUMPING, ws, issues, TO_JUMP3, JUMP3);
    ws, issues := ws + [JUMP3], issues + [TO_JUMP3];
  }

  lemma JumpRun() returns (ws: seq<Warp>, issues: seq<Issue>)
    ensures KernelAlong(JUMPING, ws, issues) && |issues| == 4 && ws[4] == JUMP4
  {
    ws, issues := JumpRun3();
    JumpStep4();
    ExtendKernel(JUMPING, ws, issues, TO_JUMP4, JUMP4);
    ws, issues := ws + [JUMP4], issues + [TO_JUMP4];
  }

  /** Thread 1 jumps back to 0, where the launch entry waits for the exit; thread 0 finishes. The
      launch entry is then issued for both, which is an error for thread 0. */
  lemma JumpToExitExample() returns (ws: seq<Warp>, issues: seq<Issue>)
    ensures IsKernel(JUMPING, ws, issues) && !NoJumpToExit(JUMPING) && |issues| == 4
    ensures var w := ws[4]; w.stack != [] && 1 in Top(w.stack).mask * w.Alive() && 0 in Top(w.stack).mask * w.done
  {
    ws, issues := JumpRun();
    JumpingIsWellFormed();
    assert Edge(JUMPING, 24, 0);
  }

  // ----- a branch to pc 0 that reconverges elsewhere ------------------------------------------------------

  /** A kernel at pc 0 that can leave at 16 and 28. The branch at 24 goes to 0 or 32, both of which
      lead to 8, where it reconverges; the branch at 8 reconverges at the exit, pc 0. */
  const UNFIT := Cfg(
    map[0 := {8}, 8 := {16, 20}, 16 := {}, 20 := {24, 28}, 28 := {}, 24 := {0, 32}, 32 := {8}], {16, 28}, 0)
  const BASE := Entry(0, 1, ALL, NULL_PC, 0, Normal)
  const LEFT := Entry(16, 0, {0}, 0, 0, Normal)
  const RIGHT := Entry(20, 0, {1, 2}, 0, 0, Normal)
  const UNFIT0 := Warp([BASE], [0, 0, 0], {}, ALL)
  const UNFIT1 := Warp([BASE.(pc := 8)], [8, 8, 8], {}, ALL)
  const UNFIT2 := Warp([BASE, LEFT, RIGHT], [16, 20, 20], {}, ALL)
  const UNFIT3 := Warp([BASE, LEFT, RIGHT.(pc := 24)], [16, 24, 24], {}, ALL)
  const UNFIT4 := Warp([BASE, LEFT, RIGHT.(pc := 8), Entry(32, 0, {2}, 8, 0, Normal)], [16, 0, 32], {}, ALL)
  const TO_UNFIT1 := Issue({}, [8, 8, 8], NULL_PC, OtherOp, 8, 0, 0)
  const TO_UNFIT2 := Issue({}, [16, 20, 20], 0, OtherOp, 8, 8, 0)
  const TO_UNFIT3 := Issue({}, [16, 24, 24], NULL_PC, OtherOp, 4, 20, 0)
  const TO_UNFIT4 := Issue({}, [16, 0, 32], 8, OtherOp, 8, 24, 0)

  lemma OpenAtEight()
    ensures IsReconvergence(UNFIT, 0, 8)
  {
    var g := UNFIT;
    assert IsExitPath(g, [8, 16], 8) && IsExitPath(g, [8, 20, 28], 8);
    assert forall q :: q == 8 || q !in [8, 16] || q !in [8, 20, 28];
  }

  lemma PassesEight(path: seq<Pc>)
    requires IsExitPath(UNFIT, path, 24)
    ensures 8 in path
  {
    assert Edge(UNFIT, path[0], path[1]);
    assert Edge(UNFIT, path[1], path[2]);
    assert path[2] == 8;
  }

  lemma EightIsImmediate()
    ensures IsReconvergence(UNFIT, 8, 24)
  {
    var g := UNFIT;
    forall path | IsExitPath(g, path, 24) ensures 8 in path {
      PassesEight(path);
    }
    assert IsExitPath(g, [24, 0, 8, 16], 24) && IsExitPath(g, [24, 32, 8, 20, 28], 24);
    forall q | StrictlyPostdominates(g, q, 24) ensures Postdominates(g, q, 8) {
      assert q in [24, 0, 8, 16] && q in [24, 32, 8, 20, 28];
      forall path | IsExitPath(g, path, 8) ensures q in path {
        assert path[0] == 8;
      }
    }
  }

  lemma UnfitStep1()
    ensures Step(UNFIT0, TO_UNFIT1, UNFIT1) && Follows(UNFIT, UNFIT0.stack, TO_UNFIT1)
  {
    MoveStep(UNFIT0, TO_UNFIT1, UNFIT1, 8);
    OnePath(UNFIT0.stack, TO_UNFIT1, 8, Live(UNFIT0.stack, {}));
  }

  lemma UnfitBranch2()
    ensures Step(UNFIT1, TO_UNFIT2, UNFIT2)
  {
    var first, second := Path(16, {0}), Path(20, {1, 2});
    assert Live(UNFIT1.stack, {}) == first.mask + second.mask;
    assert AfterDivergence(Top(UNFIT1.stack), first, second, 0, 0) == UNFIT2.stack;
    BranchStep(UNFIT1, TO_UNFIT2, UNFIT2, first, second);
  }

  lemma UnfitStep2()
    ensures Step(UNFIT1, TO_UNFIT2, UNFIT2) && Follows(UNFIT, UNFIT1.stack, TO_UNFIT2)
  {
    UnfitBranch2();
    OpenAtEight();
    assert Edge(UNFIT, 8, 16) && Edge(UNFIT, 8, 20);
  }

  lemma UnfitStep3()
    ensures Step(UNFIT2, TO_UNFIT3, UNFIT3) && Follows(UNFIT, UNFIT2.stack, TO_UNFIT3)
  {
    assert Below(UNFIT2.stack) + [RIGHT.(pc := 24)] == UNFIT3.stack;
    MoveStep(UNFIT2, TO_UNFIT3, UNFIT3, 24);
    OnePath(UNFIT2.stack, TO_UNFIT3, 24, Live(UNFIT2.stack, {}));
  }

  lemma UnfitBranch4()
    ensures Step(UNFIT3, TO_UNFIT4, UNFIT4)
  {
    var first, second := Path(32, {2}), Path(0, {1});
    assert Live(UNFIT3.stack, {}) == first.mask + second.mask;
    assert AfterDivergence(Top(UNFIT3.stack), first, second, 8, 0) == UNFIT4.stack[2..];
    assert Below(UNFIT3.stack) + UNFIT4.stack[2..] == UNFIT4.stack;
    BranchStep(UNFIT3, TO_UNFIT4, UNFIT4, first, second);
  }

  lemma UnfitStep4()
    ensures Step(UNFIT3, TO_UNFIT4, UNFIT4) && Follows(UNFIT, UNFIT3.stack, TO_UNFIT4)
  {
    UnfitBranch4();
    EightIsImmediate();
    assert Edge(UNFIT, 24, 0) && Edge(UNFIT, 24, 32);
  }

  lemma UnfitRun1() returns (ws: seq<Warp>, issues: seq<Issue>)
    ensures RunsAlong(UNFIT, ws, issues) && |issues| == 1 && ws[1] == UNFIT1
  {
    LaunchAlong(UNFIT, UNFIT0);
    ws, issues := [UNFIT0], [];
    UnfitStep1();
    ExtendAlong(UNFIT, ws, issues, TO_UNFIT1, UNFIT1);
    ws, issues := ws + [UNFIT1], issues + [TO_UNFIT1];
  }

  lemma UnfitRun2() returns (ws: seq<Warp>, issues: seq<Issue>)
    ensures RunsAlong(UNFIT, ws, issues) && |issues| == 2 && ws[2] == UNFIT2
  {
    ws, issues := UnfitRun1();
    UnfitStep2();
    ExtendAlong(UNFIT, ws, issues, TO_UNFIT2, UNFIT2);
    ws, issues := ws + [UNFIT2], issues + [TO_UNFIT2];
  }

  lemma UnfitRun3() returns (ws: seq<Warp>, issues: seq<Issue>)
    ensures RunsAlong(UNFIT, ws, issues) && |issues| == 3 && ws[3] == UNFIT3
  {
    ws, issues := UnfitRun2();
    UnfitStep3();
    ExtendAlong(UNFIT, ws, issues, TO_UNFIT3, UNFIT3);
    ws, issues := ws + [UNFIT3], issues + [TO_UNFIT3];
  }

  lemma UnfitRun() returns (ws: seq<Warp>, issues: seq<Issue>)
    ensures RunsAlong(UNFIT, ws, issues) && |issues| == 4 && ws[4] == UNFIT4
  {
    ws, issues := UnfitRun3();
    UnfitStep4();
    ExtendAlong(UNFIT, ws, issues, TO_UNFIT4, UNFIT4);
    ws, issues := ws + [UNFIT4], issues + [TO_UNFIT4];
  }

  /** Every branch reconverges where the graph says; still thread 1, gone to 0, ends up under pc 8,
      because its entry took pc 0 for the exit. */
  lemma BranchToExitExample() returns (ws: seq<Warp>, issues: seq<Issue>)
    ensures RunsAlong(UNFIT, ws, issues) && |issues| == 4 && !AgreesAt(ws, 4)
    ensures Edge(UNFIT, 24, 0) && |UNFIT.succ[24]| > 1 && IsReconvergence(UNFIT, 8, 24)
  {
    ws, issues := UnfitRun();
    Disagrees(UNFIT4, 1, 2);
    EightIsImmediate();
    assert UNFIT.succ[24] == {0, 32};
  }

  // ----- the return pc of a foreign thread -------------------------------------------------------------------

  const FOUR: set<nat> := {0, 1, 2, 3}
  const INSIDE: set<nat> := {1, 2, 3}
  const JOIN := Entry(30, 1, FOUR, NULL_PC, 0, Normal)
  const WAITING := Entry(14, 0, {0}, 30, 0, Normal)
  const CALLING := Entry(20, 0, INSIDE, 30, 0, Normal)
  const CALLEE := Entry(50, 0, INSIDE, NULL_PC, 0, Call)
  const STAYED := Entry(54, 0, {1}, 0, 0, Normal)
  const RETURNED := Entry(60, 0, {2, 3}, 0, 0, Normal)
  const FOREIGN0 := Warp([JOIN.(pc := 10)], [10, 10, 10, 10], {}, FOUR)
  const FOREIGN1 := Warp([JOIN, WAITING, CALLING], [14, 20, 20, 20], {}, FOUR)
  const FOREIGN2 := Warp([JOIN, WAITING, CALLING, CALLEE], [14, 50, 50, 50], {}, FOUR)
  const FOREIGN3 := Warp([JOIN, WAITING, CALLING, CALLEE.(pc := 0), STAYED, RETURNED], [14, 54, 60, 60], {}, FOUR)
  const FOREIGN4 := Warp(
    [JOIN, WAITING, CALLING, CALLEE.(pc := 0), STAYED, RETURNED.(pc := 24)], [14, 54, 24, 24], {}, FOUR)
  const FOREIGN5 := Warp(
    [JOIN, WAITING, CALLING, CALLEE.(pc := 0), STAYED, RETURNED.(pc := 40), Entry(28, 0, {3}, 40, 0, Normal)],
    [14, 54, 0, 28], {}, FOUR)
  const TO_FOREIGN1 := Issue({}, [14, 20, 20, 20], 30, OtherOp, 4, 10, 0)
  const TO_FOREIGN2 := Issue({}, [14, 50, 50, 50], NULL_PC, CallOp, 4, 20, 0)
  const TO_FOREIGN3 := Issue({}, [14, 54, 60, 60], 0, OtherOp, 4, 50, 0)
  const TO_FOREIGN4 := Issue({}, [14, 54, 24, 24], NULL_PC, RetOp, 4, 60, 0)
  const TO_FOREIGN5 := Issue({}, [14, 54, 0, 28], 40, OtherOp, 4, 24, 0)

  lemma ForeignStep1()
    ensures Step(FOREIGN0, TO_FOREIGN1, FOREIGN1)
  {
    var first, second := Path(14, {0}), Path(20, INSIDE);
    assert Live(FOREIGN0.stack, {}) == first.mask + second.mask;
    assert AfterDivergence(Top(FOREIGN0.stack), first, second, 30, 0) == FOREIGN1.stack;
    BranchStep(FOREIGN0, TO_FOREIGN1, FOREIGN1, first, second);
  }

  lemma ForeignStep2()
    ensures Step(FOREIGN1, TO_FOREIGN2, FOREIGN2)
  {
    assert FOREIGN1.stack + [CALLEE] == FOREIGN2.stack;
    CallStep(FOREIGN1, TO_FOREIGN2, FOREIGN2, 50);
  }

  lemma ForeignStep3()
    ensures Step(FOREIGN2, TO_FOREIGN3, FOREIGN3)
  {
    var first, second := Path(54, {1}), Path(60, {2, 3});
    assert Live(FOREIGN2.stack, {}) == first.mask + second.mask;
    assert AfterDivergence(Top(FOREIGN2.stack), first, second, 0, 0) == FOREIGN3.stack[3..];
    assert Below(FOREIGN2.stack) + FOREIGN3.stack[3..] == FOREIGN3.stack;
    BranchStep(FOREIGN2, TO_FOREIGN3, FOREIGN3, first, second);
  }

  lemma ForeignStep4()
    ensures Step(FOREIGN3, TO_FOREIGN4, FOREIGN4)
  {
    assert Below(FOREIGN3.stack) + [RETURNED.(pc := 24)] == FOREIGN4.stack;
    MoveStep(FOREIGN3, TO_FOREIGN4, FOREIGN4, 24);
  }

  lemma ForeignStep5()
    ensures Step(FOREIGN4, TO_FOREIGN5, FOREIGN5)
  {
    var first, second := Path(28, {3}), Path(0, {2});
    assert Live(FOREIGN4.stack, {}) == first.mask + second.mask;
    assert AfterDivergence(Top(FOREIGN4.stack), first, second, 40, 0) == FOREIGN5.stack[5..];
    assert Below(FOREIGN4.stack) + FOREIGN5.stack[5..] == FOREIGN5.stack;
    BranchStep(FOREIGN4, TO_FOREIGN5, FOREIGN5, first, second);
  }

  lemma ForeignRun1() returns (ws: seq<Warp>, issues: seq<Issue>)
    ensures IsRun(ws, issues) && |issues| == 1 && ws[1] == FOREIGN1
  {
    LaunchIsRun(FOREIGN0);
    ws, issues := [FOREIGN0], [];
    ForeignStep1();
    ExtendRun(ws, issues, TO_FOREIGN1, FOREIGN1);
    ws, issues := ws + [FOREIGN1], issues + [TO_FOREIGN1];
  }

  lemma ForeignRun2() returns (ws: seq<Warp>, issues: seq<Issue>)
    ensures IsRun(ws, issues) && |issues| == 2 && ws[2] == FOREIGN2
  {
    ws, issues := ForeignRun1();
    ForeignStep2();
    ExtendRun(ws, issues, TO_FOREIGN2, FOREIGN2);
    ws, issues := ws + [FOREIGN2], issues + [TO_FOREIGN2];
  }

  lemma ForeignRun3() returns (ws: seq<Warp>, issues: seq<Issue>)
    ensures IsRun(ws, issues) && |issues| == 3 && ws[3] == FOREIGN3 && issues[2] == TO_FOREIGN3
  {
    ws, issues := ForeignRun2();
    ForeignStep3();
    ExtendRun(ws, issues, TO_FOREIGN3, FOREIGN3);
    ws, issues := ws + [FOREIGN3], issues + [TO_FOREIGN3];
  }

  lemma ForeignRun4() returns (ws: seq<Warp>, issues: seq<Issue>)
    ensures IsRun(ws, issues) && |issues| == 4 && ws[4] == FOREIGN4 && issues[2] == TO_FOREIGN3
  {
    ws, issues := ForeignRun3();
    ForeignStep4();
    ExtendRun(ws, issues, TO_FOREIGN4, FOREIGN4);
    ws, issues := ws + [FOREIGN4], issues + [TO_FOREIGN4];
  }

  lemma ForeignRun() returns (ws: seq<Warp>, issues: seq<Issue>)
    ensures IsRun(ws, issues) && |issues| == 5 && ws[5] == FOREIGN5 && issues[2] == TO_FOREIGN3
  {
    ws, issues := ForeignRun4();
    ForeignStep5();
    ExtendRun(ws, issues, TO_FOREIGN5, FOREIGN5);
    ws, issues := ws + [FOREIGN5], issues + [TO_FOREIGN5];
  }

  /** Thread 0 waits in the kernel, whose return pc is 0; the others call a function from 20. Its
      branch is to reconverge at their return pc 24 and gets 0. Two of them return and branch, one
      back to the kernel's start at 0: that one ends up under pc 40. */
  lemma ForeignReturnExample() returns (ws: seq<Warp>, issues: seq<Issue>)
    ensures IsRun(ws, issues) && |issues| == 5 && !AgreesAt(ws, 5)
    ensures issues[2].recvgPc == ResolvedRecvg(RETURN_PC, [false, false, false, false], [0, 24, 24, 24]) == 0
  {
    ws, issues := ForeignRun();
    ResolvedAtFirst([false, false, false, false], [0, 24, 24, 24], 0);
    Disagrees(FOREIGN5, 2, 5);
  }
}
