/** Warps that follow a control flow graph. When every divergent branch reconverges at its
    immediate post-dominator, every reconvergence pc is proper, so stack and threads agree; in a
    kernel without calls no finished thread is ever issued again. */
module SimtFlow {
  import opened SimtStacks
  import opened SimtInvariant
  import opened SimtShape
  import opened SimtRuns
  import opened ControlFlow

  /** A diverged entry is on its way to its reconvergence pc, which it cannot miss, unless that
      is the exit. */
  ghost predicate OnCourse(g: Cfg, e: Entry) {
    e.kind.Normal? && e.recvgPc != NULL_PC ==> e.recvgPc == g.final || StrictlyPostdominates(g, e.recvgPc, e.pc)
  }

  ghost predicate AllOnCourse(g: Cfg, stack: seq<Entry>) {
    forall i | 0 <= i < |stack| :: OnCourse(g, stack[i])
  }

  ghost predicate Returns(stack: seq<Entry>, iss: Issue)
    requires stack != []
  {
    iss.op.RetOp? && Top(stack).kind.Call?
  }

  /** Where a thread may go from `p`: to a successor, or out of the program. */
  ghost predicate Goes(g: Cfg, p: Pc, next: Pc) {
    Edge(g, p, next) || (p in g.leaves && next == g.final)
  }

  /** Threads go where the graph says, and return to successors of the call; a divergent branch
      reconverges where the graph says. */
  ghost predicate Follows(g: Cfg, stack: seq<Entry>, iss: Issue)
    requires WellPosed(stack, iss)
  {
    && iss.pc in g.succ
    && (forall t | t in Live(stack, iss.done) && !iss.op.CallOp? ::
          if Returns(stack, iss) then |stack| > 1 ==> Goes(g, Top(Below(stack)).pc, iss.next[t])
          else Goes(g, iss.pc, iss.next[t]))
    && (|PathGroups(stack, iss)| == 2 ==> IsReconvergence(g, iss.recvgPc, iss.pc))
  }

  /** One step further, unless it is there. */
  lemma StaysOnCourse(g: Cfg, e: Entry, next: Entry)
    requires OnCourse(g, e) && Goes(g, e.pc, next.pc)
    requires next.recvgPc == e.recvgPc && (next.kind.Normal? ==> e.kind.Normal?) && next.pc != next.recvgPc
    ensures OnCourse(g, next)
  {
    if next.kind.Normal? && next.recvgPc != NULL_PC && next.recvgPc != g.final {
      if e.pc in g.leaves {
        LeavingIsOpen(g, e.recvgPc, e.pc);
      }
      SuccessorPostdominated(g, e.recvgPc, e.pc, next.pc);
    }
  }

  /** On a graph, a branch straight to the enclosing reconvergence pc reconverges there. */
  lemma FollowingIsProper(g: Cfg, stack: seq<Entry>, iss: Issue)
    requires WellFormed(g) && WellPosed(stack, iss) && Uniform(stack, iss)
    requires OnCourse(g, Top(stack)) && Follows(g, stack, iss)
    ensures ProperRecvg(stack, iss)
  {
    var top, paths := Top(stack), PathGroups(stack, iss);
    if top.kind.Normal? && |paths| == 2 && top.recvgPc in paths {
      var t :| t in Live(stack, iss.done) && iss.next[t] == top.recvgPc;
      if top.pc !in g.leaves {
        TwoSuccessors(g, stack, iss);
      }
      JumpIsProper(g, top, iss.recvgPc);
    }
  }

  /** Two paths from an instruction that cannot leave are two successors. */
  lemma TwoSuccessors(g: Cfg, stack: seq<Entry>, iss: Issue)
    requires WellPosed(stack, iss) && iss.pc in g.succ && |PathGroups(stack, iss)| == 2
    requires forall t | t in Live(stack, iss.done) :: Edge(g, iss.pc, iss.next[t])
    ensures |g.succ[iss.pc]| > 1
  {
    var keys := PathGroups(stack, iss).Keys;
    assert keys <= g.succ[iss.pc];
    assert |g.succ[iss.pc]| == |keys| + |g.succ[iss.pc] - keys|;
  }

  lemma JumpIsProper(g: Cfg, top: Entry, r: Pc)
    requires WellFormed(g) && OnCourse(g, top) && top.kind.Normal? && top.recvgPc != NULL_PC
    requires Goes(g, top.pc, top.recvgPc) && IsReconvergence(g, r, top.pc) && top.pc in g.succ
    requires top.pc !in g.leaves ==> |g.succ[top.pc]| > 1
    ensures r == top.recvgPc
  {
    if top.pc in g.leaves {
      LeavingIsOpen(g, r, top.pc);
      LeavingIsOpen(g, top.recvgPc, top.pc);
    } else if top.recvgPc == g.final {
      OneReconvergence(g, g.final, r, top.pc);
    } else {
      NearestIsImmediate(g, top.recvgPc, r, top.pc);
    }
  }

  /** A path that is not at the reconvergence pc is on its way there. */
  lemma PathOnCourse(g: Cfg, p: Pc, next: Pc, r: Pc)
    requires IsReconvergence(g, r, p) && Goes(g, p, next) && next != r
    ensures r == g.final || StrictlyPostdominates(g, r, next)
  {
    if IsImmediate(g, r, p) {
      if p in g.leaves {
        LeavingIsOpen(g, r, p);
      }
      SuccessorPostdominated(g, r, p, next);
    }
  }

  /** The entry that waits at the reconvergence pc of a branch is itself on its way. */
  lemma WaitingOnCourse(g: Cfg, top: Entry, r: Pc)
    requires OnCourse(g, top) && IsReconvergence(g, r, top.pc) && r != top.recvgPc
    ensures OnCourse(g, top.(pc := r))
  {
  }

  lemma DivergenceOnCourse(g: Cfg, top: Entry, first: Path, second: Path, recvgPc: Pc, cycle: nat)
    requires OnCourse(g, top) && Goes(g, top.pc, first.pc) && Goes(g, top.pc, second.pc)
    requires IsReconvergence(g, recvgPc, top.pc)
    ensures AllOnCourse(g, AfterDivergence(top, first, second, recvgPc, cycle))
  {
    if recvgPc != top.recvgPc {
      WaitingOnCourse(g, top, recvgPc);
    }
    if first.pc != recvgPc {
      PathOnCourse(g, top.pc, first.pc, recvgPc);
    }
    if second.pc != recvgPc {
      PathOnCourse(g, top.pc, second.pc, recvgPc);
    }
  }

  /** Every step along the graph keeps every diverged entry on its way. */
  lemma StepOnCourse(g: Cfg, stack: seq<Entry>, iss: Issue)
    requires WellFormed(g) && WellPosed(stack, iss) && Uniform(stack, iss)
    requires AllOnCourse(g, stack) && Follows(g, stack, iss)
    ensures AllOnCourse(g, UpdateSpec(stack, iss))
  {
    var order := OrderFacts(stack, iss);
    var top := Top(stack);
    if |order| > 0 {
      var t :| t in order[0].mask;
      assert iss.next[t] == order[0].pc;
      if Returns(stack, iss) {
        if |stack| > 1 && !Reconverges(Top(Below(stack)), order[0].pc) {
          var caller := Top(Below(stack));
          ReturnOnCourse(g, caller, order[0].pc);
        }
      } else if |order| == 1 && !iss.op.CallOp? && !Reconverges(top, order[0].pc) {
        ReturnOnCourse(g, top.(mask := order[0].mask), order[0].pc);
      } else if |order| == 2 {
        var u :| u in order[1].mask;
        assert iss.next[u] == order[1].pc;
        DivergenceOnCourse(g, top, order[0], order[1], iss.recvgPc, iss.cycle);
      }
    }
  }

  lemma ReturnOnCourse(g: Cfg, e: Entry, pc: Pc)
    requires OnCourse(g, e) && Goes(g, e.pc, pc) && !Reconverges(e, pc)
    ensures OnCourse(g, e.(pc := pc))
  {
    if e.kind.Normal? {
      StaysOnCourse(g, e, e.(pc := pc));
    }
  }

  // ----- runs ------------------------------------------------------------------------------------

  ghost predicate FollowsAt(g: Cfg, ws: seq<Warp>, issues: seq<Issue>, i: nat)
    requires IsRun(ws, issues) && i < |issues|
  {
    assert Step(ws[i], issues[i], ws[i + 1]);
    Follows(g, ws[i].stack, issues[i])
  }

  ghost predicate IsFlow(g: Cfg, ws: seq<Warp>, issues: seq<Issue>) {
    && WellFormed(g) && IsRun(ws, issues)
    && forall i: nat | i < |issues| :: FollowsAt(g, ws, issues, i)
  }

  lemma {:induction false} FlowOnCourse(g: Cfg, ws: seq<Warp>, issues: seq<Issue>, i: nat)
    requires IsFlow(g, ws, issues) && i < |ws|
    ensures AllOnCourse(g, ws[i].stack)
  {
    if i > 0 {
      FlowOnCourse(g, ws, issues, i - 1);
      assert FollowsAt(g, ws, issues, i - 1) && Step(ws[i - 1], issues[i - 1], ws[i]);
      StepOnCourse(g, ws[i - 1].stack, issues[i - 1]);
    }
  }

  /** Over every run along a graph with immediate post-dominators, every reconvergence pc is
      proper and stack and threads agree throughout. */
  lemma FlowAgrees(g: Cfg, ws: seq<Warp>, issues: seq<Issue>)
    requires IsFlow(g, ws, issues)
    ensures forall i: nat | i < |issues| :: ProperAt(ws, issues, i)
    ensures forall i: nat | i < |ws| :: Valid(ws[i])
  {
    forall i: nat | i < |issues| ensures ProperAt(ws, issues, i) {
      FlowOnCourse(g, ws, issues, i);
      assert FollowsAt(g, ws, issues, i) && Step(ws[i], issues[i], ws[i + 1]);
      FollowingIsProper(g, ws[i].stack, issues[i]);
    }
    forall i: nat | i < |ws| ensures Valid(ws[i]) {
      RunShaped(ws, issues, i);
      RunTracks(ws, issues, i);
    }
  }
}
