/** Lockstep execution refines independent threads.

The lockstep machine knows program counters only through the SIMT stack: it runs
every active thread at the pc of the top entry. A thread on its own runs at its
own pc. Over every lockstep run each thread goes through exactly the states of
its solo run, one solo step for every instruction it was active in.
 */
module SimtRefinement {
  import opened SimtStacks
  import opened SimtInvariant
  import opened SimtRuns
  import opened ControlFlow
  import opened SimtFlow
  import opened SimtExit

  /** What one instruction does to one thread. */
  datatype Outcome<S> = Outcome(state: S, exited: bool, next: Pc)

  /** Effect of executing the instruction at a pc, for a thread in a state. */
  type Exec<!S> = (nat, Pc, S) -> Outcome<S>

  datatype Thread<S> = Thread(state: S, exited: bool, pc: Pc)

  ghost function SoloStep<S>(exec: Exec<S>, t: nat, th: Thread<S>): Thread<S> {
    if th.exited then th else
    var o := exec(t, th.pc, th.state);
    Thread(o.state, o.exited, o.next)
  }

  ghost function Solo<S>(exec: Exec<S>, t: nat, start: Thread<S>, steps: nat): Thread<S> {
    if steps == 0 then start else SoloStep(exec, t, Solo(exec, t, start, steps - 1))
  }

  /** `steps[t]` counts the instructions thread `t` was active in. */
  datatype Lockstep<S> = Lockstep(
    stack: seq<Entry>, local: seq<S>, done: set<nat>, launched: set<nat>, steps: seq<nat>)
  {
    ghost predicate Shaped() {
      |steps| == |local| && InWarp(launched, |local|)
    }
  }

  ghost predicate LockstepStart<S>(m: Lockstep<S>, startPc: Pc) {
    && m.Shaped() && m.launched != {} && m.done !! m.launched && (forall t | t in m.done :: t < |m.local|)
    && m.stack == [Entry(startPc, 1, m.launched, NULL_PC, 0, Normal)]
    && (forall t: nat | t < |m.steps| :: m.steps[t] == 0)
  }

  ghost predicate LockstepStep<S>(exec: Exec<S>, m: Lockstep<S>, iss: Issue, m': Lockstep<S>) {
    && m.Shaped() && m'.Shaped()
    && m'.launched == m.launched
    && |m'.local| == |m.local| == |iss.next|
    && WellPosed(m.stack, iss) && Uniform(m.stack, iss)
    && var active := Live(m.stack, m.done);
    && (forall t: nat | t < |m.local| && t !in active ::
          m'.local[t] == m.local[t] && m'.steps[t] == m.steps[t] && (t in m'.done <==> t in m.done))
    && (forall t: nat | t < |m.local| && t in active ::
          var o := exec(t, Top(m.stack).pc, m.local[t]);
          && m'.local[t] == o.state
          && m'.steps[t] == m.steps[t] + 1
          && (t in m'.done <==> o.exited)
          && (!o.exited ==> iss.next[t] == o.next))
    && (forall t | t in m'.done :: t < |m.local|)
    && iss.done == m'.done
    && m'.stack == UpdateSpec(m.stack, iss)
  }

  ghost function SoloOf<S>(exec: Exec<S>, start: Lockstep<S>, startPc: Pc, t: nat, steps: nat): Thread<S>
    requires t < |start.local|
  {
    Solo(exec, t, Thread(start.local[t], false, startPc), steps)
  }

  /** The warp whose thread pcs are those of the solo runs. */
  ghost function SoloWarp<S>(exec: Exec<S>, start: Lockstep<S>, startPc: Pc, m: Lockstep<S>): Warp
    requires |m.steps| == |start.local|
  {
    Warp(m.stack,
         seq(|m.steps|, t requires 0 <= t < |m.steps| => SoloOf(exec, start, startPc, t, m.steps[t]).pc),
         m.done, m.launched)
  }

  ghost predicate Refines<S>(exec: Exec<S>, start: Lockstep<S>, startPc: Pc, m: Lockstep<S>) {
    && m.Shaped() && |m.local| == |start.local| && m.launched == start.launched
    && (forall t | t in m.launched ::
          var solo := SoloOf(exec, start, startPc, t, m.steps[t]);
          m.local[t] == solo.state && (t in m.done <==> solo.exited))
    && (forall t | t in m.done :: t < |m.local|)
    && (forall i | 0 <= i < |m.stack| :: m.stack[i].mask <= m.launched)
    && Valid(SoloWarp(exec, start, startPc, m))
  }

  /** An active thread is run at its own solo pc, so the step is its solo step. */
  lemma ActiveStepIsSolo<S>(
    exec: Exec<S>, start: Lockstep<S>, startPc: Pc, m: Lockstep<S>, iss: Issue, m': Lockstep<S>, t: nat)
    requires Refines(exec, start, startPc, m) && LockstepStep(exec, m, iss, m') && t in Live(m.stack, m.done)
    ensures t < |m.local|
    ensures var o := exec(t, Top(m.stack).pc, m.local[t]);
      SoloOf(exec, start, startPc, t, m'.steps[t]) == Thread(o.state, o.exited, o.next)
  {
    var w := SoloWarp(exec, start, startPc, m);
    assert t in w.Alive();
    assert Holder(w.stack, t) == |w.stack| - 1;
    assert w.pcs[t] == Top(m.stack).pc;
  }

  /** The warp of solo pcs makes the step that `SimtRuns` is about. */
  lemma StepOfWarps<S>(
    exec: Exec<S>, start: Lockstep<S>, startPc: Pc, m: Lockstep<S>, iss: Issue, m': Lockstep<S>)
    requires Refines(exec, start, startPc, m) && LockstepStep(exec, m, iss, m')
    ensures |m'.steps| == |start.local|
    ensures Step(SoloWarp(exec, start, startPc, m), iss, SoloWarp(exec, start, startPc, m'))
    ensures forall t | t in m.launched ::
      var solo := SoloOf(exec, start, startPc, t, m'.steps[t]);
      m'.local[t] == solo.state && (t in m'.done <==> solo.exited)
  {
    var w, w' := SoloWarp(exec, start, startPc, m), SoloWarp(exec, start, startPc, m');
    forall t: nat | t < |m.local|
      ensures var solo := SoloOf(exec, start, startPc, t, m'.steps[t]);
        t in m.launched ==> m'.local[t] == solo.state && (t in m'.done <==> solo.exited)
      ensures t !in Live(m.stack, m.done) ==> w'.pcs[t] == w.pcs[t]
      ensures t in Live(m.stack, iss.done) ==> iss.next[t] == w'.pcs[t]
      ensures t in m.done ==> t in m'.done
    {
      if t in Live(m.stack, m.done) {
        ActiveStepIsSolo(exec, start, startPc, m, iss, m', t);
      }
    }
    assert Step(w, iss, w');
  }

  lemma StepRefines<S>(exec: Exec<S>, start: Lockstep<S>, startPc: Pc, m: Lockstep<S>, iss: Issue, m': Lockstep<S>)
    requires Refines(exec, start, startPc, m) && LockstepStep(exec, m, iss, m') && ProperRecvg(m.stack, iss)
    ensures Refines(exec, start, startPc, m')
  {
    var w, w' := SoloWarp(exec, start, startPc, m), SoloWarp(exec, start, startPc, m');
    StepOfWarps(exec, start, startPc, m, iss, m');
    StepShaped(w, iss, w');
    StepCorrect(w, iss, w');
  }

  ghost predicate LockstepRun<S>(exec: Exec<S>, startPc: Pc, ms: seq<Lockstep<S>>, issues: seq<Issue>) {
    && |ms| == |issues| + 1
    && LockstepStart(ms[0], startPc)
    && (forall i | 0 <= i < |issues| :: LockstepStep(exec, ms[i], issues[i], ms[i + 1]))
    && (forall i | 0 <= i < |issues| ::
          LockstepStep(exec, ms[i], issues[i], ms[i + 1]) ==> ProperRecvg(ms[i].stack, issues[i]))
  }

  lemma {:induction false} RunRefines<S>(exec: Exec<S>, startPc: Pc, ms: seq<Lockstep<S>>, issues: seq<Issue>, i: nat)
    requires LockstepRun(exec, startPc, ms, issues) && i < |ms|
    ensures Refines(exec, ms[0], startPc, ms[i])
  {
    if i == 0 {
      var w := SoloWarp(exec, ms[0], startPc, ms[0]);
      forall t | t in w.Alive() ensures Holder(w.stack, t) == 0 {
        HolderIs(w.stack, t, 0);
      }
    } else {
      RunRefines(exec, startPc, ms, issues, i - 1);
      assert LockstepStep(exec, ms[i - 1], issues[i - 1], ms[i]);
      StepRefines(exec, ms[0], startPc, ms[i - 1], issues[i - 1], ms[i]);
    }
  }

  /** Over every lockstep run every launched thread is exactly where its solo run is
      after the instructions it was active in: same state, same exit, and, while it
      lives, some entry holds it and the topmost such entry carries its solo pc. */
  lemma LockstepRefinesSolo<S>(
    exec: Exec<S>, startPc: Pc, ms: seq<Lockstep<S>>, issues: seq<Issue>, i: nat, t: nat)
    requires LockstepRun(exec, startPc, ms, issues) && i < |ms| && t in ms[0].launched
    ensures t < |ms[0].local| == |ms[i].local| == |ms[i].steps|
    ensures var solo := SoloOf(exec, ms[0], startPc, t, ms[i].steps[t]);
      && ms[i].local[t] == solo.state
      && (t in ms[i].done <==> solo.exited)
      && (!solo.exited ==>
            var h := Holder(ms[i].stack, t);
            h >= 0 && ms[i].stack[h].pc == solo.pc)
  {
    RunRefines(exec, startPc, ms, issues, i);
    var w := SoloWarp(exec, ms[0], startPc, ms[i]);
    assert t in w.Alive() <==> t !in ms[i].done;
  }

  // ----- programs ------------------------------------------------------------------------------

  /** A lockstep run along a control flow graph. */
  ghost predicate LockstepFlow<S>(
    g: Cfg, exec: Exec<S>, startPc: Pc, ms: seq<Lockstep<S>>, issues: seq<Issue>)
  {
    && ControlFlow.WellFormed(g) && |ms| == |issues| + 1 && LockstepStart(ms[0], startPc)
    && (forall i | 0 <= i < |issues| :: LockstepStep(exec, ms[i], issues[i], ms[i + 1]))
    && (forall i | 0 <= i < |issues| ::
          LockstepStep(exec, ms[i], issues[i], ms[i + 1]) ==> Follows(g, ms[i].stack, issues[i]))
  }

  lemma {:induction false} LockstepOnCourse<S>(
    g: Cfg, exec: Exec<S>, startPc: Pc, ms: seq<Lockstep<S>>, issues: seq<Issue>, i: nat)
    requires LockstepFlow(g, exec, startPc, ms, issues) && i < |ms|
    ensures AllOnCourse(g, ms[i].stack)
  {
    if i > 0 {
      LockstepOnCourse(g, exec, startPc, ms, issues, i - 1);
      assert LockstepStep(exec, ms[i - 1], issues[i - 1], ms[i]);
      StepOnCourse(g, ms[i - 1].stack, issues[i - 1]);
    }
  }

  lemma FlowIsProper<S>(g: Cfg, exec: Exec<S>, startPc: Pc, ms: seq<Lockstep<S>>, issues: seq<Issue>)
    requires LockstepFlow(g, exec, startPc, ms, issues)
    ensures LockstepRun(exec, startPc, ms, issues)
  {
    forall k | 0 <= k < |issues| ensures
      LockstepStep(exec, ms[k], issues[k], ms[k + 1]) ==> ProperRecvg(ms[k].stack, issues[k])
    {
      LockstepOnCourse(g, exec, startPc, ms, issues, k);
      assert LockstepStep(exec, ms[k], issues[k], ms[k + 1]);
      FollowingIsProper(g, ms[k].stack, issues[k]);
    }
  }

  /** A program whose branches reconverge at their immediate post-dominators runs in lockstep as
      its threads run alone. */
  lemma FlowRefinesSolo<S>(
    g: Cfg, exec: Exec<S>, startPc: Pc, ms: seq<Lockstep<S>>, issues: seq<Issue>, i: nat, t: nat)
    requires LockstepFlow(g, exec, startPc, ms, issues) && i < |ms| && t in ms[0].launched
    ensures t < |ms[0].local| == |ms[i].local| == |ms[i].steps|
    ensures var solo := SoloOf(exec, ms[0], startPc, t, ms[i].steps[t]);
      && ms[i].local[t] == solo.state
      && (t in ms[i].done <==> solo.exited)
      && (!solo.exited ==>
            var h := Holder(ms[i].stack, t);
            h >= 0 && ms[i].stack[h].pc == solo.pc)
  {
    FlowIsProper(g, exec, startPc, ms, issues);
    LockstepRefinesSolo(exec, startPc, ms, issues, i, t);
  }

  // ----- kernels without calls -------------------------------------------------------------------

  /** Threads leave the kernel only by finishing. */
  ghost predicate LeavesByFinishing<S>(g: Cfg, m: Lockstep<S>, iss: Issue, m': Lockstep<S>)
    requires WellPosed(m.stack, iss)
  {
    && !iss.op.CallOp?
    && (forall t | t in Live(m.stack, iss.done) :: Edge(g, iss.pc, iss.next[t]))
    && (m'.done != m.done ==> iss.pc in g.leaves)
  }

  ghost predicate LockstepKernel<S>(
    g: Cfg, exec: Exec<S>, startPc: Pc, ms: seq<Lockstep<S>>, issues: seq<Issue>)
  {
    && LockstepFlow(g, exec, startPc, ms, issues)
    && (forall i | 0 <= i < |issues| ::
          LockstepStep(exec, ms[i], issues[i], ms[i + 1]) ==> LeavesByFinishing(g, ms[i], issues[i], ms[i + 1]))
  }

  ghost function SoloWarps<S>(exec: Exec<S>, startPc: Pc, ms: seq<Lockstep<S>>): (ws: seq<Warp>)
    requires forall i | 0 <= i < |ms| :: |ms[i].steps| == |ms[0].local|
    ensures |ws| == |ms| && forall i | 0 <= i < |ms| :: ws[i] == SoloWarp(exec, ms[0], startPc, ms[i])
  {
    seq(|ms|, i requires 0 <= i < |ms| => SoloWarp(exec, ms[0], startPc, ms[i]))
  }

  /** The lockstep run, seen as a run of warps. */
  lemma WarpsRun<S>(exec: Exec<S>, startPc: Pc, ms: seq<Lockstep<S>>, issues: seq<Issue>)
    requires LockstepRun(exec, startPc, ms, issues)
    ensures forall i | 0 <= i < |ms| :: |ms[i].steps| == |ms[0].local|
    ensures IsRun(SoloWarps(exec, startPc, ms), issues)
  {
    forall i: nat | i < |ms| ensures |ms[i].steps| == |ms[0].local| {
      RunRefines(exec, startPc, ms, issues, i);
    }
    var ws := SoloWarps(exec, startPc, ms);
    forall i: nat | i < |issues| ensures Step(ws[i], issues[i], ws[i + 1]) {
      RunRefines(exec, startPc, ms, issues, i);
      assert LockstepStep(exec, ms[i], issues[i], ms[i + 1]);
      StepOfWarps(exec, ms[0], startPc, ms[i], issues[i], ms[i + 1]);
    }
    assert Launched(ws[0]);
  }

  lemma WarpsAreKernel<S>(g: Cfg, exec: Exec<S>, startPc: Pc, ms: seq<Lockstep<S>>, issues: seq<Issue>)
    requires LockstepKernel(g, exec, startPc, ms, issues)
    requires forall i | 0 <= i < |ms| :: |ms[i].steps| == |ms[0].local|
    requires IsRun(SoloWarps(exec, startPc, ms), issues)
    ensures IsKernel(g, SoloWarps(exec, startPc, ms), issues)
  {
    var ws := SoloWarps(exec, startPc, ms);
    forall i: nat | i < |issues| ensures FollowsAt(g, ws, issues, i) && KernelAt(g, ws, issues, i) {
      assert LockstepStep(exec, ms[i], issues[i], ms[i + 1]);
      assert ws[i].stack == ms[i].stack && ws[i].done == ms[i].done && ws[i + 1].done == ms[i + 1].done;
    }
  }

  /** While a thread of a kernel that does not jump to the exit's pc lives, the whole mask of the
      top entry is unfinished: running its unfinished threads is running all of them. */
  lemma KernelRunsWholeMask<S>(
    g: Cfg, exec: Exec<S>, startPc: Pc, ms: seq<Lockstep<S>>, issues: seq<Issue>, i: nat, t: nat)
    requires LockstepKernel(g, exec, startPc, ms, issues) && NoJumpToExit(g)
    requires i < |ms| && t in ms[0].launched && t !in ms[i].done
    ensures ms[i].stack != [] && Live(ms[i].stack, ms[i].done) == Top(ms[i].stack).mask
  {
    FlowIsProper(g, exec, startPc, ms, issues);
    WarpsRun(exec, startPc, ms, issues);
    WarpsAreKernel(g, exec, startPc, ms, issues);
    RunRefines(exec, startPc, ms, issues, i);
    IssuedThreadsLive(g, SoloWarps(exec, startPc, ms), issues, i, t);
  }

  // ----- programs without calls --------------------------------------------------------------------

  /** Whatever a thread's state, it goes to a successor or finishes where the program can be left;
      `recvg` has the reconvergence pc of every branch. */
  ghost predicate IsProgram<S(!new)>(g: Cfg, exec: Exec<S>, recvg: map<Pc, Pc>) {
    && ControlFlow.WellFormed(g)
    && (forall t: nat, p: Pc, s: S | p in g.succ ::
          var o := exec(t, p, s); if o.exited then p in g.leaves else Edge(g, p, o.next))
    && (forall p | p in g.succ && |g.succ[p]| > 1 :: p in recvg && IsReconvergence(g, recvg[p], p))
  }

  /** What the hardware adds: a warp is issued while a thread of it lives, and a branch carries
      the reconvergence pc of its instruction. */
  ghost predicate IssuedFor<S>(recvg: map<Pc, Pc>, m: Lockstep<S>, iss: Issue) {
    !iss.op.CallOp? && !(m.launched <= m.done) && (iss.pc in recvg ==> iss.recvgPc == recvg[iss.pc])
  }

  ghost predicate ProgramRun<S(!new)>(
    g: Cfg, exec: Exec<S>, recvg: map<Pc, Pc>, startPc: Pc, ms: seq<Lockstep<S>>, issues: seq<Issue>)
  {
    && IsProgram(g, exec, recvg) && startPc in g.succ
    && |ms| == |issues| + 1 && LockstepStart(ms[0], startPc)
    && (forall i | 0 <= i < |issues| :: LockstepStep(exec, ms[i], issues[i], ms[i + 1]))
    && (forall i | 0 <= i < |issues| :: IssuedFor(recvg, ms[i], issues[i]))
  }

  lemma {:induction false} SoloInProgram<S(!new)>(
    g: Cfg, exec: Exec<S>, recvg: map<Pc, Pc>, t: nat, start: Thread<S>, steps: nat)
    requires IsProgram(g, exec, recvg) && start.pc in g.succ
    ensures var solo := Solo(exec, t, start, steps); !solo.exited ==> solo.pc in g.succ
  {
    if steps > 0 {
      SoloInProgram(g, exec, recvg, t, start, steps - 1);
      var before := Solo(exec, t, start, steps - 1);
      var o := exec(t, before.pc, before.state);
    }
  }

  /** A step of the program at an instruction of it is a kernel step along its graph. */
  lemma StepInProgram<S(!new)>(
    g: Cfg, exec: Exec<S>, recvg: map<Pc, Pc>, m: Lockstep<S>, iss: Issue, m': Lockstep<S>)
    requires IsProgram(g, exec, recvg) && LockstepStep(exec, m, iss, m') && IssuedFor(recvg, m, iss)
    requires iss.pc in g.succ && Top(m.stack).kind.Normal? && Top(m.stack).mask <= m.launched
    requires forall t | t in m.done :: t < |m.local|
    ensures Follows(g, m.stack, iss) && LeavesByFinishing(g, m, iss, m')
  {
    forall t | t in Live(m.stack, iss.done) ensures Edge(g, iss.pc, iss.next[t]) {
      assert t in Live(m.stack, m.done);
      var o := exec(t, iss.pc, m.local[t]);
    }
    if |PathGroups(m.stack, iss)| == 2 {
      TwoSuccessors(g, m.stack, iss);
    }
    if m'.done != m.done {
      var t := Changed(m.done, m'.done);
      var o := exec(t, iss.pc, m.local[t]);
    }
  }

  lemma Changed(a: set<nat>, b: set<nat>) returns (t: nat)
    requires a != b
    ensures t in a <==> t !in b
  {
    if x :| x in a && x !in b {
      t := x;
    } else {
      t :| t in b && t !in a;
    }
  }

  /** The top entry of a state the program reaches is at an instruction of it. */
  lemma TopInProgram<S(!new)>(
    g: Cfg, exec: Exec<S>, recvg: map<Pc, Pc>, startPc: Pc, ms: seq<Lockstep<S>>, issues: seq<Issue>, i: nat, t: nat)
    requires IsProgram(g, exec, recvg) && startPc in g.succ && LockstepKernel(g, exec, startPc, ms, issues)
    requires i < |ms| && t in ms[0].launched && t !in ms[i].done
    ensures var stack := ms[i].stack;
      stack != [] && Top(stack).pc in g.succ && Top(stack).kind.Normal? && Top(stack).mask <= ms[i].launched
    ensures forall u | u in ms[i].done :: u < |ms[i].local|
  {
    FlowIsProper(g, exec, startPc, ms, issues);
    WarpsRun(exec, startPc, ms, issues);
    WarpsAreKernel(g, exec, startPc, ms, issues);
    RunRefines(exec, startPc, ms, issues, i);
    KernelRun(g, SoloWarps(exec, startPc, ms), issues, i);
    TopOfWarp(g, exec, recvg, ms[0], startPc, ms[i], t);
  }

  lemma TopOfWarp<S(!new)>(
    g: Cfg, exec: Exec<S>, recvg: map<Pc, Pc>, start: Lockstep<S>, startPc: Pc, m: Lockstep<S>, t: nat)
    requires IsProgram(g, exec, recvg) && startPc in g.succ && Refines(exec, start, startPc, m)
    requires KernelStack(g, m.stack, m.done) && t in m.launched && t !in m.done
    ensures m.stack != []
    ensures Top(m.stack).pc in g.succ && Top(m.stack).kind.Normal? && Top(m.stack).mask <= m.launched
  {
    var w := SoloWarp(exec, start, startPc, m);
    var u := TopHasLive(g, w, t);
    SoloInProgram(g, exec, recvg, u, Thread(start.local[u], false, startPc), m.steps[u]);
    assert m.stack[|m.stack| - 1].kind.Normal?;
  }

  lemma {:induction false} ProgramIsKernel<S(!new)>(
    g: Cfg, exec: Exec<S>, recvg: map<Pc, Pc>, startPc: Pc, ms: seq<Lockstep<S>>, issues: seq<Issue>, n: nat)
    requires ProgramRun(g, exec, recvg, startPc, ms, issues) && n <= |issues|
    ensures LockstepKernel(g, exec, startPc, ms[..n + 1], issues[..n])
  {
    if n > 0 {
      var k := n - 1;
      ProgramIsKernel(g, exec, recvg, startPc, ms, issues, k);
      assert LockstepStep(exec, ms[k], issues[k], ms[n]) && IssuedFor(recvg, ms[k], issues[k]);
      LaunchedKept(g, exec, recvg, startPc, ms, issues, k);
      var t :| t in ms[k].launched && t !in ms[k].done;
      TopInProgram(g, exec, recvg, startPc, ms[..n], issues[..k], k, t);
      StepInProgram(g, exec, recvg, ms[k], issues[k], ms[n]);
      KernelExtends(g, exec, startPc, ms, issues, n);
    }
  }

  lemma {:induction false} LaunchedKept<S(!new)>(
    g: Cfg, exec: Exec<S>, recvg: map<Pc, Pc>, startPc: Pc, ms: seq<Lockstep<S>>, issues: seq<Issue>, n: nat)
    requires ProgramRun(g, exec, recvg, startPc, ms, issues) && n <= |issues|
    ensures ms[n].launched == ms[0].launched
  {
    if n > 0 {
      LaunchedKept(g, exec, recvg, startPc, ms, issues, n - 1);
      assert LockstepStep(exec, ms[n - 1], issues[n - 1], ms[n]);
    }
  }

  lemma KernelExtends<S>(
    g: Cfg, exec: Exec<S>, startPc: Pc, ms: seq<Lockstep<S>>, issues: seq<Issue>, n: nat)
    requires 0 < n <= |issues| && |ms| == |issues| + 1
    requires LockstepKernel(g, exec, startPc, ms[..n], issues[..n - 1])
    requires LockstepStep(exec, ms[n - 1], issues[n - 1], ms[n])
    requires Follows(g, ms[n - 1].stack, issues[n - 1])
    requires LeavesByFinishing(g, ms[n - 1], issues[n - 1], ms[n])
    ensures LockstepKernel(g, exec, startPc, ms[..n + 1], issues[..n])
  {
    var a, b, p, q := ms[..n + 1], ms[..n], issues[..n], issues[..n - 1];
    assert forall i | 0 <= i < n :: a[i] == b[i];
    forall i | 0 <= i < n ensures LockstepStep(exec, a[i], p[i], a[i + 1]) {
      if i < n - 1 {
        assert LockstepStep(exec, b[i], q[i], b[i + 1]);
      }
    }
    forall i | 0 <= i < n && LockstepStep(exec, a[i], p[i], a[i + 1])
      ensures Follows(g, a[i].stack, p[i]) && LeavesByFinishing(g, a[i], p[i], a[i + 1])
    {
      if i < n - 1 {
        assert LockstepStep(exec, b[i], q[i], b[i + 1]);
      }
    }
  }

  /** A program without calls, and the reconvergence pcs of its graph: every lockstep run of it is
      what its threads do alone; if no instruction jumps to the exit's pc, it runs unfinished threads
      only. */
  lemma ProgramRefinesSolo<S(!new)>(
    g: Cfg, exec: Exec<S>, recvg: map<Pc, Pc>, startPc: Pc, ms: seq<Lockstep<S>>, issues: seq<Issue>, i: nat, t: nat)
    requires ProgramRun(g, exec, recvg, startPc, ms, issues) && i < |ms| && t in ms[0].launched
    ensures t < |ms[0].local| == |ms[i].local| == |ms[i].steps|
    ensures var solo := SoloOf(exec, ms[0], startPc, t, ms[i].steps[t]);
      && ms[i].local[t] == solo.state
      && (t in ms[i].done <==> solo.exited)
      && (!solo.exited ==>
            var h := Holder(ms[i].stack, t);
            h >= 0 && ms[i].stack[h].pc == solo.pc)
    ensures NoJumpToExit(g) && t !in ms[i].done ==>
      ms[i].stack != [] && Live(ms[i].stack, ms[i].done) == Top(ms[i].stack).mask
  {
    ProgramIsKernel(g, exec, recvg, startPc, ms, issues, |issues|);
    assert ms[..|issues| + 1] == ms && issues[..|issues|] == issues;
    FlowRefinesSolo(g, exec, startPc, ms, issues, i, t);
    if NoJumpToExit(g) && t !in ms[i].done {
      KernelRunsWholeMask(g, exec, startPc, ms, issues, i, t);
    }
  }
}
