/** Threads that finish. An issued instruction runs for the whole mask of the top entry, and the
    simulator stops when a finished thread is among them. */
module SimtExit {
  import opened SimtStacks
  import opened SimtInvariant
  import opened SimtShape
  import opened SimtRuns
  import opened ControlFlow
  import opened SimtFlow

  // ----- finished threads in the stack ------------------------------------------------------------

  ghost predicate MasksLive(stack: seq<Entry>, done: set<nat>) {
    forall i | 0 <= i < |stack| :: stack[i].mask !! done
  }

  /** The entries whose masks an update leaves alone. */
  ghost function Untouched(stack: seq<Entry>, iss: Issue): seq<Entry>
    requires WellPosed(stack, iss) && Uniform(stack, iss)
  {
    var order := PathOrder(PathGroups(stack, iss), iss.NotTakenPc());
    if |order| > 0 && iss.op.CallOp? then stack
    else if |order| > 0 && Returns(stack, iss) then AfterReturn(Below(stack), order[0].pc)
    else if |order| == 2 && iss.recvgPc != Top(stack).recvgPc then stack
    else Below(stack)
  }

  /** The new stack: the untouched masks, then masks of unfinished threads only. */
  lemma UpdatedEntries(stack: seq<Entry>, iss: Issue)
    requires WellPosed(stack, iss) && Uniform(stack, iss)
    ensures var before, after := Untouched(stack, iss), UpdateSpec(stack, iss);
      && |before| <= |after|
      && (forall i | 0 <= i < |before| :: before[i].mask == after[i].mask)
      && (forall i | |before| <= i < |after| :: after[i].mask !! iss.done)
  {
    var order := OrderFacts(stack, iss);
  }

  lemma UpdatedMasks(stack: seq<Entry>, iss: Issue)
    requires WellPosed(stack, iss) && Uniform(stack, iss)
    ensures MasksLive(UpdateSpec(stack, iss), iss.done) <==> MasksLive(Untouched(stack, iss), iss.done)
  {
    UpdatedEntries(stack, iss);
  }

  ghost predicate Held(stack: seq<Entry>, t: nat) {
    exists i :: 0 <= i < |stack| && t in stack[i].mask
  }

  /** A thread finishes while an entry that the update leaves alone still holds it. */
  ghost predicate Lingers(w: Warp, iss: Issue, w': Warp)
    requires Step(w, iss, w')
  {
    exists t :: t in w'.done && t !in w.done && Held(Untouched(w.stack, iss), t)
  }

  lemma UntouchedIsOld(stack: seq<Entry>, iss: Issue)
    requires WellPosed(stack, iss) && Uniform(stack, iss)
    ensures var s := Untouched(stack, iss); |s| <= |stack| && forall i | 0 <= i < |s| :: s[i].mask == stack[i].mask
  {
  }

  lemma StepMasksLive(w: Warp, iss: Issue, w': Warp)
    requires Step(w, iss, w') && MasksLive(w.stack, w.done)
    ensures MasksLive(w'.stack, w'.done) <==> !Lingers(w, iss, w')
  {
    UpdatedMasks(w.stack, iss);
    UntouchedIsOld(w.stack, iss);
    var s := Untouched(w.stack, iss);
    if !MasksLive(s, w'.done) {
      var i, t :| 0 <= i < |s| && t in s[i].mask && t in w'.done;
      assert Held(s, t) && t !in w.done;
    }
  }

  ghost predicate LingersAt(ws: seq<Warp>, issues: seq<Issue>, i: nat)
    requires IsRun(ws, issues) && i < |issues|
  {
    assert Step(ws[i], issues[i], ws[i + 1]);
    Lingers(ws[i], issues[i], ws[i + 1])
  }

  ghost predicate MasksLiveAt(ws: seq<Warp>, i: nat)
    requires i < |ws|
  {
    MasksLive(ws[i].stack, ws[i].done)
  }

  lemma MasksLiveNext(ws: seq<Warp>, issues: seq<Issue>, i: nat)
    requires IsRun(ws, issues) && i < |issues| && MasksLiveAt(ws, i)
    ensures MasksLiveAt(ws, i + 1) <==> !LingersAt(ws, issues, i)
  {
    var w, iss, w' := ws[i], issues[i], ws[i + 1];
    assert Step(w, iss, w');
    StepMasksLive(w, iss, w');
  }

  lemma {:induction false} RunMasksLiveUpTo(ws: seq<Warp>, issues: seq<Issue>, i: nat)
    requires IsRun(ws, issues) && i < |ws|
    requires forall k: nat | k < i :: !LingersAt(ws, issues, k)
    ensures MasksLiveAt(ws, i)
  {
    if i > 0 {
      RunMasksLiveUpTo(ws, issues, i - 1);
      MasksLiveNext(ws, issues, i - 1);
    }
  }

  /** Whole runs: the stack holds unfinished threads only, at every point, if and only if no
      thread finishes while an entry that stays as it is holds it. */
  lemma RunMasksLive(ws: seq<Warp>, issues: seq<Issue>)
    requires IsRun(ws, issues)
    ensures (forall i: nat | i < |ws| :: MasksLiveAt(ws, i)) <==>
      (forall i: nat | i < |issues| :: !LingersAt(ws, issues, i))
  {
    if forall i: nat | i < |issues| :: !LingersAt(ws, issues, i) {
      forall i: nat | i < |ws| ensures MasksLiveAt(ws, i) {
        RunMasksLiveUpTo(ws, issues, i);
      }
    } else {
      var i: nat :| i < |issues| && LingersAt(ws, issues, i);
      if MasksLiveAt(ws, i) {
        MasksLiveNext(ws, issues, i);
      }
    }
  }

  /** The entry issued next has unfinished threads only. */
  ghost predicate TopLive(stack: seq<Entry>, done: set<nat>) {
    stack != [] ==> Top(stack).mask !! done
  }

  /** When an update puts no new entry on top: no live path, a return, one path that
      reconverges, or two paths of which one is at the enclosing reconvergence pc and the other
      at the branch's own. */
  ghost predicate Uncovers(stack: seq<Entry>, iss: Issue)
    requires WellPosed(stack, iss) && Uniform(stack, iss)
  {
    var top, paths := Top(stack), PathGroups(stack, iss);
    if paths == map[] then true
    else if iss.op.CallOp? then false
    else if Returns(stack, iss) then true
    else if |paths| == 1 then top.kind.Normal? && top.recvgPc in paths
    else top.kind.Normal? && paths.Keys == {top.recvgPc, iss.recvgPc}
  }

  lemma UncoversExactly(stack: seq<Entry>, iss: Issue)
    requires WellPosed(stack, iss) && Uniform(stack, iss)
    ensures Uncovers(stack, iss) <==> |UpdateSpec(stack, iss)| == |Untouched(stack, iss)|
  {
    var order := OrderFacts(stack, iss);
    var paths := PathGroups(stack, iss);
    if |order| == 1 {
      OneKey(paths, order[0].pc);
    } else if |order| == 2 {
      TwoKeys(paths, order[0].pc, order[1].pc);
    }
  }

  lemma OneKey(m: map<Pc, set<nat>>, p: Pc)
    requires |m| == 1 && p in m
    ensures m.Keys == {p}
  {
    assert |m.Keys - {p}| == 0;
  }

  lemma TwoKeys(m: map<Pc, set<nat>>, p: Pc, q: Pc)
    requires |m| == 2 && p in m && q in m && p != q
    ensures m.Keys == {p, q}
  {
    assert |m.Keys - {p} - {q}| == 0;
  }

  /** The next entry issued has a finished thread exactly when the update uncovers one with a
      finished thread. */
  lemma UncoveredTop(stack: seq<Entry>, iss: Issue)
    requires WellPosed(stack, iss) && Uniform(stack, iss)
    ensures TopLive(UpdateSpec(stack, iss), iss.done) <==>
      (Uncovers(stack, iss) ==> TopLive(Untouched(stack, iss), iss.done))
  {
    UpdatedEntries(stack, iss);
    UncoversExactly(stack, iss);
  }

  ghost predicate UncoversAt(ws: seq<Warp>, issues: seq<Issue>, i: nat)
    requires IsRun(ws, issues) && i < |issues|
  {
    assert Step(ws[i], issues[i], ws[i + 1]);
    Uncovers(ws[i].stack, issues[i]) && !TopLive(Untouched(ws[i].stack, issues[i]), issues[i].done)
  }

  ghost predicate TopLiveAt(ws: seq<Warp>, i: nat)
    requires i < |ws|
  {
    TopLive(ws[i].stack, ws[i].done)
  }

  lemma TopLiveNext(ws: seq<Warp>, issues: seq<Issue>, i: nat)
    requires IsRun(ws, issues) && i < |issues|
    ensures TopLiveAt(ws, i + 1) <==> !UncoversAt(ws, issues, i)
  {
    var w, iss, w' := ws[i], issues[i], ws[i + 1];
    assert Step(w, iss, w');
    UncoveredTop(w.stack, iss);
  }

  /** Whole runs: no finished thread is ever in the top entry if and only if no update uncovers
      an entry that holds one. */
  lemma RunTopLive(ws: seq<Warp>, issues: seq<Issue>)
    requires IsRun(ws, issues)
    ensures (forall i: nat | i < |ws| :: TopLiveAt(ws, i)) <==>
      (forall i: nat | i < |issues| :: !UncoversAt(ws, issues, i))
  {
    forall i: nat | i < |issues| ensures TopLiveAt(ws, i + 1) <==> !UncoversAt(ws, issues, i) {
      TopLiveNext(ws, issues, i);
    }
    if forall i: nat | i < |issues| :: !UncoversAt(ws, issues, i) {
      forall i: nat | i < |ws| ensures TopLiveAt(ws, i) {
        if i > 0 {
          TopLiveNext(ws, issues, i - 1);
        }
      }
    }
  }

  // ----- kernels without calls ----------------------------------------------------------------------

  /** What a kernel's threads do beyond following the graph: they leave only by finishing. */
  ghost predicate KernelStep(g: Cfg, w: Warp, iss: Issue, w': Warp)
    requires Step(w, iss, w')
  {
    && !iss.op.CallOp?
    && (forall t | t in Live(w.stack, iss.done) :: Edge(g, iss.pc, iss.next[t]))
    && (w'.done != w.done ==> iss.pc in g.leaves)
  }

  /** Reconverges at the exit, and could miss an instruction with that pc. */
  ghost predicate Open(g: Cfg, e: Entry) {
    e.recvgPc == g.final && !StrictlyPostdominates(g, g.final, e.pc)
  }

  /** Only the launch entry has no reconvergence pc; entries above it hold unfinished threads
      only, and those that reconverge at the exit share theirs with the launch entry only. */
  ghost predicate KernelStack(g: Cfg, stack: seq<Entry>, done: set<nat>) {
    && AllOnCourse(g, stack)
    && (forall i | 0 <= i < |stack| :: stack[i].kind.Normal?)
    && (forall i | 0 < i < |stack| :: stack[i].recvgPc != NULL_PC && stack[i].mask !! done)
    && (forall i, k | 0 < k < i < |stack| && Open(g, stack[i]) :: stack[k].mask !! stack[i].mask)
  }

  /** What may replace the top entry, which is the launch entry or not. */
  ghost predicate Replaces(g: Cfg, top: Entry, root: bool, xs: seq<Entry>, done: set<nat>) {
    && AllOnCourse(g, xs)
    && (forall i | 0 <= i < |xs| :: xs[i].kind.Normal? && xs[i].mask <= top.mask)
    && (forall i | 0 <= i < |xs| && (i > 0 || !root) :: xs[i].recvgPc != NULL_PC && xs[i].mask !! done)
    && (forall i | 0 <= i < |xs| && Open(g, xs[i]) && !root :: Open(g, top))
    && (forall i, k | 0 <= k < i < |xs| && Open(g, xs[i]) && (k > 0 || !root) :: xs[k].mask !! xs[i].mask)
  }

  lemma ReplacedTop(g: Cfg, stack: seq<Entry>, xs: seq<Entry>, before: set<nat>, done: set<nat>)
    requires stack != [] && KernelStack(g, stack, before)
    requires forall i | 0 < i < |stack| - 1 :: stack[i].mask !! done
    requires Replaces(g, Top(stack), |stack| == 1, xs, done)
    ensures KernelStack(g, Below(stack) + xs, done)
  {
    var s, b := Below(stack) + xs, |stack| - 1;
    forall i, k | 0 < k < i < |s| && Open(g, s[i]) ensures s[k].mask !! s[i].mask {
      if k < b <= i {
        assert stack[k].mask !! Top(stack).mask;
      }
    }
  }

  /** Where threads can finish, the top entry is the launch entry or reconverges at the exit. */
  lemma LeavingTop(g: Cfg, stack: seq<Entry>, done: set<nat>)
    requires stack != [] && KernelStack(g, stack, done) && Top(stack).pc in g.leaves
    ensures |stack| == 1 || Open(g, Top(stack))
  {
    assert OnCourse(g, stack[|stack| - 1]);
    LeavingIsOpen(g, Top(stack).recvgPc, Top(stack).pc);
    LeavingIsOpen(g, g.final, Top(stack).pc);
  }

  /** Finishing threads are in no entry but the top one and the launch entry. */
  lemma FinishingHeld(g: Cfg, w: Warp, iss: Issue, w': Warp, k: nat)
    requires KernelStack(g, w.stack, w.done) && Step(w, iss, w') && KernelStep(g, w, iss, w')
    requires 0 < k < |w.stack| - 1
    ensures w.stack[k].mask !! w'.done
  {
    if w'.done != w.done {
      LeavingTop(g, w.stack, w.done);
    }
  }

  lemma OpenStays(g: Cfg, p: Pc, next: Pc)
    requires StrictlyPostdominates(g, g.final, p) && Edge(g, p, next) && next != g.final
    ensures StrictlyPostdominates(g, g.final, next)
  {
    SuccessorPostdominated(g, g.final, p, next);
  }

  /** One path: the top entry moves on. */
  lemma KernelMoves(g: Cfg, top: Entry, root: bool, path: Path, done: set<nat>)
    requires OnCourse(g, top) && top.kind.Normal? && (root || top.recvgPc != NULL_PC)
    requires Edge(g, top.pc, path.pc) && path.pc != top.recvgPc && path.mask <= top.mask && path.mask !! done
    ensures Replaces(g, top, root, [top.(pc := path.pc, mask := path.mask)], done)
  {
    var e := top.(pc := path.pc, mask := path.mask);
    StaysOnCourse(g, top, e);
    if top.recvgPc == g.final && StrictlyPostdominates(g, g.final, top.pc) {
      OpenStays(g, top.pc, path.pc);
    }
  }

  /** Why an entry placed by a branch is open: the branched entry was, or it is the launch entry. */
  lemma OpenPath(g: Cfg, top: Entry, r: Pc, next: Pc)
    requires OnCourse(g, top) && top.kind.Normal? && IsReconvergence(g, r, top.pc) && Edge(g, top.pc, next)
    requires next != r && r == g.final && !StrictlyPostdominates(g, g.final, next)
    ensures Open(g, top) || top.recvgPc == NULL_PC
  {
    if StrictlyPostdominates(g, g.final, top.pc) {
      OpenStays(g, top.pc, next);
      assert false;
    }
  }

  lemma OpenWaits(g: Cfg, top: Entry, r: Pc)
    requires OnCourse(g, top) && top.kind.Normal? && IsReconvergence(g, r, top.pc) && r != top.recvgPc
    ensures Open(g, top.(pc := r)) ==> Open(g, top)
  {
  }

  /** Two paths with the reconvergence pc of the top entry. */
  lemma KernelSiblings(g: Cfg, top: Entry, root: bool, first: Path, second: Path, iss: Issue)
    requires WellFormed(g) && OnCourse(g, top) && top.kind.Normal? && top.recvgPc != NULL_PC
    requires Edge(g, top.pc, first.pc) && Edge(g, top.pc, second.pc) && IsReconvergence(g, iss.recvgPc, top.pc)
    requires first.mask !! iss.done && second.mask !! iss.done && first.mask !! second.mask
    requires first.mask <= top.mask && second.mask <= top.mask && iss.recvgPc == top.recvgPc
    ensures Replaces(g, top, root, AfterDivergence(top, first, second, iss.recvgPc, iss.cycle), iss.done)
  {
    DivergenceOnCourse(g, top, first, second, iss.recvgPc, iss.cycle);
    var r := iss.recvgPc;
    if r == g.final {
      if first.pc != r && !StrictlyPostdominates(g, r, first.pc) {
        OpenPath(g, top, r, first.pc);
      }
      if second.pc != r && !StrictlyPostdominates(g, r, second.pc) {
        OpenPath(g, top, r, second.pc);
      }
    }
  }

  /** Two paths with a new reconvergence pc, where the top entry waits. */
  lemma KernelChildren(g: Cfg, top: Entry, root: bool, first: Path, second: Path, iss: Issue)
    requires WellFormed(g) && OnCourse(g, top) && top.kind.Normal? && top.pc in g.succ
    requires root || (top.recvgPc != NULL_PC && top.mask !! iss.done)
    requires Edge(g, top.pc, first.pc) && Edge(g, top.pc, second.pc) && IsReconvergence(g, iss.recvgPc, top.pc)
    requires first.mask !! iss.done && second.mask !! iss.done && first.mask !! second.mask
    requires first.mask <= top.mask && second.mask <= top.mask && iss.recvgPc != top.recvgPc
    ensures Replaces(g, top, root, AfterDivergence(top, first, second, iss.recvgPc, iss.cycle), iss.done)
  {
    var r := iss.recvgPc;
    DivergenceOnCourse(g, top, first, second, r, iss.cycle);
    ReconvergenceIsReal(g, r, top.pc);
    OpenWaits(g, top, r);
    if r == g.final {
      if first.pc != r && !StrictlyPostdominates(g, r, first.pc) {
        OpenPath(g, top, r, first.pc);
      }
      if second.pc != r && !StrictlyPostdominates(g, r, second.pc) {
        OpenPath(g, top, r, second.pc);
      }
    }
  }

  /** An entry above the launch entry has no finishing threads when it starts to wait. */
  lemma WaitingLive(g: Cfg, stack: seq<Entry>, before: set<nat>, iss: Issue)
    requires stack != [] && KernelStack(g, stack, before) && |stack| > 1 && iss.pc == Top(stack).pc
    requires IsReconvergence(g, iss.recvgPc, iss.pc) && iss.recvgPc != Top(stack).recvgPc
    ensures iss.pc !in g.leaves
  {
    if iss.pc in g.leaves {
      LeavingTop(g, stack, before);
      LeavingIsOpen(g, iss.recvgPc, iss.pc);
      assert false;
    }
  }

  /** A step of a kernel replaces the top entry. */
  lemma KernelUpdate(stack: seq<Entry>, iss: Issue, order: seq<Path>) returns (xs: seq<Entry>)
    requires WellPosed(stack, iss) && Uniform(stack, iss) && !iss.op.CallOp? && Top(stack).kind.Normal?
    requires order == PathOrder(PathGroups(stack, iss), iss.NotTakenPc())
    ensures UpdateSpec(stack, iss) == Below(stack) + xs
    ensures |order| == 0 ==> xs == []
    ensures |order| == 1 ==> if order[0].pc == Top(stack).recvgPc then xs == []
                             else xs == [Top(stack).(pc := order[0].pc, mask := order[0].mask)]
    ensures |order| == 2 ==> xs == AfterDivergence(Top(stack), order[0], order[1], iss.recvgPc, iss.cycle)
  {
    var top := Top(stack);
    if |order| == 2 {
      xs := AfterDivergence(top, order[0], order[1], iss.recvgPc, iss.cycle);
    } else if |order| == 1 && !Reconverges(top, order[0].pc) {
      xs := [top.(pc := order[0].pc, mask := order[0].mask)];
    } else {
      xs := [];
      assert Below(stack) + xs == Below(stack);
    }
  }

  /** Every path of a kernel step is an edge of the graph. */
  lemma PathsAreEdges(g: Cfg, w: Warp, iss: Issue, w': Warp, order: seq<Path>)
    requires Step(w, iss, w') && KernelStep(g, w, iss, w')
    requires forall k | 0 <= k < |order| :: order[k].mask != {} && order[k].mask <= Live(w.stack, iss.done)
    requires forall k, t | 0 <= k < |order| && t in order[k].mask :: iss.next[t] == order[k].pc
    ensures forall k | 0 <= k < |order| :: Edge(g, iss.pc, order[k].pc)
  {
    forall k | 0 <= k < |order| ensures Edge(g, iss.pc, order[k].pc) {
      var t :| t in order[k].mask;
      assert Edge(g, iss.pc, iss.next[t]);
    }
  }

  lemma KernelReplaces(g: Cfg, w: Warp, iss: Issue, w': Warp) returns (xs: seq<Entry>)
    requires WellFormed(g) && KernelStack(g, w.stack, w.done) && Step(w, iss, w')
    requires Follows(g, w.stack, iss) && KernelStep(g, w, iss, w')
    ensures w'.stack == Below(w.stack) + xs && Replaces(g, Top(w.stack), |w.stack| == 1, xs, w'.done)
  {
    var top, root, b := Top(w.stack), |w.stack| == 1, |w.stack| - 1;
    assert top == w.stack[b] && OnCourse(g, top);
    var order := OrderFacts(w.stack, iss);
    xs := KernelUpdate(w.stack, iss, order);
    PathsAreEdges(g, w, iss, w', order);
    if |order| == 1 && xs != [] {
      KernelMoves(g, top, root, order[0], iss.done);
    } else if |order| == 2 {
      if iss.recvgPc == top.recvgPc {
        ReconvergenceIsReal(g, iss.recvgPc, top.pc);
        KernelSiblings(g, top, root, order[0], order[1], iss);
      } else {
        if !root {
          WaitingLive(g, w.stack, w.done, iss);
        }
        KernelChildren(g, top, root, order[0], order[1], iss);
      }
    }
  }

  lemma KernelKeeps(g: Cfg, w: Warp, iss: Issue, w': Warp)
    requires WellFormed(g) && KernelStack(g, w.stack, w.done) && Step(w, iss, w')
    requires Follows(g, w.stack, iss) && KernelStep(g, w, iss, w')
    ensures KernelStack(g, w'.stack, w'.done)
  {
    var xs := KernelReplaces(g, w, iss, w');
    forall k: nat | 0 < k < |w.stack| - 1 ensures w.stack[k].mask !! w'.done {
      FinishingHeld(g, w, iss, w', k);
    }
    ReplacedTop(g, w.stack, xs, w.done, w'.done);
  }

  ghost predicate KernelAt(g: Cfg, ws: seq<Warp>, issues: seq<Issue>, i: nat)
    requires IsRun(ws, issues) && i < |issues|
  {
    assert Step(ws[i], issues[i], ws[i + 1]);
    KernelStep(g, ws[i], issues[i], ws[i + 1])
  }

  ghost predicate IsKernel(g: Cfg, ws: seq<Warp>, issues: seq<Issue>) {
    IsFlow(g, ws, issues) && forall i: nat | i < |issues| :: KernelAt(g, ws, issues, i)
  }

  lemma KernelStepAt(g: Cfg, ws: seq<Warp>, issues: seq<Issue>, i: nat)
    requires IsKernel(g, ws, issues) && i < |issues|
    ensures WellFormed(g) && Step(ws[i], issues[i], ws[i + 1])
    ensures Follows(g, ws[i].stack, issues[i]) && KernelStep(g, ws[i], issues[i], ws[i + 1])
  {
    assert FollowsAt(g, ws, issues, i) && KernelAt(g, ws, issues, i);
  }

  lemma KernelNext(g: Cfg, ws: seq<Warp>, issues: seq<Issue>, i: nat)
    requires IsKernel(g, ws, issues) && i < |issues| && KernelStack(g, ws[i].stack, ws[i].done)
    ensures KernelStack(g, ws[i + 1].stack, ws[i + 1].done)
  {
    var w, iss, w' := ws[i], issues[i], ws[i + 1];
    KernelStepAt(g, ws, issues, i);
    KernelKeeps(g, w, iss, w');
  }

  /** In every kernel run only the launch entry ever holds finished threads. */
  lemma {:induction false} KernelRun(g: Cfg, ws: seq<Warp>, issues: seq<Issue>, i: nat)
    requires IsKernel(g, ws, issues) && i < |ws|
    ensures KernelStack(g, ws[i].stack, ws[i].done)
  {
    if i > 0 {
      KernelRun(g, ws, issues, i - 1);
      KernelNext(g, ws, issues, i - 1);
    }
  }

  /** So while a thread lives, the top entry holds a live one, at its own pc. */
  lemma TopHasLive(g: Cfg, w: Warp, t: nat) returns (u: nat)
    requires KernelStack(g, w.stack, w.done) && Valid(w) && t in w.Alive()
    ensures w.stack != [] && u in Top(w.stack).mask && u in w.Alive() && w.pcs[u] == Top(w.stack).pc
  {
    assert Holder(w.stack, t) >= 0;
    var b := |w.stack| - 1;
    assert EntryOk(w.stack, b) && w.stack[b].mask <= w.launched;
    if b == 0 {
      u := t;
    } else {
      u :| u in Top(w.stack).mask;
    }
    HolderIs(w.stack, u, b);
  }

  // ----- kernels that do not jump to the exit's pc ----------------------------------------------------

  /** The launch entry has finished threads only when it waits at the exit, and then no thread is
      at that pc, except before the first step. */
  ghost predicate RootWaits(g: Cfg, w: Warp)
    requires InWarp(w.launched, |w.pcs|)
  {
    && (w.stack != [] ==> w.stack[0].mask !! w.done || w.stack[0].pc == g.final)
    && ((forall t | t in w.Alive() :: w.pcs[t] != g.final) || (|w.stack| == 1 && w.stack[0].mask !! w.done))
  }

  /** A top entry with finished threads has no others. */
  lemma SpentTop(g: Cfg, w: Warp)
    requires KernelStack(g, w.stack, w.done) && Valid(w) && RootWaits(g, w)
    requires w.stack != [] && !(Top(w.stack).mask !! w.done)
    ensures |w.stack| == 1 && w.Alive() == {}
  {
    assert |w.stack| == 1 && Top(w.stack).pc == g.final;
    if t :| t in w.Alive() {
      assert false;
    }
  }

  lemma PopsWhenSpent(w: Warp, iss: Issue, w': Warp)
    requires Shaped(w) && Step(w, iss, w') && w.Alive() == {}
    ensures w'.stack == Below(w.stack)
  {
    var order := OrderFacts(w.stack, iss);
    assert Live(w.stack, iss.done) == {};
  }

  /** After a step no thread is at the exit's pc. */
  lemma StepUnderway(g: Cfg, w: Warp, iss: Issue, w': Warp)
    requires NoJumpToExit(g) && Valid(w) && RootWaits(g, w) && Step(w, iss, w') && KernelStep(g, w, iss, w')
    ensures InWarp(w'.launched, |w'.pcs|) && forall t | t in w'.Alive() :: w'.pcs[t] != g.final
  {
    forall t | t in w'.Alive() ensures w'.pcs[t] != g.final {
      if t in Live(w.stack, iss.done) {
        assert Edge(g, iss.pc, iss.next[t]);
      } else {
        assert Holder(w.stack, t) >= 0;
      }
    }
  }

  lemma ParentIsRoot(g: Cfg, stack: seq<Entry>, done: set<nat>, j: int)
    requires stack != [] && KernelStack(g, stack, done) && Open(g, Top(stack)) && Top(stack).mask != {}
    requires IsParent(stack, j, |stack| - 1)
    ensures j == 0
  {
    if j > 0 {
      assert false;
    }
  }

  /** Under other entries, the launch entry has finishing threads only when it waits at the exit. */
  lemma CoveredRoot(g: Cfg, w: Warp, iss: Issue, w': Warp)
    requires KernelStack(g, w.stack, w.done) && Laminar(w.stack) && |w.stack| > 1
    requires Step(w, iss, w') && KernelStep(g, w, iss, w')
    requires w.stack[0].mask !! w.done || w.stack[0].pc == g.final
    ensures w.stack[0].mask !! w'.done || w.stack[0].pc == g.final
  {
    if w'.done != w.done {
      var b := |w.stack| - 1;
      LeavingTop(g, w.stack, w.done);
      assert EntryOk(w.stack, b);
      var j :| IsParent(w.stack, j, b);
      ParentIsRoot(g, w.stack, w.done, j);
    }
  }

  /** The launch entry itself, moved on or made to wait. */
  lemma MovedRoot(g: Cfg, w: Warp, iss: Issue, w': Warp)
    requires WellFormed(g) && KernelStack(g, w.stack, w.done) && |w.stack| == 1 && Top(w.stack).mask !! w.done
    requires Step(w, iss, w') && Follows(g, w.stack, iss) && KernelStep(g, w, iss, w')
    ensures w'.stack != [] ==> w'.stack[0].mask !! w'.done || w'.stack[0].pc == g.final
  {
    var top := Top(w.stack);
    var order := OrderFacts(w.stack, iss);
    var xs := KernelUpdate(w.stack, iss, order);
    assert Below(w.stack) + xs == xs;
    if |order| == 2 && w'.done != w.done {
      LeavingIsOpen(g, iss.recvgPc, iss.pc);
    }
  }

  lemma RootKeeps(g: Cfg, w: Warp, iss: Issue, w': Warp)
    requires WellFormed(g) && NoJumpToExit(g) && KernelStack(g, w.stack, w.done) && Valid(w) && RootWaits(g, w)
    requires Step(w, iss, w') && Follows(g, w.stack, iss) && KernelStep(g, w, iss, w')
    ensures InWarp(w'.launched, |w'.pcs|) && RootWaits(g, w')
  {
    StepUnderway(g, w, iss, w');
    if |w.stack| > 1 {
      CoveredRoot(g, w, iss, w');
      var xs := KernelReplaces(g, w, iss, w');
      assert w'.stack[0] == w.stack[0];
    } else if Top(w.stack).mask !! w.done {
      MovedRoot(g, w, iss, w');
    } else {
      SpentTop(g, w);
      PopsWhenSpent(w, iss, w');
    }
  }

  lemma RootNext(g: Cfg, ws: seq<Warp>, issues: seq<Issue>, i: nat)
    requires IsKernel(g, ws, issues) && NoJumpToExit(g) && i < |issues|
    requires InWarp(ws[i].launched, |ws[i].pcs|) && RootWaits(g, ws[i])
    ensures InWarp(ws[i + 1].launched, |ws[i + 1].pcs|) && RootWaits(g, ws[i + 1])
  {
    var w, iss, w' := ws[i], issues[i], ws[i + 1];
    KernelStepAt(g, ws, issues, i);
    KernelRun(g, ws, issues, i);
    FlowAgrees(g, ws, issues);
    assert Valid(w);
    RootKeeps(g, w, iss, w');
  }

  lemma {:induction false} RootRun(g: Cfg, ws: seq<Warp>, issues: seq<Issue>, i: nat)
    requires IsKernel(g, ws, issues) && NoJumpToExit(g) && i < |ws|
    ensures InWarp(ws[i].launched, |ws[i].pcs|) && RootWaits(g, ws[i])
  {
    if i > 0 {
      RootRun(g, ws, issues, i - 1);
      RootNext(g, ws, issues, i - 1);
    }
  }

  lemma LiveTop(g: Cfg, w: Warp, t: nat)
    requires KernelStack(g, w.stack, w.done) && Valid(w) && RootWaits(g, w) && t in w.Alive()
    ensures w.stack != []
    ensures forall u | u in Top(w.stack).mask :: u in w.Alive() && w.pcs[u] == Top(w.stack).pc
  {
    assert Holder(w.stack, t) >= 0;
    if !(Top(w.stack).mask !! w.done) {
      SpentTop(g, w);
      assert false;
    }
    assert Top(w.stack).mask <= w.launched;
    forall u | u in Top(w.stack).mask ensures u in w.Alive() && w.pcs[u] == Top(w.stack).pc {
      HolderIs(w.stack, u, |w.stack| - 1);
    }
  }

  /** While a thread of the kernel lives, every thread of the top entry is unfinished and at the
      top's pc: neither assert of `ptx_exec_inst` fails. */
  lemma IssuedThreadsLive(g: Cfg, ws: seq<Warp>, issues: seq<Issue>, i: nat, t: nat)
    requires IsKernel(g, ws, issues) && NoJumpToExit(g) && i < |ws| && t in ws[i].Alive()
    ensures ws[i].stack != [] && InWarp(ws[i].launched, |ws[i].pcs|)
    ensures forall u | u in Top(ws[i].stack).mask :: u in ws[i].Alive() && ws[i].pcs[u] == Top(ws[i].stack).pc
  {
    KernelRun(g, ws, issues, i);
    RootRun(g, ws, issues, i);
    FlowAgrees(g, ws, issues);
    LiveTop(g, ws[i], t);
  }
}
