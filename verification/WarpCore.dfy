/** `core_t::updateSIMTStack`: the update made from the state of the warp's threads, and what it
    means for them. */
module WarpCore {
  import opened OrderedKeys
  import opened SimtStacks
  import opened SimtInvariant
  import opened SimtShape
  import opened SimtRuns
  import opened SimtPaths

  // ----- the reconvergence pc ---------------------------------------------------------------------

  /** A branch that reconverges at the caller takes the return pc of the first
      thread that is still running. */
  function ResolvedRecvg(recvgPc: Pc, finished: seq<bool>, returnPcs: seq<Pc>): (r: Pc)
    requires |finished| == |returnPcs|
    ensures recvgPc != RETURN_PC ==> r == recvgPc
    ensures (forall k | 0 <= k < |finished| :: finished[k]) ==> r == recvgPc
  {
    if |finished| == 0 then recvgPc else
    var n := |finished| - 1;
    var r := ResolvedRecvg(recvgPc, finished[..n], returnPcs[..n]);
    if !finished[n] && r == RETURN_PC then returnPcs[n] else r
  }

  /** The loop stops at the first unfinished thread. */
  lemma {:induction false} ResolvedAtFirst(finished: seq<bool>, returnPcs: seq<Pc>, first: nat)
    requires |finished| == |returnPcs| && first < |finished| && !finished[first]
    requires returnPcs[first] != RETURN_PC && forall k | 0 <= k < first :: finished[k]
    ensures ResolvedRecvg(0xFFFF_FFFF_FFFF_FFFE, finished, returnPcs) == returnPcs[first]
  {
    var n := |finished| - 1;
    if first < n {
      ResolvedAtFirst(finished[..n], returnPcs[..n], first);
    }
  }

  /** The resolved pc is the return pc of the active threads exactly when the first unfinished
      thread of the warp, active or not, returns there too. */
  lemma ResolvedForActive(finished: seq<bool>, returnPcs: seq<Pc>, active: set<nat>, returnPc: Pc, first: nat)
    requires |finished| == |returnPcs| && active != {}
    requires forall t | t in active :: t < |finished| && !finished[t] && returnPcs[t] == returnPc
    requires forall k | 0 <= k < |finished| :: returnPcs[k] != RETURN_PC
    requires first < |finished| && !finished[first] && forall k | 0 <= k < first :: finished[k]
    ensures ResolvedRecvg(RETURN_PC, finished, returnPcs) == returnPc <==> returnPcs[first] == returnPc
    ensures first in active ==> ResolvedRecvg(RETURN_PC, finished, returnPcs) == returnPc
  {
    ResolvedAtFirst(finished, returnPcs, first);
  }

  ghost function IssueOf(
    finished: seq<bool>, pcs: seq<Pc>, returnPcs: seq<Pc>,
    recvgPc: Pc, op: OpKind, size: nat, pc: Pc, cycle: nat): Issue
    requires |finished| == |pcs| == |returnPcs|
  {
    Issue(set i | 0 <= i < |finished| && finished[i],
          seq(|pcs|, i requires 0 <= i < |pcs| => if finished[i] then NULL_PC else pcs[i]),
          ResolvedRecvg(recvgPc, finished, returnPcs), op, size, pc, cycle)
  }

  // ----- what the loop over the threads collects -----------------------------------------------------

  /** The loop of `core_t::updateSIMTStack`: next pcs, finished threads and the
      reconvergence pc, read off the warp's threads. */
  method GatherIssue(
    finished: seq<bool>, pcs: seq<Pc>, returnPcs: seq<Pc>,
    recvgPc: Pc, op: OpKind, size: nat, pc: Pc, cycle: nat) returns (iss: Issue)
    requires |finished| == |pcs| == |returnPcs|
    ensures iss.done == set i | 0 <= i < |finished| && finished[i]
    ensures |iss.next| == |pcs|
    ensures forall i | 0 <= i < |pcs| :: iss.next[i] == if finished[i] then 0xFFFF_FFFF_FFFF_FFFF else pcs[i]
    ensures iss.recvgPc == ResolvedRecvg(recvgPc, finished, returnPcs)
    ensures iss.op == op && iss.size == size && iss.pc == pc && iss.cycle == cycle
  {
    var done: set<nat>, next: seq<Pc>, recvg := {}, [], recvgPc;
    for i := 0 to |pcs|
      invariant done == set j | 0 <= j < i && finished[j]
      invariant |next| == i && forall j | 0 <= j < i :: next[j] == if finished[j] then NULL_PC else pcs[j]
      invariant recvg == ResolvedRecvg(recvgPc, finished[..i], returnPcs[..i])
    {
      assert finished[..i + 1][..i] == finished[..i] && returnPcs[..i + 1][..i] == returnPcs[..i];
      if finished[i] {
        done := done + {i};
        next := next + [NULL_PC];
      } else {
        if recvg == RETURN_PC {
          recvg := returnPcs[i];
        }
        next := next + [pcs[i]];
      }
    }
    assert finished[..|pcs|] == finished && returnPcs[..|pcs|] == returnPcs;
    iss := Issue(done, next, recvg, op, size, pc, cycle);
  }

  // ----- the state of the threads --------------------------------------------------------------------

  /** The unfinished threads of the top entry that are now at `p`. */
  ghost function ThreadsAt(stack: seq<Entry>, finished: seq<bool>, pcs: seq<Pc>, p: Pc): set<nat>
    requires stack != [] && InWarp(Top(stack).mask, |pcs|) && |finished| == |pcs|
  {
    set t | t in Top(stack).mask && !finished[t] && pcs[t] == p
  }

  /** Where the unfinished threads of the top entry are now. */
  ghost function Targets(stack: seq<Entry>, finished: seq<bool>, pcs: seq<Pc>): set<Pc>
    requires stack != [] && InWarp(Top(stack).mask, |pcs|) && |finished| == |pcs|
  {
    set t | t in Top(stack).mask && !finished[t] :: pcs[t]
  }

  /** What the source asserts, or takes for granted, of the instruction just executed at `pc`. */
  ghost predicate Executed(stack: seq<Entry>, finished: seq<bool>, pcs: seq<Pc>, op: OpKind, pc: Pc) {
    && stack != [] && Top(stack).mask != {} && pc == Top(stack).pc
    && |finished| == |pcs| && InWarp(Top(stack).mask, |pcs|)
    && (Top(stack).kind.Call? ==> |stack| > 1)
    && 0xFFFF_FFFF_FFFF_FFFF !in Targets(stack, finished, pcs)
    && |Targets(stack, finished, pcs)| <= 2
    && (op.CallOp? || (op.RetOp? && Top(stack).kind.Call?) ==> |Targets(stack, finished, pcs)| <= 1)
  }

  /** A branch to the enclosing reconvergence pc must name that as its own. */
  ghost predicate Proper(stack: seq<Entry>, finished: seq<bool>, pcs: seq<Pc>, recvg: Pc)
    requires stack != [] && InWarp(Top(stack).mask, |pcs|) && |finished| == |pcs|
  {
    var top, targets := Top(stack), Targets(stack, finished, pcs);
    top.kind.Normal? && |targets| == 2 && top.recvgPc in targets ==> recvg == top.recvgPc
  }

  ghost function FinishedSet(finished: seq<bool>): set<nat> {
    set i | 0 <= i < |finished| && finished[i]
  }

  /** From warp `w`, only unfinished threads of the top entry have moved or finished. */
  ghost predicate OnlyTopMoved(w: Warp, finished: seq<bool>, pcs: seq<Pc>) {
    && w.stack != [] && |w.pcs| == |pcs| == |finished|
    && (forall t | t in w.done :: t < |pcs|)
    && (forall t: nat | t < |pcs| && (t !in Top(w.stack).mask || t in w.done) ::
          pcs[t] == w.pcs[t] && (finished[t] <==> t in w.done))
  }

  ghost predicate IsTopmost(stack: seq<Entry>, t: nat, i: int) {
    0 <= i < |stack| && t in stack[i].mask && forall j | i < j < |stack| :: t !in stack[j].mask
  }

  /** The topmost entry that holds thread `t` is at `pc`. */
  ghost predicate HeldAt(stack: seq<Entry>, t: nat, pc: Pc) {
    exists i :: IsTopmost(stack, t, i) && stack[i].pc == pc
  }

  lemma HeldAtHolder(stack: seq<Entry>, t: nat, pc: Pc)
    ensures HeldAt(stack, t, pc) <==> Holder(stack, t) >= 0 && stack[Holder(stack, t)].pc == pc
  {
    if i :| IsTopmost(stack, t, i) && stack[i].pc == pc {
      HolderIs(stack, t, i);
    }
    if Holder(stack, t) >= 0 {
      assert IsTopmost(stack, t, Holder(stack, t));
    }
  }

  lemma ExecutedIsPosed(
    stack: seq<Entry>, finished: seq<bool>, pcs: seq<Pc>, returnPcs: seq<Pc>,
    recvgPc: Pc, op: OpKind, size: nat, pc: Pc, cycle: nat)
    requires |returnPcs| == |pcs| && Executed(stack, finished, pcs, op, pc)
    ensures var iss := IssueOf(finished, pcs, returnPcs, recvgPc, op, size, pc, cycle);
      && WellPosed(stack, iss) && Uniform(stack, iss)
      && PathGroups(stack, iss).Keys == Targets(stack, finished, pcs)
      && forall p :: GoingTo(stack, iss, p) == ThreadsAt(stack, finished, pcs, p)
  {
    var iss := IssueOf(finished, pcs, returnPcs, recvgPc, op, size, pc, cycle);
    forall t | t in Live(stack, iss.done) ensures iss.next[t] == pcs[t] != NULL_PC {
      assert pcs[t] in Targets(stack, finished, pcs);
    }
    assert PathGroups(stack, iss).Keys == Targets(stack, finished, pcs);
    forall p ensures GoingTo(stack, iss, p) == ThreadsAt(stack, finished, pcs, p) {
    }
  }

  /** The update is a step from `w` to the warp whose threads are in the state collected. */
  lemma ThreadsStep(
    w: Warp, finished: seq<bool>, pcs: seq<Pc>, returnPcs: seq<Pc>,
    recvgPc: Pc, op: OpKind, size: nat, pc: Pc, cycle: nat)
    requires |returnPcs| == |pcs| && Executed(w.stack, finished, pcs, op, pc) && OnlyTopMoved(w, finished, pcs)
    ensures var iss := IssueOf(finished, pcs, returnPcs, recvgPc, op, size, pc, cycle);
      && WellPosed(w.stack, iss) && Uniform(w.stack, iss)
      && Step(w, iss, Warp(UpdateSpec(w.stack, iss), pcs, FinishedSet(finished), w.launched))
  {
    ExecutedIsPosed(w.stack, finished, pcs, returnPcs, recvgPc, op, size, pc, cycle);
    var iss := IssueOf(finished, pcs, returnPcs, recvgPc, op, size, pc, cycle);
    var w' := Warp(UpdateSpec(w.stack, iss), pcs, FinishedSet(finished), w.launched);
    forall t: nat | t < |w.pcs| && t !in Live(w.stack, w.done) ensures w'.pcs[t] == w.pcs[t] {
      assert t !in Top(w.stack).mask || t in w.done;
    }
    forall t | t in w.done ensures t in w'.done {
      assert pcs[t] == w.pcs[t];
    }
    forall t | t in w'.done ensures t in w.done + Top(w.stack).mask {
    }
  }

  lemma HeldAgrees(stack: seq<Entry>, live: set<nat>, pcs: seq<Pc>)
    requires InWarp(live, |pcs|)
    ensures Agrees(stack, live, pcs) <==> forall t | t in live :: HeldAt(stack, t, pcs[t])
  {
    forall t | t in live
      ensures HeldAt(stack, t, pcs[t]) <==> Holder(stack, t) >= 0 && stack[Holder(stack, t)].pc == pcs[t]
    {
      HeldAtHolder(stack, t, pcs[t]);
    }
  }

  /** If stack and threads agreed, they agree again exactly when the reconvergence pc is proper. */
  lemma ThreadsAgree(
    w: Warp, finished: seq<bool>, pcs: seq<Pc>, returnPcs: seq<Pc>,
    recvgPc: Pc, op: OpKind, size: nat, pc: Pc, cycle: nat)
    requires |returnPcs| == |pcs| && Executed(w.stack, finished, pcs, op, pc)
    requires OnlyTopMoved(w, finished, pcs) && Valid(w)
    ensures var iss := IssueOf(finished, pcs, returnPcs, recvgPc, op, size, pc, cycle);
      && WellPosed(w.stack, iss) && Uniform(w.stack, iss)
      && (Proper(w.stack, finished, pcs, ResolvedRecvg(recvgPc, finished, returnPcs)) <==>
          forall t | t in w.launched && !finished[t] :: HeldAt(UpdateSpec(w.stack, iss), t, pcs[t]))
  {
    ThreadsStep(w, finished, pcs, returnPcs, recvgPc, op, size, pc, cycle);
    ExecutedIsPosed(w.stack, finished, pcs, returnPcs, recvgPc, op, size, pc, cycle);
    var iss := IssueOf(finished, pcs, returnPcs, recvgPc, op, size, pc, cycle);
    var w' := Warp(UpdateSpec(w.stack, iss), pcs, FinishedSet(finished), w.launched);
    StepCorrect(w, iss, w');
    HeldAgrees(w'.stack, w'.Alive(), pcs);
    assert |PathGroups(w.stack, iss)| == |Targets(w.stack, finished, pcs)|;
    assert forall t :: t in w'.Alive() <==> t in w.launched && !finished[t];
  }

  /** Some threads of the top entry fell through and others were taken to `p`, and neither is where
      the paths meet. */
  ghost predicate Splits(
    stack: seq<Entry>, finished: seq<bool>, pcs: seq<Pc>, recvg: Pc, fallThrough: Pc, p: Pc)
    requires stack != [] && InWarp(Top(stack).mask, |pcs|) && |finished| == |pcs|
  {
    && p != fallThrough && {p, fallThrough} <= Targets(stack, finished, pcs)
    && recvg !in {p, fallThrough}
    && (Top(stack).kind.Normal? ==> Top(stack).recvgPc !in {p, fallThrough})
  }

  /** `p` is issued next, with its threads, and `q` waits right below it with its own. */
  ghost predicate OneAboveOther(stack: seq<Entry>, p: Pc, ps: set<nat>, q: Pc, qs: set<nat>) {
    |stack| >= 2 && Top(stack).pc == p && Top(stack).mask == ps
    && Top(Below(stack)).pc == q && Top(Below(stack)).mask == qs
  }

  lemma ThreadsSplit(
    stack: seq<Entry>, finished: seq<bool>, pcs: seq<Pc>, returnPcs: seq<Pc>,
    recvgPc: Pc, op: OpKind, size: nat, pc: Pc, cycle: nat, p: Pc)
    requires |returnPcs| == |pcs| && Executed(stack, finished, pcs, op, pc)
    requires 0 <= pc && pc + size < 0x1_0000_0000_0000_0000
    requires Splits(stack, finished, pcs, ResolvedRecvg(recvgPc, finished, returnPcs), pc + size, p)
    ensures var iss := IssueOf(finished, pcs, returnPcs, recvgPc, op, size, pc, cycle);
      && WellPosed(stack, iss) && Uniform(stack, iss)
      && OneAboveOther(UpdateSpec(stack, iss), p, ThreadsAt(stack, finished, pcs, p),
                       pc + size, ThreadsAt(stack, finished, pcs, pc + size))
  {
    ExecutedIsPosed(stack, finished, pcs, returnPcs, recvgPc, op, size, pc, cycle);
    var iss := IssueOf(finished, pcs, returnPcs, recvgPc, op, size, pc, cycle);
    var t :| t in Top(stack).mask && !finished[t] && pcs[t] == p;
    var u :| u in Top(stack).mask && !finished[u] && pcs[u] == pc + size;
    assert t in GoingTo(stack, iss, p) && u in GoingTo(stack, iss, pc + size);
    TakenSideFirst(stack, iss, p, pc + size);
  }

  /** `core_t::updateSIMTStack`. From any valid warp of which only the top entry's threads moved,
      every unfinished thread is afterwards at the pc of the topmost entry holding it, exactly when
      the reconvergence pc is proper; and the taken side of a branch is issued next. */
  method UpdateFromThreads(
    s: SimtStack, finished: seq<bool>, pcs: seq<Pc>, returnPcs: seq<Pc>,
    recvgPc: Pc, op: OpKind, size: nat, pc: Pc, cycle: nat)
    requires |finished| == |pcs| == |returnPcs| == s.warpSize
    requires Executed(s.stack, finished, pcs, op, pc)
    modifies s`stack
    ensures forall w: Warp | w.stack == old(s.stack) && Valid(w) && OnlyTopMoved(w, finished, pcs) ::
      Proper(old(s.stack), finished, pcs, ResolvedRecvg(recvgPc, finished, returnPcs)) <==>
        forall t | t in w.launched && !finished[t] :: HeldAt(s.stack, t, pcs[t])
    ensures 0 <= pc && pc + size < 0x1_0000_0000_0000_0000 ==>
      forall p | Splits(old(s.stack), finished, pcs, ResolvedRecvg(recvgPc, finished, returnPcs), pc + size, p) ::
        OneAboveOther(s.stack, p, ThreadsAt(old(s.stack), finished, pcs, p),
                      pc + size, ThreadsAt(old(s.stack), finished, pcs, pc + size))
    ensures var iss := IssueOf(finished, pcs, returnPcs, recvgPc, op, size, pc, cycle);
      WellPosed(old(s.stack), iss) && Uniform(old(s.stack), iss) && s.stack == UpdateSpec(old(s.stack), iss)
  {
    ghost var stack := s.stack;
    ExecutedIsPosed(stack, finished, pcs, returnPcs, recvgPc, op, size, pc, cycle);
    var iss := GatherIssue(finished, pcs, returnPcs, recvgPc, op, size, pc, cycle);
    assert iss == IssueOf(finished, pcs, returnPcs, recvgPc, op, size, pc, cycle) by {
      assert iss.next == IssueOf(finished, pcs, returnPcs, recvgPc, op, size, pc, cycle).next;
    }
    s.Update(iss);
    forall w: Warp | w.stack == stack && Valid(w) && OnlyTopMoved(w, finished, pcs)
      ensures Proper(stack, finished, pcs, ResolvedRecvg(recvgPc, finished, returnPcs)) <==>
        forall t | t in w.launched && !finished[t] :: HeldAt(s.stack, t, pcs[t])
    {
      ThreadsAgree(w, finished, pcs, returnPcs, recvgPc, op, size, pc, cycle);
    }
    if 0 <= pc && pc + size < 0x1_0000_0000_0000_0000 {
      forall p | Splits(stack, finished, pcs, ResolvedRecvg(recvgPc, finished, returnPcs), pc + size, p)
        ensures OneAboveOther(s.stack, p, ThreadsAt(stack, finished, pcs, p),
                              pc + size, ThreadsAt(stack, finished, pcs, pc + size))
      {
        ThreadsSplit(stack, finished, pcs, returnPcs, recvgPc, op, size, pc, cycle, p);
      }
    }
  }
}
