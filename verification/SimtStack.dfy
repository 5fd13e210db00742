/** The SIMT reconvergence stack of one warp.

The stack keeps (pc, mask, reconvergence pc, type) entries, the top being the
last element. `UpdateSpec` gives the effect of one `simt_stack::update` in
closed form; the class `SimtStack` holds the loops of the source and is proved
to compute it.
 */
module SimtStacks {
  import opened OrderedKeys

  /** Program counters are 64-bit unsigned; `(address_type)-1` means "none". */
  type Pc = int
  const PC_SPACE: int := 0x1_0000_0000_0000_0000
  const NULL_PC: Pc := PC_SPACE - 1
  /** `RECONVERGE_RETURN_PC`: "the reconvergence point is the caller's return pc". */
  const RETURN_PC: Pc := PC_SPACE - 2

  datatype EntryKind = Normal | Call

  datatype Entry = Entry(
    pc: Pc, callDepth: nat, mask: set<nat>, recvgPc: Pc, divCycle: nat, kind: EntryKind)

  const FRESH_ENTRY := Entry(NULL_PC, 0, {}, NULL_PC, 0, Normal)

  datatype OpKind = CallOp | RetOp | OtherOp

  /** What `update` is told about the instruction just executed. */
  datatype Issue = Issue(
    done: set<nat>, next: seq<Pc>, recvgPc: Pc, op: OpKind, size: nat, pc: Pc, cycle: nat)
  {
    function NotTakenPc(): Pc {
      (pc + size) % PC_SPACE
    }
  }

  function Top(stack: seq<Entry>): Entry
    requires stack != []
  {
    stack[|stack| - 1]
  }

  function Below(stack: seq<Entry>): seq<Entry>
    requires stack != []
  {
    stack[..|stack| - 1]
  }

  ghost predicate InWarp(mask: set<nat>, warpSize: nat) {
    forall t | t in mask :: t < warpSize
  }

  // ----- grouping by next pc ---------------------------------------------------

  ghost function NextPcs(live: set<nat>, next: seq<Pc>): set<Pc>
    requires InWarp(live, |next|)
  {
    set t | t in live :: next[t]
  }

  /** The partition of `live` by next pc. */
  ghost function Groups(live: set<nat>, next: seq<Pc>): map<Pc, set<nat>>
    requires InWarp(live, |next|)
  {
    map p | p in NextPcs(live, next) :: set t | t in live && next[t] == p
  }

  /** The path handled first: the fall-through one if present, else the least pc. */
  function FirstPath(keys: set<Pc>, notTaken: Pc): (p: Pc)
    requires keys != {}
    ensures p in keys
    ensures notTaken in keys ==> p == notTaken
  {
    if notTaken in keys then notTaken else Least(keys)
  }

  // ----- the effect of one update -----------------------------------------------

  datatype Path = Path(pc: Pc, mask: set<nat>)

  ghost function Live(stack: seq<Entry>, done: set<nat>): set<nat>
    requires stack != []
  {
    Top(stack).mask - done
  }

  ghost predicate WellPosed(stack: seq<Entry>, iss: Issue) {
    && stack != []
    && InWarp(Top(stack).mask, |iss.next|)
    && iss.pc == Top(stack).pc
    && Top(stack).mask != {}
    && (forall t | t in Live(stack, iss.done) :: iss.next[t] != NULL_PC)
  }

  ghost function PathGroups(stack: seq<Entry>, iss: Issue): map<Pc, set<nat>>
    requires WellPosed(stack, iss)
  {
    Groups(Live(stack, iss.done), iss.next)
  }

  /** The asserts that the source puts on its caller: at most two paths, and
      uniform calls and returns. */
  ghost predicate Uniform(stack: seq<Entry>, iss: Issue)
    requires WellPosed(stack, iss)
  {
    var g := PathGroups(stack, iss);
    && |g| <= 2
    && (iss.op.CallOp? ==> |g| <= 1)
    && (iss.op.RetOp? && Top(stack).kind.Call? ==> |g| <= 1)
  }

  function AfterReturn(below: seq<Entry>, returnPc: Pc): seq<Entry> {
    if below == [] then []
    else if Top(below).kind.Normal? && returnPc == Top(below).recvgPc
    then Below(below)
    else Below(below) + [Top(below).(pc := returnPc)]
  }

  /** A path that is already at the reconvergence point of the top entry. */
  predicate Reconverges(top: Entry, pc: Pc) {
    top.kind.Normal? && pc == top.recvgPc
  }

  function PathEntry(slot: Entry, path: Path, recvgPc: Pc): Entry {
    slot.(pc := path.pc, mask := path.mask, callDepth := 0, recvgPc := recvgPc)
  }

  /** Two paths: which entries replace the top one. */
  function AfterDivergence(top: Entry, first: Path, second: Path, recvgPc: Pc, cycle: nat): seq<Entry> {
    var keepFirst := !Reconverges(top, first.pc) && first.pc != recvgPc;
    var keepSecond := !Reconverges(top, second.pc) && second.pc != recvgPc;
    if recvgPc == top.recvgPc then
      (if keepFirst then [PathEntry(top, first, recvgPc)] else []) +
      (if keepSecond then [PathEntry(if keepFirst then FRESH_ENTRY else top, second, recvgPc)] else [])
    else
      [top.(pc := recvgPc, divCycle := cycle)] +
      (if keepFirst then [PathEntry(FRESH_ENTRY, first, recvgPc)] else []) +
      (if keepSecond then [PathEntry(FRESH_ENTRY, second, recvgPc)] else [])
  }

  lemma SecondPathExists(g: map<Pc, set<nat>>, p: Pc)
    requires p in g && |g| > 1
    ensures g.Keys - {p} != {}
  {
    assert |g.Keys - {p}| == |g.Keys| - 1;
  }

  /** The paths in the order the loop meets them. */
  ghost function PathOrder(g: map<Pc, set<nat>>, notTaken: Pc): (order: seq<Path>)
    requires |g| <= 2
    ensures |order| == |g|
    ensures forall i | 0 <= i < |order| :: order[i].pc in g && g[order[i].pc] == order[i].mask
    ensures |order| == 2 ==> order[0].pc != order[1].pc
    ensures notTaken in g ==> order[0].pc == notTaken
  {
    if |g| == 0 then [] else
    var p := FirstPath(g.Keys, notTaken);
    if |g| == 1 then [Path(p, g[p])] else
    SecondPathExists(g, p);
    var q := FirstPath(g.Keys - {p}, notTaken);
    [Path(p, g[p]), Path(q, g[q])]
  }

  ghost function UpdateSpec(stack: seq<Entry>, iss: Issue): seq<Entry>
    requires WellPosed(stack, iss) && Uniform(stack, iss)
  {
    var top, below := Top(stack), Below(stack);
    var order := PathOrder(PathGroups(stack, iss), iss.NotTakenPc());
    if |order| == 0 then
      below
    else if iss.op.CallOp? then
      stack + [Entry(order[0].pc, 0, order[0].mask, NULL_PC, iss.cycle, Call)]
    else if iss.op.RetOp? && top.kind.Call? then
      AfterReturn(below, order[0].pc)
    else if |order| == 1 then
      if Reconverges(top, order[0].pc) then below
      else below + [top.(pc := order[0].pc, mask := order[0].mask)]
    else
      below + AfterDivergence(top, order[0], order[1], iss.recvgPc, iss.cycle)
  }

  // ----- the imperative stack -----------------------------------------------------

  /** One pass of the grouping loop of `update`: drop the finished threads of
      `mask` and peel off those that share the next pc of the highest-numbered
      live thread. */
  method PeelGroup(mask: set<nat>, done: set<nat>, next: seq<Pc>)
    returns (pc: Pc, group: set<nat>, rest: set<nat>)
    requires InWarp(mask, |next|)
    requires forall t | t in mask - done :: next[t] != NULL_PC
    ensures pc == NULL_PC <==> mask <= done
    ensures pc == NULL_PC ==> group == {} && rest == {}
    ensures pc != NULL_PC ==> group != {}
    ensures forall t :: t in group <==> t in mask - done && next[t] == pc
    ensures forall t :: t in rest <==> t in mask - done && next[t] != pc
  {
    rest := mask;
    pc, group := NULL_PC, {};
    var i := |next|;
    while i > 0
      invariant 0 <= i <= |next|
      invariant pc == NULL_PC <==> forall t | t in mask && t >= i :: t in done
      invariant pc != NULL_PC ==> group != {}
      invariant forall t :: t in group <==> t in mask - done && t >= i && next[t] == pc
      invariant forall t :: t in rest <==> t in mask && (t < i || (t !in done && next[t] != pc))
    {
      i := i - 1;
      if i in rest {
        if i in done {
          rest := rest - {i};
        } else if pc == NULL_PC {
          pc := next[i];
          group := group + {i};
          rest := rest - {i};
        } else if pc == next[i] {
          group := group + {i};
          rest := rest - {i};
        }
      }
    }
  }

  /** The grouping loop of `update`. */
  method GroupByNextPc(mask: set<nat>, done: set<nat>, next: seq<Pc>)
    returns (paths: map<Pc, set<nat>>, count: nat)
    requires InWarp(mask, |next|)
    requires forall t | t in mask - done :: next[t] != NULL_PC
    ensures paths == Groups(mask - done, next)
    ensures count == |paths|
  {
    var rest := mask;
    paths, count := map[], 0;
    while rest != {}
      invariant rest <= mask
      invariant forall t | t in rest - done :: next[t] !in paths
      invariant paths == Groups(mask - done - rest, next)
      invariant count == |paths|
      decreases |rest|
    {
      ghost var before := rest;
      var pc, group;
      pc, group, rest := PeelGroup(rest, done, next);
      PeelShrinks(before, done, group, rest);
      if pc == NULL_PC {
        assert mask - done - rest == mask - done - before;
      } else {
        GroupsExtend(mask - done - before, group, next, pc);
        assert mask - done - rest == (mask - done - before) + group;
        paths := paths[pc := group];
        count := count + 1;
      }
    }
    assert mask - done - rest == mask - done;
  }

  lemma PeelShrinks(before: set<nat>, done: set<nat>, group: set<nat>, rest: set<nat>)
    requires before != {} && rest <= before && (before <= done ==> rest == {})
    requires !(before <= done) ==> group != {} && group <= before && group !! rest
    ensures |rest| < |before|
  {
    assert |before| == |rest| + |before - rest|;
    if before <= done {
      assert rest == {};
    } else {
      var t :| t in group;
      assert t in before - rest;
    }
  }

  lemma GroupsExtend(seen: set<nat>, group: set<nat>, next: seq<Pc>, pc: Pc)
    requires InWarp(seen, |next|) && InWarp(group, |next|)
    requires group != {} && forall t | t in group :: next[t] == pc
    requires forall t | t in seen :: next[t] != pc
    ensures Groups(seen + group, next) == Groups(seen, next)[pc := group]
  {
    var g, h := Groups(seen + group, next), Groups(seen, next)[pc := group];
    var w :| w in group;
    assert next[w] == pc;
    assert g.Keys == h.Keys;
    forall p | p in g ensures g[p] == h[p] {
    }
  }

  class SimtStack {
    const warpSize: nat
    var stack: seq<Entry>

    constructor (warpSize: nat)
      ensures this.warpSize == warpSize && stack == []
    {
      this.warpSize := warpSize;
      stack := [];
    }

    method Launch(startPc: Pc, activeMask: set<nat>)
      modifies this`stack
      ensures stack == [Entry(startPc, 1, activeMask, NULL_PC, 0, Normal)]
    {
      stack := [];
      var entry := FRESH_ENTRY;
      entry := entry.(pc := startPc);
      entry := entry.(callDepth := 1);
      entry := entry.(mask := activeMask);
      entry := entry.(kind := Normal);
      stack := stack + [entry];
    }

    /** `simt_stack::update`. The path loop pushes a spare entry after every kept
        path and the last statement pops the spare (or the reconverged top). */
    method Update(iss: Issue)
      requires |iss.next| == warpSize
      requires WellPosed(stack, iss) && Uniform(stack, iss)
      requires Top(stack).kind.Call? ==> |stack| > 1
      modifies this`stack
      ensures stack == UpdateSpec(old(stack), iss)
    {
      ghost var g := PathGroups(stack, iss);
      var top := stack[|stack| - 1];
      var diverged, newRecvgPc := false, NULL_PC;
      var paths, count := GroupByNextPc(top.mask, iss.done, iss.next);
      var notTaken := iss.NotTakenPc();
      ghost var start := PathLoop(stack, false, NULL_PC);
      ghost var order := PathOrder(g, notTaken);
      var i := 0;
      while i < count
        invariant 0 <= i <= count == |g| == |order| <= 2
        invariant i == 0 ==> paths == g
        invariant i == 1 ==> paths == g - {order[0].pc}
        invariant i > 0 ==> !iss.op.CallOp? && !(iss.op.RetOp? && top.kind.Call?)
        invariant PathLoop(stack, diverged, newRecvgPc) == Rounds(start, top, order, i, iss)
      {
        var pc: Pc;
        if notTaken in paths {
          assert i == 0;
          pc := notTaken;
        } else {
          assert paths.Keys != {};
          pc := Least(paths.Keys);
        }
        assert Path(pc, paths[pc]) == order[i];
        var mask := paths[pc];
        paths := paths - {pc};

        if iss.op.CallOp? {
          assert count == 1;
          stack := stack + [FRESH_ENTRY.(pc := pc, mask := mask, divCycle := iss.cycle, kind := Call)];
          return;
        } else if iss.op.RetOp? && top.kind.Call? {
          assert count == 1;
          stack := stack[..|stack| - 1];
          assert |stack| > 0;
          stack := stack[|stack| - 1 := stack[|stack| - 1].(pc := pc)];
          if pc == stack[|stack| - 1].recvgPc && !stack[|stack| - 1].kind.Call? {
            assert stack[|stack| - 1].kind.Normal?;
            stack := stack[..|stack| - 1];
          }
          return;
        }
        diverged, newRecvgPc := PlacePath(top, count, pc, mask, iss, diverged, newRecvgPc);
        i := i + 1;
      }
      RoundsGiveSpec(start.stack, iss);
      assert |stack| > 0;
      stack := stack[..|stack| - 1];
    }

    /** The ordinary part of the path loop: neither a call nor a return from one. */
    method PlacePath(top: Entry, count: nat, pc: Pc, mask: set<nat>, iss: Issue, diverged: bool, newRecvgPc: Pc)
      returns (diverged': bool, newRecvgPc': Pc)
      requires stack != []
      modifies this`stack
      ensures PathLoop(stack, diverged', newRecvgPc') ==
        Round(PathLoop(old(stack), diverged, newRecvgPc), top, count > 1, Path(pc, mask), iss)
      ensures stack != []
    {
      diverged', newRecvgPc' := diverged, newRecvgPc;
      if pc == top.recvgPc && !top.kind.Call? {
        return;
      }
      if count > 1 && !diverged {
        diverged' := true;
        newRecvgPc' := iss.recvgPc;
        if newRecvgPc' != top.recvgPc {
          stack := stack[|stack| - 1 := stack[|stack| - 1].(pc := newRecvgPc', divCycle := iss.cycle)];
          stack := stack + [FRESH_ENTRY];
        }
      }
      if diverged' && pc == newRecvgPc' {
        return;
      }
      var slot := stack[|stack| - 1].(pc := pc, mask := mask);
      if diverged' {
        slot := slot.(callDepth := 0, recvgPc := newRecvgPc');
      } else {
        slot := slot.(recvgPc := top.recvgPc);
      }
      stack := stack[|stack| - 1 := slot] + [FRESH_ENTRY];
    }
  }

  /** The variables of the path loop. */
  datatype PathLoop = PathLoop(stack: seq<Entry>, diverged: bool, newRecvgPc: Pc)

  function Round(st: PathLoop, top: Entry, divergent: bool, path: Path, iss: Issue): (r: PathLoop)
    requires st.stack != []
    ensures r.stack != []
  {
    if Reconverges(top, path.pc) then st else
    var splits := divergent && !st.diverged;
    var recvgPc := if splits then iss.recvgPc else st.newRecvgPc;
    var base :=
      if splits && recvgPc != top.recvgPc
      then Below(st.stack) + [Top(st.stack).(pc := recvgPc, divCycle := iss.cycle), FRESH_ENTRY]
      else st.stack;
    var diverged := st.diverged || divergent;
    if diverged && path.pc == recvgPc then PathLoop(base, diverged, recvgPc) else
    var slot :=
      if diverged then PathEntry(Top(base), path, recvgPc)
      else Top(base).(pc := path.pc, mask := path.mask, recvgPc := top.recvgPc);
    PathLoop(Below(base) + [slot, FRESH_ENTRY], diverged, recvgPc)
  }

  function Rounds(st: PathLoop, top: Entry, order: seq<Path>, i: nat, iss: Issue): (r: PathLoop)
    requires st.stack != [] && i <= |order|
    ensures r.stack != []
  {
    if i == 0 then st
    else Round(Rounds(st, top, order, i - 1, iss), top, |order| > 1, order[i - 1], iss)
  }

  lemma RoundsGiveSpec(stack: seq<Entry>, iss: Issue)
    requires WellPosed(stack, iss) && Uniform(stack, iss)
    requires |PathGroups(stack, iss)| > 0 ==> !iss.op.CallOp? && !(iss.op.RetOp? && Top(stack).kind.Call?)
    ensures
      var order := PathOrder(PathGroups(stack, iss), iss.NotTakenPc());
      Below(Rounds(PathLoop(stack, false, NULL_PC), Top(stack), order, |order|, iss).stack) == UpdateSpec(stack, iss)
  {
    var order := PathOrder(PathGroups(stack, iss), iss.NotTakenPc());
    var start, top := PathLoop(stack, false, NULL_PC), Top(stack);
    if |order| == 1 {
      assert Rounds(start, top, order, 1, iss) == Round(start, top, false, order[0], iss);
    } else if |order| == 2 {
      TwoRounds(stack, order[0], order[1], iss);
      assert Rounds(start, top, order, 1, iss) == Round(start, top, true, order[0], iss);
      assert Rounds(start, top, order, 2, iss) == Round(Rounds(start, top, order, 1, iss), top, true, order[1], iss);
    }
  }

  /** A round after the warp has diverged fills the spare slot or leaves it. */
  lemma LaterRound(st: PathLoop, top: Entry, path: Path, iss: Issue)
    requires st.stack != [] && st.diverged
    ensures Below(Round(st, top, true, path, iss).stack) ==
      if Reconverges(top, path.pc) || path.pc == st.newRecvgPc then Below(st.stack)
      else Below(st.stack) + [PathEntry(Top(st.stack), path, st.newRecvgPc)]
  {
    if !Reconverges(top, path.pc) && path.pc != st.newRecvgPc {
      var slot := PathEntry(Top(st.stack), path, st.newRecvgPc);
      assert Below(Below(st.stack) + [slot, FRESH_ENTRY]) == Below(st.stack) + [slot];
    }
  }

  /** The round in which the warp diverges. */
  lemma FirstRound(stack: seq<Entry>, path: Path, iss: Issue)
    requires stack != [] && !Reconverges(Top(stack), path.pc)
    ensures
      var top, n := Top(stack), iss.recvgPc;
      var r := Round(PathLoop(stack, false, NULL_PC), top, true, path, iss);
      && r.diverged && r.newRecvgPc == n
      && r.stack ==
         if n == top.recvgPc then
           if path.pc == n then stack else Below(stack) + [PathEntry(top, path, n), FRESH_ENTRY]
         else
           var waiting := top.(pc := n, divCycle := iss.cycle);
           if path.pc == n then Below(stack) + [waiting, FRESH_ENTRY]
           else Below(stack) + [waiting, PathEntry(FRESH_ENTRY, path, n), FRESH_ENTRY]
  {
    var top, n := Top(stack), iss.recvgPc;
    if n != top.recvgPc {
      var waiting := top.(pc := n, divCycle := iss.cycle);
      var base := Below(stack) + [waiting, FRESH_ENTRY];
      assert Below(base) == Below(stack) + [waiting] && Top(base) == FRESH_ENTRY;
      var slot := PathEntry(FRESH_ENTRY, path, n);
      assert Below(base) + [slot, FRESH_ENTRY] == Below(stack) + [waiting, slot, FRESH_ENTRY];
    }
  }

  ghost predicate RoundsDiverge(stack: seq<Entry>, first: Path, second: Path, iss: Issue)
    requires stack != []
  {
    var top := Top(stack);
    Below(Round(Round(PathLoop(stack, false, NULL_PC), top, true, first, iss), top, true, second, iss).stack)
      == Below(stack) + AfterDivergence(top, first, second, iss.recvgPc, iss.cycle)
  }

  lemma FirstReconverges(stack: seq<Entry>, first: Path, second: Path, iss: Issue)
    requires stack != [] && first.pc != second.pc && Reconverges(Top(stack), first.pc)
    ensures RoundsDiverge(stack, first, second, iss)
  {
    var top, below, n := Top(stack), Below(stack), iss.recvgPc;
    assert Round(PathLoop(stack, false, NULL_PC), top, true, first, iss) == PathLoop(stack, false, NULL_PC);
    FirstRound(stack, second, iss);
    var waiting := top.(pc := n, divCycle := iss.cycle);
    assert Below(below + [PathEntry(top, second, n), FRESH_ENTRY]) == below + [PathEntry(top, second, n)];
    assert Below(below + [waiting, FRESH_ENTRY]) == below + [waiting];
    var child := PathEntry(FRESH_ENTRY, second, n);
    assert Below(below + [waiting, child, FRESH_ENTRY]) == below + [waiting, child];
  }

  lemma SiblingRounds(stack: seq<Entry>, first: Path, second: Path, iss: Issue)
    requires stack != [] && first.pc != second.pc && !Reconverges(Top(stack), first.pc)
    requires iss.recvgPc == Top(stack).recvgPc
    ensures RoundsDiverge(stack, first, second, iss)
  {
    var top, below, n := Top(stack), Below(stack), iss.recvgPc;
    FirstRound(stack, first, iss);
    var mid := Round(PathLoop(stack, false, NULL_PC), top, true, first, iss);
    LaterRound(mid, top, second, iss);
    var kept := PathEntry(top, first, n);
    assert Below(below + [kept, FRESH_ENTRY]) == below + [kept];
  }

  lemma ChildRounds(stack: seq<Entry>, first: Path, second: Path, iss: Issue)
    requires stack != [] && first.pc != second.pc && !Reconverges(Top(stack), first.pc)
    requires iss.recvgPc != Top(stack).recvgPc
    ensures RoundsDiverge(stack, first, second, iss)
  {
    var top, below, n := Top(stack), Below(stack), iss.recvgPc;
    FirstRound(stack, first, iss);
    var mid := Round(PathLoop(stack, false, NULL_PC), top, true, first, iss);
    LaterRound(mid, top, second, iss);
    var waiting, child := top.(pc := n, divCycle := iss.cycle), PathEntry(FRESH_ENTRY, first, n);
    assert Below(below + [waiting, FRESH_ENTRY]) == below + [waiting];
    assert Below(below + [waiting, child, FRESH_ENTRY]) == below + [waiting, child];
  }

  lemma TwoRounds(stack: seq<Entry>, first: Path, second: Path, iss: Issue)
    requires stack != [] && first.pc != second.pc
    ensures RoundsDiverge(stack, first, second, iss)
  {
    if Reconverges(Top(stack), first.pc) {
      FirstReconverges(stack, first, second, iss);
    } else if iss.recvgPc == Top(stack).recvgPc {
      SiblingRounds(stack, first, second, iss);
    } else {
      ChildRounds(stack, first, second, iss);
    }
  }
}
