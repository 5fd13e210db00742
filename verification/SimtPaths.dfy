/** What one update leaves on the stack, in terms of where the live threads of the top entry
    go: which side of a branch runs first, and every field of the entries it leaves. */
module SimtPaths {
  import opened OrderedKeys
  import opened SimtStacks
  import opened SimtShape

  /** The live threads of the top entry whose next pc is `p`. */
  ghost function GoingTo(stack: seq<Entry>, iss: Issue, p: Pc): set<nat>
    requires WellPosed(stack, iss)
  {
    set t | t in Top(stack).mask && t !in iss.done && iss.next[t] == p
  }

  /** A path that ends at once: at the reconvergence pc of the branch or of the entry. */
  ghost predicate Ends(stack: seq<Entry>, iss: Issue, p: Pc)
    requires stack != []
  {
    p == iss.recvgPc || (Top(stack).kind.Normal? && p == Top(stack).recvgPc)
  }

  /** The path at `p` goes under the one at `q`: it falls through, or neither does and its pc is
      smaller. */
  ghost predicate GoesUnder(iss: Issue, p: Pc, q: Pc) {
    var fallThrough := (iss.pc + iss.size) % 0x1_0000_0000_0000_0000;
    p != q && (p == fallThrough || (q != fallThrough && p < q))
  }

  lemma PathsInOrder(stack: seq<Entry>, iss: Issue, p: Pc, q: Pc)
    requires WellPosed(stack, iss) && Uniform(stack, iss) && GoesUnder(iss, p, q)
    requires GoingTo(stack, iss, p) != {} && GoingTo(stack, iss, q) != {}
    ensures PathOrder(PathGroups(stack, iss), iss.NotTakenPc()) ==
      [Path(p, GoingTo(stack, iss, p)), Path(q, GoingTo(stack, iss, q))]
  {
    var g := PathGroups(stack, iss);
    var t :| t in GoingTo(stack, iss, p);
    var u :| u in GoingTo(stack, iss, q);
    assert t in Live(stack, iss.done) && u in Live(stack, iss.done);
    assert p in g && q in g;
    assert {p, q} <= g.Keys;
    SubsetCard({p, q}, g.Keys);
    TwoGroups(Live(stack, iss.done), iss.next, p, q);
    assert g[p] == GoingTo(stack, iss, p) && g[q] == GoingTo(stack, iss, q);
    assert g.Keys - {p} == {q};
  }

  /** Both sides run on: the one that goes under is below, the other is issued next. */
  lemma BothSides(stack: seq<Entry>, iss: Issue, p: Pc, q: Pc)
    requires WellPosed(stack, iss) && Uniform(stack, iss) && GoesUnder(iss, p, q)
    requires GoingTo(stack, iss, p) != {} && GoingTo(stack, iss, q) != {}
    requires !Ends(stack, iss, p) && !Ends(stack, iss, q)
    ensures var top := Top(stack);
      UpdateSpec(stack, iss) == Below(stack)
      + (if iss.recvgPc == top.recvgPc
         then [Entry(p, 0, GoingTo(stack, iss, p), top.recvgPc, top.divCycle, top.kind)]
         else [Entry(iss.recvgPc, top.callDepth, top.mask, top.recvgPc, iss.cycle, top.kind),
               Entry(p, 0, GoingTo(stack, iss, p), iss.recvgPc, 0, Normal)])
      + [Entry(q, 0, GoingTo(stack, iss, q), iss.recvgPc, 0, Normal)]
  {
    PathsInOrder(stack, iss, p, q);
  }

  /** A branch that is taken by some and not by others: the taken side is issued next, with exactly
      its threads, and the side that falls through waits right below. */
  lemma TakenSideFirst(stack: seq<Entry>, iss: Issue, p: Pc, q: Pc)
    requires WellPosed(stack, iss) && Uniform(stack, iss)
    requires p != q && q == iss.pc + iss.size < 0x1_0000_0000_0000_0000 && 0 <= iss.pc
    requires GoingTo(stack, iss, p) != {} && GoingTo(stack, iss, q) != {}
    requires !Ends(stack, iss, p) && !Ends(stack, iss, q)
    ensures var s := UpdateSpec(stack, iss);
      && |s| >= 2 && Top(s).pc == p && Top(s).mask == GoingTo(stack, iss, p)
      && Top(Below(s)).pc == q && Top(Below(s)).mask == GoingTo(stack, iss, q)
  {
    BothSides(stack, iss, q, p);
  }

  /** One side has arrived where the paths meet: only the other one is placed. */
  lemma OneSideLeft(stack: seq<Entry>, iss: Issue, p: Pc, q: Pc)
    requires WellPosed(stack, iss) && Uniform(stack, iss) && p != q
    requires GoingTo(stack, iss, p) != {} && GoingTo(stack, iss, q) != {}
    requires Ends(stack, iss, p) && !Ends(stack, iss, q)
    ensures var top := Top(stack);
      UpdateSpec(stack, iss) ==
      Below(stack) +
      if iss.recvgPc == top.recvgPc
      then [Entry(q, 0, GoingTo(stack, iss, q), top.recvgPc, top.divCycle, top.kind)]
      else [Entry(iss.recvgPc, top.callDepth, top.mask, top.recvgPc, iss.cycle, top.kind),
            Entry(q, 0, GoingTo(stack, iss, q), iss.recvgPc, 0, Normal)]
  {
    if GoesUnder(iss, p, q) {
      PathsInOrder(stack, iss, p, q);
    } else {
      PathsInOrder(stack, iss, q, p);
    }
  }

  /** Both have, at different pcs: only the entry that waits for them is left. */
  lemma NoSideLeft(stack: seq<Entry>, iss: Issue, p: Pc, q: Pc)
    requires WellPosed(stack, iss) && Uniform(stack, iss) && p != q
    requires GoingTo(stack, iss, p) != {} && GoingTo(stack, iss, q) != {}
    requires Ends(stack, iss, p) && Ends(stack, iss, q)
    ensures var top := Top(stack);
      UpdateSpec(stack, iss) ==
      Below(stack) + [Entry(iss.recvgPc, top.callDepth, top.mask, top.recvgPc, iss.cycle, top.kind)]
  {
    if GoesUnder(iss, p, q) {
      PathsInOrder(stack, iss, p, q);
    } else {
      PathsInOrder(stack, iss, q, p);
    }
  }

  lemma OnePathOnly(stack: seq<Entry>, iss: Issue, p: Pc)
    requires WellPosed(stack, iss) && Live(stack, iss.done) != {}
    requires forall t | t in Live(stack, iss.done) :: iss.next[t] == p
    ensures Uniform(stack, iss)
    ensures PathOrder(PathGroups(stack, iss), iss.NotTakenPc()) == [Path(p, Live(stack, iss.done))]
  {
    var g := PathGroups(stack, iss);
    var t :| t in Live(stack, iss.done);
    assert iss.next[t] == p;
    assert g.Keys == {p} && g[p] == Live(stack, iss.done);
    assert FirstPath({p}, iss.NotTakenPc()) == p;
  }

  /** All live threads go to one pc, by an instruction that is neither a call nor a return from
      one: the entry moves on with them, or is gone when it arrives. */
  lemma TogetherOn(stack: seq<Entry>, iss: Issue, p: Pc)
    requires WellPosed(stack, iss) && Live(stack, iss.done) != {}
    requires forall t | t in Live(stack, iss.done) :: iss.next[t] == p
    requires !iss.op.CallOp? && !(iss.op.RetOp? && Top(stack).kind.Call?)
    ensures Uniform(stack, iss)
    ensures var top := Top(stack);
      UpdateSpec(stack, iss) ==
      if top.kind.Normal? && p == top.recvgPc then Below(stack)
      else Below(stack) + [Entry(p, top.callDepth, top.mask - iss.done, top.recvgPc, top.divCycle, top.kind)]
  {
    OnePathOnly(stack, iss, p);
  }

  /** A call: the entry stays, and the callee's comes on top of it. */
  lemma CalledTogether(stack: seq<Entry>, iss: Issue, p: Pc)
    requires WellPosed(stack, iss) && Live(stack, iss.done) != {} && iss.op.CallOp?
    requires forall t | t in Live(stack, iss.done) :: iss.next[t] == p
    ensures Uniform(stack, iss)
    ensures UpdateSpec(stack, iss) ==
      stack + [Entry(p, 0, Top(stack).mask - iss.done, 0xFFFF_FFFF_FFFF_FFFF, iss.cycle, Call)]
  {
    OnePathOnly(stack, iss, p);
  }

  /** A return from a call: the callee's entry goes, and the caller's continues at the return pc,
      unless that is where it reconverges. */
  lemma ReturnedTogether(stack: seq<Entry>, iss: Issue, p: Pc)
    requires WellPosed(stack, iss) && Live(stack, iss.done) != {} && |stack| > 1
    requires iss.op.RetOp? && Top(stack).kind.Call?
    requires forall t | t in Live(stack, iss.done) :: iss.next[t] == p
    ensures Uniform(stack, iss)
    ensures var caller := stack[|stack| - 2];
      UpdateSpec(stack, iss) ==
      stack[..|stack| - 2] + if caller.kind.Normal? && p == caller.recvgPc then [] else [caller.(pc := p)]
  {
    OnePathOnly(stack, iss, p);
    assert Below(Below(stack)) == stack[..|stack| - 2];
    assert Below(Below(stack)) + [] == Below(Below(stack));
  }

  /** No live thread is left: the entry goes. */
  lemma NobodyLeft(stack: seq<Entry>, iss: Issue)
    requires WellPosed(stack, iss) && Top(stack).mask <= iss.done
    ensures Uniform(stack, iss) && UpdateSpec(stack, iss) == Below(stack)
  {
    assert Live(stack, iss.done) == {};
    assert PathGroups(stack, iss) == map[];
  }
}
