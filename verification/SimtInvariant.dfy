/** What every update of the SIMT stack keeps.

`Laminar` is the shape of the stack, which every update keeps; `Agrees` says that each
live thread's own pc is the pc of the topmost entry holding it, which an update keeps
exactly when the branch's reconvergence pc passes `ProperRecvg`.
 */
module SimtInvariant {
  import opened SimtStacks

  // ----- shape ---------------------------------------------------------------------

  /** Entries `i` (excluded) to `j` (included) contain no call. */
  ghost predicate SameFrame(stack: seq<Entry>, i: int, j: int)
    requires 0 <= i <= j < |stack|
  {
    forall k | i < k <= j :: stack[k].kind.Normal?
  }

  /** Going up, masks are nested or disjoint, and never equal inside one call frame. */
  ghost predicate NestedPair(stack: seq<Entry>, i: int, j: int)
    requires 0 <= i < j < |stack|
  {
    && (stack[j].mask <= stack[i].mask || stack[j].mask !! stack[i].mask)
    && (SameFrame(stack, i, j) ==> stack[j].mask != stack[i].mask)
  }

  /** Entry `j` is where the threads of entry `i` reconverge; the entries between
      them are the siblings of `i`. */
  ghost predicate IsParent(stack: seq<Entry>, j: int, i: int)
    requires i < |stack|
  {
    && 0 <= j < i
    && stack[j].pc == stack[i].recvgPc
    && stack[i].mask < stack[j].mask
    && SameFrame(stack, j, i)
    && (forall k | j < k < i ::
          stack[k].recvgPc == stack[i].recvgPc && stack[k].mask < stack[j].mask && stack[k].mask !! stack[i].mask)
  }

  ghost predicate EntryOk(stack: seq<Entry>, i: int)
    requires 0 <= i < |stack|
  {
    && stack[i].mask != {}
    && match stack[i].kind
       case Normal => stack[i].recvgPc == NULL_PC || exists j :: IsParent(stack, j, i)
       case Call => i > 0 && stack[i].recvgPc == NULL_PC && stack[i].mask <= stack[i - 1].mask
  }

  ghost predicate Laminar(stack: seq<Entry>) {
    && (forall i | 0 <= i < |stack| :: EntryOk(stack, i))
    && (forall i, j | 0 <= i < j < |stack| :: NestedPair(stack, i, j))
  }

  lemma ShapeIsLocal(s: seq<Entry>, r: seq<Entry>, i: int)
    requires 0 <= i < |s| && i < |r| && forall k | 0 <= k <= i :: s[k] == r[k]
    ensures EntryOk(s, i) ==> EntryOk(r, i)
    ensures forall j | 0 <= j < i && NestedPair(s, j, i) :: NestedPair(r, j, i)
  {
    if EntryOk(s, i) && s[i].kind.Normal? && s[i].recvgPc != NULL_PC {
      var j :| IsParent(s, j, i);
      assert IsParent(r, j, i);
    }
  }

  lemma LaminarPrefix(stack: seq<Entry>, n: nat)
    requires Laminar(stack) && n <= |stack|
    ensures Laminar(stack[..n])
  {
    var s := stack[..n];
    forall i | 0 <= i < |s| ensures EntryOk(s, i) {
      ShapeIsLocal(stack, s, i);
    }
    forall i, j | 0 <= i < j < |s| ensures NestedPair(s, i, j) {
      assert NestedPair(stack, i, j);
      ShapeIsLocal(stack, s, j);
    }
  }

  /** Pushing one entry: only its own obligations are new. */
  lemma LaminarPush(stack: seq<Entry>, e: Entry)
    requires Laminar(stack)
    requires EntryOk(stack + [e], |stack|)
    requires forall j | 0 <= j < |stack| :: NestedPair(stack + [e], j, |stack|)
    ensures Laminar(stack + [e])
  {
    var s := stack + [e];
    forall i | 0 <= i < |s| ensures EntryOk(s, i) {
      if i < |stack| {
        ShapeIsLocal(stack, s, i);
      }
    }
    forall i, j | 0 <= i < j < |s| ensures NestedPair(s, i, j) {
      if j < |stack| {
        assert NestedPair(stack, i, j);
        ShapeIsLocal(stack, s, j);
      }
    }
  }

  // ----- agreement with the threads ----------------------------------------------------

  /** Index of the topmost entry holding thread `t`, or -1. */
  function Holder(stack: seq<Entry>, t: nat): (i: int)
    ensures -1 <= i < |stack|
    ensures i >= 0 ==> t in stack[i].mask
    ensures forall j | i < j < |stack| :: t !in stack[j].mask
  {
    if stack == [] then -1
    else if t in Top(stack).mask then |stack| - 1
    else Holder(Below(stack), t)
  }

  lemma HolderIs(stack: seq<Entry>, t: nat, i: int)
    requires -1 <= i < |stack|
    requires i >= 0 ==> t in stack[i].mask
    requires forall j | i < j < |stack| :: t !in stack[j].mask
    ensures Holder(stack, t) == i
  {
  }

  ghost predicate Agrees(stack: seq<Entry>, live: set<nat>, pcs: seq<Pc>)
    requires InWarp(live, |pcs|)
  {
    forall t | t in live :: Holder(stack, t) >= 0 && stack[Holder(stack, t)].pc == pcs[t]
  }

  /** The live threads of the entry beneath a call are all inside the callee's frame. */
  ghost predicate CallCovers(stack: seq<Entry>, live: set<nat>, i: int)
    requires 0 < i < |stack|
  {
    forall t | t in live && t in stack[i - 1].mask :: Holder(stack, t) >= i
  }

  ghost predicate CallsCover(stack: seq<Entry>, live: set<nat>) {
    forall i | 0 < i < |stack| && stack[i].kind.Call? :: CallCovers(stack, live, i)
  }

  /** Popping a reconverged entry hands its threads to the parent. */
  lemma ParentHolds(stack: seq<Entry>, t: nat) returns (j: int)
    requires stack != [] && EntryOk(stack, |stack| - 1)
    requires Top(stack).kind.Normal? && Top(stack).recvgPc != NULL_PC && t in Top(stack).mask
    ensures j == Holder(Below(stack), t) && IsParent(stack, j, |stack| - 1)
  {
    j :| IsParent(stack, j, |stack| - 1);
    HolderIs(Below(stack), t, j);
  }

  // ----- replacing the top entry ----------------------------------------------------------

  /** An entry carved out of the top entry nests under every lower entry. */
  lemma NestedUnder(stack: seq<Entry>, s: seq<Entry>, j: int, i: int)
    requires stack != [] && Laminar(stack)
    requires 0 <= j < |stack| - 1 <= i < |s|
    requires forall k | 0 <= k < |stack| - 1 :: s[k] == stack[k]
    requires s[|stack| - 1].kind == Top(stack).kind
    requires s[i].mask != {} && s[i].mask <= Top(stack).mask
    ensures NestedPair(s, j, i)
  {
    var b := |stack| - 1;
    assert NestedPair(stack, j, b);
    if SameFrame(s, j, i) {
      assert SameFrame(stack, j, b);
    }
  }

  lemma LaminarReplace(stack: seq<Entry>, xs: seq<Entry>)
    requires stack != [] && Laminar(stack)
    requires xs != [] && xs[0].kind == Top(stack).kind
    requires forall i | 0 <= i < |xs| :: xs[i].mask <= Top(stack).mask
    requires forall i | |stack| - 1 <= i < |Below(stack) + xs| :: EntryOk(Below(stack) + xs, i)
    requires forall i, j | |stack| - 1 <= i < j < |Below(stack) + xs| :: NestedPair(Below(stack) + xs, i, j)
    ensures Laminar(Below(stack) + xs)
  {
    var s, b := Below(stack) + xs, |stack| - 1;
    forall i | 0 <= i < |s| ensures EntryOk(s, i) {
      if i < b {
        ShapeIsLocal(stack, s, i);
      }
    }
    forall i, j | 0 <= i < j < |s| ensures NestedPair(s, i, j) {
      if j < b {
        assert NestedPair(stack, i, j);
        ShapeIsLocal(stack, s, j);
      } else if i < b {
        assert EntryOk(s, j) && s[j].mask == xs[j - b].mask;
        NestedUnder(stack, s, i, j);
      }
    }
  }

  /** Only threads of the top entry moved or finished. */
  ghost predicate Moved(stack: seq<Entry>, live: set<nat>, pcs: seq<Pc>, live': set<nat>, pcs': seq<Pc>)
    requires stack != []
  {
    && |pcs'| == |pcs|
    && InWarp(live, |pcs|)
    && live' <= live
    && (forall t | t in live' && t !in Top(stack).mask :: pcs'[t] == pcs[t])
  }

  /** A live thread of the old top is either in a new entry with its pc, or falls
      to the parent because it reached the reconvergence pc. */
  ghost predicate Placed(top: Entry, xs: seq<Entry>, t: nat, pc: Pc) {
    var i := Holder(xs, t);
    if i >= 0 then xs[i].pc == pc
    else top.kind.Normal? && top.recvgPc != NULL_PC && top.recvgPc == pc
  }

  lemma HolderConcat(below: seq<Entry>, xs: seq<Entry>, t: nat)
    ensures Holder(below + xs, t) == if Holder(xs, t) >= 0 then |below| + Holder(xs, t) else Holder(below, t)
  {
    var i := if Holder(xs, t) >= 0 then |below| + Holder(xs, t) else Holder(below, t);
    HolderIs(below + xs, t, i);
  }

  lemma PlacedAgrees(stack: seq<Entry>, xs: seq<Entry>, t: nat, pc: Pc, pc': Pc)
    requires stack != [] && Laminar(stack)
    requires forall i | 0 <= i < |xs| :: xs[i].mask <= Top(stack).mask
    requires Holder(stack, t) >= 0 && stack[Holder(stack, t)].pc == pc
    requires t in Top(stack).mask ==> Placed(Top(stack), xs, t, pc')
    requires t !in Top(stack).mask ==> pc' == pc
    ensures Holder(Below(stack) + xs, t) >= 0 && (Below(stack) + xs)[Holder(Below(stack) + xs, t)].pc == pc'
    ensures forall i | 0 < i < |stack| && stack[i].kind.Call? && Holder(stack, t) >= i ::
      Holder(Below(stack) + xs, t) >= i
  {
    HolderConcat(Below(stack), xs, t);
    if t in Top(stack).mask && Holder(xs, t) < 0 {
      var j := ParentHolds(stack, t);
    }
  }

  lemma AgreesReplace(
    stack: seq<Entry>, xs: seq<Entry>, live: set<nat>, pcs: seq<Pc>, live': set<nat>, pcs': seq<Pc>)
    requires stack != [] && Laminar(stack) && Moved(stack, live, pcs, live', pcs')
    requires Agrees(stack, live, pcs) && CallsCover(stack, live)
    requires forall i | 0 <= i < |xs| :: xs[i].mask <= Top(stack).mask
    requires forall t | t in live' && t in Top(stack).mask :: Placed(Top(stack), xs, t, pcs'[t])
    requires xs != [] ==> xs[0].kind == Top(stack).kind
    requires forall i | 0 < i < |xs| && xs[i].kind.Call? :: CallCovers(Below(stack) + xs, live', |stack| - 1 + i)
    ensures Agrees(Below(stack) + xs, live', pcs') && CallsCover(Below(stack) + xs, live')
  {
    var s, b := Below(stack) + xs, |stack| - 1;
    forall t | t in live' ensures Holder(s, t) >= 0 && s[Holder(s, t)].pc == pcs'[t] {
      PlacedAgrees(stack, xs, t, pcs[t], pcs'[t]);
    }
    forall i | 0 < i < |s| && s[i].kind.Call? ensures CallCovers(s, live', i) {
      if i <= b {
        assert CallCovers(stack, live, i);
        forall t | t in live' && t in s[i - 1].mask ensures Holder(s, t) >= i {
          PlacedAgrees(stack, xs, t, pcs[t], pcs'[t]);
        }
      } else {
        assert xs[i - b].kind.Call?;
      }
    }
  }
}
